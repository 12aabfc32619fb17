/// The link rewrites of `insert_at` and why they keep the arena well formed:
/// the new node becomes a leaf in the slot the search found, the in-order
/// sequence gains it at the searched index, and every subtree interval moves
/// by a fixed rule.
module RbInsert {
  import opened RbTypes
  import opened RbShape
  import RbSpec
  import RbWalk

  /// create_node: a red node holding `v` whose links all lead to the sentinel.
  function NewNode(v: Entry): (r: Node)
    ensures r.value == Some(v) && !IsNilWord(r.color) && IsRedWord(r.color)
    ensures r.left == 0 && r.right == 0 && r.parent == 0
  {
    Node(Some(v), RED, 0, 0, 0)
  }

  /// The writes of insert_at(pack, z) before the fix-up: `z` hangs below
  /// `pack.parent`, the sentinel caches it as root, minimum and maximum in
  /// an empty tree, and as minimum (maximum) when it goes left of the old
  /// minimum (right of the old maximum).
  ghost function InsertLinks(nodes: seq<Node>, pack: InsPack, z: int): (r: seq<Node>)
    requires 0 <= pack.parent < |nodes| && 0 <= z < |nodes|
    ensures |r| == |nodes|
  {
    var q := pack.parent;
    var n1 := nodes[z := nodes[z].(parent := q)];
    if q == 0 then n1[0 := n1[0].(parent := z, left := z, right := z)]
    else if pack.pos == Left then
      var n2 := n1[q := n1[q].(left := z)];
      if q == n2[0].left then n2[0 := n2[0].(left := z)] else n2
    else
      var n2 := n1[q := n1[q].(right := z)];
      if q == n2[0].right then n2[0 := n2[0].(right := z)] else n2
  }

  /// How an interval bound moves when a node enters at in-order index
  /// `idx`.  Below a left slot the bound `idx` itself stays (the new node
  /// starts the subtrees that started at its parent); beside a right slot
  /// it moves (the new node ends the subtrees that ended at its parent).
  function ShiftBound(b: int, idx: int, side: Side): int
  {
    if b > idx || (side == Right && b == idx) then b + 1 else b
  }

  function ShiftPos(p: int, idx: int): int
  {
    if p >= idx then p + 1 else p
  }

  /// The intervals once node `z` stands at index `idx`.
  ghost function SpansAfterInsert(spans: seq<Span>, idx: int, side: Side, z: int): (r: seq<Span>)
    ensures |r| == |spans|
  {
    seq(|spans|, i requires 0 <= i < |spans| =>
      if i == z then Span(idx, idx, idx + 1)
      else Span(ShiftBound(spans[i].lo, idx, side), ShiftPos(spans[i].pos, idx), ShiftBound(spans[i].hi, idx, side)))
  }

  ghost function OrderAfterInsert(order: seq<int>, idx: int, z: int): (r: seq<int>)
    requires 0 <= idx <= |order|
    ensures |r| == |order| + 1 && r[idx] == z
    ensures forall i :: 0 <= i < idx ==> r[i] == order[i]
    ensures forall i :: idx <= i < |order| ==> r[i + 1] == order[i]
  {
    order[..idx] + [z] + order[idx..]
  }

  /// The per-node outcome of InsertLinks into the left slot of a live `q`.
  ghost predicate InsertedLeft(nodes: seq<Node>, q: int, z: int, nodes1: seq<Node>)
  {
    && 0 < q < |nodes| && 0 < z < |nodes| && q != z
    && |nodes1| == |nodes|
    && nodes1[z] == nodes[z].(parent := q)
    && nodes1[q] == nodes[q].(left := z)
    && nodes1[0] == (if nodes[0].left == q then nodes[0].(left := z) else nodes[0])
    && (forall i :: 0 < i < |nodes| && i != q && i != z ==> nodes1[i] == nodes[i])
  }

  ghost predicate InsertedRight(nodes: seq<Node>, q: int, z: int, nodes1: seq<Node>)
  {
    && 0 < q < |nodes| && 0 < z < |nodes| && q != z
    && |nodes1| == |nodes|
    && nodes1[z] == nodes[z].(parent := q)
    && nodes1[q] == nodes[q].(right := z)
    && nodes1[0] == (if nodes[0].right == q then nodes[0].(right := z) else nodes[0])
    && (forall i :: 0 < i < |nodes| && i != q && i != z ==> nodes1[i] == nodes[i])
  }

  lemma InsertLeftEffect(nodes: seq<Node>, pack: InsPack, z: int)
    requires 0 < pack.parent < |nodes| && 0 < z < |nodes| && pack.parent != z && pack.pos == Left
    ensures InsertedLeft(nodes, pack.parent, z, InsertLinks(nodes, pack, z))
  {
  }

  lemma InsertRightEffect(nodes: seq<Node>, pack: InsPack, z: int)
    requires 0 < pack.parent < |nodes| && 0 < z < |nodes| && pack.parent != z && pack.pos == Right
    ensures InsertedRight(nodes, pack.parent, z, InsertLinks(nodes, pack, z))
  {
  }

  /// A node just made by create_node that is not yet in the tree.
  ghost predicate Fresh(nodes: seq<Node>, order: seq<int>, z: int)
  {
    && 0 < z < |nodes|
    && (forall i :: 0 <= i < |order| ==> order[i] != z)
    && nodes[z].value.Some? && !IsNilWord(nodes[z].color) && nodes[z].left == 0 && nodes[z].right == 0
  }

  /// The premises every per-node step of an insertion below a live `q`
  /// shares: `z` is a fresh slot outside the in-order sequence and `q`'s
  /// slot on `side` is empty at index `idx`.
  ghost predicate Slot(nodes: seq<Node>, spans: seq<Span>, order: seq<int>, q: int, side: Side, idx: int, z: int)
  {
    && 0 < q < |nodes| == |spans| && Fresh(nodes, order, z) && q != z
    && Live(nodes, spans, order, q)
    && (side == Left ==> nodes[q].left == 0 && spans[q].pos == idx)
    && (side == Right ==> nodes[q].right == 0 && spans[q].pos + 1 == idx)
    && 0 <= idx <= |order|
  }

  /// A node that was live keeps its place, one further on when it stands
  /// at or after the new index.
  lemma LiveAfterInsert(nodes1: seq<Node>, spans: seq<Span>, order: seq<int>, idx: int, side: Side, z: int, m: int)
    requires |nodes1| == |spans| && 0 <= idx <= |order|
    requires Live(nodes1, spans, order, m) && m != z
    ensures Live(nodes1, SpansAfterInsert(spans, idx, side, z), OrderAfterInsert(order, idx, z), m)
  {
  }

  /// A node that is live after the insertion is the new one or was live.
  lemma LiveBeforeInsert(nodes: seq<Node>, spans: seq<Span>, order: seq<int>, idx: int, side: Side, z: int, m: int)
    requires |nodes| == |spans| && 0 <= idx <= |order|
    requires Live(nodes, SpansAfterInsert(spans, idx, side, z), OrderAfterInsert(order, idx, z), m) && m != z
    ensures Live(nodes, spans, order, m)
  {
    var p := spans[m].pos;
    if p >= idx {
      assert OrderAfterInsert(order, idx, z)[p + 1] == order[p];
    }
  }

  /// Every node other than the new one and its parent keeps its links, and
  /// its interval moves with its neighbours', so it stays well formed.
  lemma InsertLeftOther(nodes: seq<Node>, spans: seq<Span>, order: seq<int>, q: int, idx: int, z: int,
                        nodes1: seq<Node>, m: int)
    requires Slot(nodes, spans, order, q, Left, idx, z) && InsertedLeft(nodes, q, z, nodes1)
    requires Live(nodes, spans, order, m) && NodeOk(nodes, spans, order, m) && m != q
    ensures NodeOk(nodes1, SpansAfterInsert(spans, idx, Left, z), OrderAfterInsert(order, idx, z), m)
  {
    var spans1, order1 := SpansAfterInsert(spans, idx, Left, z), OrderAfterInsert(order, idx, z);
    assert spans[m].pos != idx;
    var l, r, p := nodes[m].left, nodes[m].right, nodes[m].parent;
    if l != 0 {
      LiveAfterInsert(nodes1, spans, order, idx, Left, z, l);
    }
    if r != 0 {
      LiveAfterInsert(nodes1, spans, order, idx, Left, z, r);
    }
    if p != 0 {
      LiveAfterInsert(nodes1, spans, order, idx, Left, z, p);
    }
    LiveAfterInsert(nodes1, spans, order, idx, Left, z, m);
  }

  /// The parent gains the new node as its left child; its own interval
  /// now starts at the new node.
  lemma InsertLeftAtParent(nodes: seq<Node>, spans: seq<Span>, order: seq<int>, q: int, idx: int, z: int,
                           nodes1: seq<Node>)
    requires Slot(nodes, spans, order, q, Left, idx, z) && InsertedLeft(nodes, q, z, nodes1)
    requires NodeOk(nodes, spans, order, q)
    ensures NodeOk(nodes1, SpansAfterInsert(spans, idx, Left, z), OrderAfterInsert(order, idx, z), q)
  {
    var r, p := nodes[q].right, nodes[q].parent;
    if r != 0 {
      LiveAfterInsert(nodes1, spans, order, idx, Left, z, r);
    }
    if p != 0 {
      LiveAfterInsert(nodes1, spans, order, idx, Left, z, p);
    }
    LiveAfterInsert(nodes1, spans, order, idx, Left, z, q);
  }

  /// The new node is a leaf below its parent.
  lemma InsertLeftAtNew(nodes: seq<Node>, spans: seq<Span>, order: seq<int>, q: int, idx: int, z: int,
                        nodes1: seq<Node>)
    requires Slot(nodes, spans, order, q, Left, idx, z) && InsertedLeft(nodes, q, z, nodes1)
    requires nodes[0].parent != z
    ensures NodeOk(nodes1, SpansAfterInsert(spans, idx, Left, z), OrderAfterInsert(order, idx, z), z)
  {
    LiveAfterInsert(nodes1, spans, order, idx, Left, z, q);
  }

  /// The sentinel keeps the root and the maximum, and caches the new node
  /// as minimum when it went in front of everything.
  lemma InsertLeftSentinel(nodes: seq<Node>, spans: seq<Span>, order: seq<int>, q: int, idx: int, z: int,
                           nodes1: seq<Node>)
    requires Slot(nodes, spans, order, q, Left, idx, z) && InsertedLeft(nodes, q, z, nodes1)
    requires OrderOk(nodes, spans, order) && SentinelOk(nodes, spans, order)
    ensures SentinelOk(nodes1, SpansAfterInsert(spans, idx, Left, z), OrderAfterInsert(order, idx, z))
  {
    var root := nodes[0].parent;
    LiveAfterInsert(nodes1, spans, order, idx, Left, z, root);
    assert idx == 0 <==> nodes[0].left == q;
  }

  /// Every node that is live after the insertion checks out.
  lemma InsertLeftEach(nodes: seq<Node>, spans: seq<Span>, order: seq<int>, q: int, idx: int, z: int,
                       nodes1: seq<Node>)
    requires Slot(nodes, spans, order, q, Left, idx, z) && InsertedLeft(nodes, q, z, nodes1)
    requires AllNodesOk(nodes, spans, order) && nodes[0].parent != z
    ensures AllNodesOk(nodes1, SpansAfterInsert(spans, idx, Left, z), OrderAfterInsert(order, idx, z))
  {
    var spans1, order1 := SpansAfterInsert(spans, idx, Left, z), OrderAfterInsert(order, idx, z);
    forall n | Live(nodes1, spans1, order1, n)
      ensures NodeOk(nodes1, spans1, order1, n)
    {
      if n == z {
        InsertLeftAtNew(nodes, spans, order, q, idx, z, nodes1);
      } else {
        LiveBeforeInsert(nodes, spans, order, idx, Left, z, n);
        NodeOkOf(nodes, spans, order, n);
        if n == q {
          InsertLeftAtParent(nodes, spans, order, q, idx, z, nodes1);
        } else {
          InsertLeftOther(nodes, spans, order, q, idx, z, nodes1, n);
        }
      }
    }
  }

  /// The mirror of InsertLeftOther.
  lemma InsertRightOther(nodes: seq<Node>, spans: seq<Span>, order: seq<int>, q: int, idx: int, z: int,
                        nodes1: seq<Node>, m: int)
    requires Slot(nodes, spans, order, q, Right, idx, z) && InsertedRight(nodes, q, z, nodes1)
    requires Live(nodes, spans, order, m) && NodeOk(nodes, spans, order, m) && m != q
    ensures NodeOk(nodes1, SpansAfterInsert(spans, idx, Right, z), OrderAfterInsert(order, idx, z), m)
  {
    var spans1, order1 := SpansAfterInsert(spans, idx, Right, z), OrderAfterInsert(order, idx, z);
    assert spans[m].pos + 1 != idx;
    var l, r, p := nodes[m].left, nodes[m].right, nodes[m].parent;
    if l != 0 {
      LiveAfterInsert(nodes1, spans, order, idx, Right, z, l);
    }
    if r != 0 {
      LiveAfterInsert(nodes1, spans, order, idx, Right, z, r);
    }
    if p != 0 {
      LiveAfterInsert(nodes1, spans, order, idx, Right, z, p);
    }
    LiveAfterInsert(nodes1, spans, order, idx, Right, z, m);
  }

  /// The parent gains the new node as its right child; its own interval
  /// now ends at the new node.
  lemma InsertRightAtParent(nodes: seq<Node>, spans: seq<Span>, order: seq<int>, q: int, idx: int, z: int,
                           nodes1: seq<Node>)
    requires Slot(nodes, spans, order, q, Right, idx, z) && InsertedRight(nodes, q, z, nodes1)
    requires NodeOk(nodes, spans, order, q)
    ensures NodeOk(nodes1, SpansAfterInsert(spans, idx, Right, z), OrderAfterInsert(order, idx, z), q)
  {
    var l, p := nodes[q].left, nodes[q].parent;
    if l != 0 {
      LiveAfterInsert(nodes1, spans, order, idx, Right, z, l);
    }
    if p != 0 {
      LiveAfterInsert(nodes1, spans, order, idx, Right, z, p);
    }
    LiveAfterInsert(nodes1, spans, order, idx, Right, z, q);
  }

  /// The mirror of InsertLeftAtNew.
  lemma InsertRightAtNew(nodes: seq<Node>, spans: seq<Span>, order: seq<int>, q: int, idx: int, z: int,
                        nodes1: seq<Node>)
    requires Slot(nodes, spans, order, q, Right, idx, z) && InsertedRight(nodes, q, z, nodes1)
    requires nodes[0].parent != z
    ensures NodeOk(nodes1, SpansAfterInsert(spans, idx, Right, z), OrderAfterInsert(order, idx, z), z)
  {
    LiveAfterInsert(nodes1, spans, order, idx, Right, z, q);
  }

  /// The sentinel keeps the root and the minimum, and caches the new node
  /// as maximum when it went after everything.
  lemma InsertRightSentinel(nodes: seq<Node>, spans: seq<Span>, order: seq<int>, q: int, idx: int, z: int,
                           nodes1: seq<Node>)
    requires Slot(nodes, spans, order, q, Right, idx, z) && InsertedRight(nodes, q, z, nodes1)
    requires OrderOk(nodes, spans, order) && SentinelOk(nodes, spans, order)
    ensures SentinelOk(nodes1, SpansAfterInsert(spans, idx, Right, z), OrderAfterInsert(order, idx, z))
  {
    var root := nodes[0].parent;
    LiveAfterInsert(nodes1, spans, order, idx, Right, z, root);
    assert idx == |order| <==> nodes[0].right == q;
  }

  /// The mirror of InsertLeftEach.
  lemma InsertRightEach(nodes: seq<Node>, spans: seq<Span>, order: seq<int>, q: int, idx: int, z: int,
                       nodes1: seq<Node>)
    requires Slot(nodes, spans, order, q, Right, idx, z) && InsertedRight(nodes, q, z, nodes1)
    requires AllNodesOk(nodes, spans, order) && nodes[0].parent != z
    ensures AllNodesOk(nodes1, SpansAfterInsert(spans, idx, Right, z), OrderAfterInsert(order, idx, z))
  {
    var spans1, order1 := SpansAfterInsert(spans, idx, Right, z), OrderAfterInsert(order, idx, z);
    forall n | Live(nodes1, spans1, order1, n)
      ensures NodeOk(nodes1, spans1, order1, n)
    {
      if n == z {
        InsertRightAtNew(nodes, spans, order, q, idx, z, nodes1);
      } else {
        LiveBeforeInsert(nodes, spans, order, idx, Right, z, n);
        NodeOkOf(nodes, spans, order, n);
        if n == q {
          InsertRightAtParent(nodes, spans, order, q, idx, z, nodes1);
        } else {
          InsertRightOther(nodes, spans, order, q, idx, z, nodes1, n);
        }
      }
    }
  }

  /// The in-order listing gains the new node at `idx`, so the values gain
  /// its value there.
  lemma InsertOrderOk(nodes: seq<Node>, spans: seq<Span>, order: seq<int>, idx: int, side: Side, z: int,
                      nodes1: seq<Node>)
    requires OrderOk(nodes, spans, order) && Fresh(nodes, order, z) && 0 <= idx <= |order|
    requires |nodes1| == |nodes| == |spans|
    requires forall i :: 0 <= i < |nodes| ==> nodes1[i].value == nodes[i].value
    ensures OrderOk(nodes1, SpansAfterInsert(spans, idx, side, z), OrderAfterInsert(order, idx, z))
    ensures var c := Contents(nodes, order);
      Contents(nodes1, OrderAfterInsert(order, idx, z)) == c[..idx] + [nodes[z].value.value] + c[idx..]
  {
    var spans1, order1 := SpansAfterInsert(spans, idx, side, z), OrderAfterInsert(order, idx, z);
    forall i | 0 <= i < |order1|
      ensures 0 < order1[i] < |nodes1| && order1[i] < |spans1| && spans1[order1[i]].pos == i
      ensures nodes1[order1[i]].value.Some?
    {
      if i > idx {
        assert order1[i] == order[i - 1];
      }
    }
    InsertContents(nodes, order, idx, z, nodes1);
  }

  lemma InsertContents(nodes: seq<Node>, order: seq<int>, idx: int, z: int, nodes1: seq<Node>)
    requires Fresh(nodes, order, z) && 0 <= idx <= |order|
    requires forall i :: 0 <= i < |order| ==> 0 < order[i] < |nodes| && nodes[order[i]].value.Some?
    requires |nodes1| == |nodes|
    requires forall i :: 0 <= i < |nodes| ==> nodes1[i].value == nodes[i].value
    ensures forall i :: 0 <= i < |order| + 1 ==>
      0 <= OrderAfterInsert(order, idx, z)[i] < |nodes1| && nodes1[OrderAfterInsert(order, idx, z)[i]].value.Some?
    ensures var c := Contents(nodes, order);
      Contents(nodes1, OrderAfterInsert(order, idx, z)) == c[..idx] + [nodes[z].value.value] + c[idx..]
  {
    var order1 := OrderAfterInsert(order, idx, z);
    var c := Contents(nodes, order);
    var c1 := Contents(nodes1, order1);
    var t := c[..idx] + [nodes[z].value.value] + c[idx..];
    forall i | 0 <= i < |t|
      ensures c1[i] == t[i]
    {
      if i < idx {
        assert t[i] == c[i];
      } else if i > idx {
        assert t[i] == c[i - 1] && order1[i] == order[i - 1];
      }
    }
  }

  /// The first insertion: the new node becomes root, minimum and maximum.
  lemma InsertRootWf(nodes: seq<Node>, spans: seq<Span>, order: seq<int>, pack: InsPack, z: int)
    requires Wf(nodes, spans, order) && |order| == 0 && pack.parent == 0 && Fresh(nodes, order, z)
    ensures Wf(InsertLinks(nodes, pack, z), SpansAfterInsert(spans, 0, pack.pos, z), OrderAfterInsert(order, 0, z))
    ensures Contents(InsertLinks(nodes, pack, z), OrderAfterInsert(order, 0, z)) == [nodes[z].value.value]
  {
    var nodes1, spans1, order1 := InsertLinks(nodes, pack, z), SpansAfterInsert(spans, 0, pack.pos, z), OrderAfterInsert(order, 0, z);
    InsertOrderOk(nodes, spans, order, 0, pack.pos, z, nodes1);
    forall n | Live(nodes1, spans1, order1, n)
      ensures NodeOk(nodes1, spans1, order1, n)
    {
      assert n == z;
    }
  }

  /// insert_at's link writes put the new node at index `idx` of the
  /// in-order sequence and keep the arena well formed, provided the value
  /// fits there.
  lemma InsertWf(nodes: seq<Node>, spans: seq<Span>, order: seq<int>, pack: InsPack, idx: int, z: int)
    requires Wf(nodes, spans, order) && Fresh(nodes, order, z)
    requires |order| == 0 ==> pack.parent == 0 && idx == 0
    requires |order| != 0 ==> Slot(nodes, spans, order, pack.parent, pack.pos, idx, z)
    requires var c := Contents(nodes, order);
      0 <= idx <= |c| && RbSpec.Sorted(c[..idx] + [nodes[z].value.value] + c[idx..])
    ensures 0 <= pack.parent < |nodes|
    ensures Wf(InsertLinks(nodes, pack, z), SpansAfterInsert(spans, idx, pack.pos, z), OrderAfterInsert(order, idx, z))
    ensures var c := Contents(nodes, order);
      Contents(InsertLinks(nodes, pack, z), OrderAfterInsert(order, idx, z)) == c[..idx] + [nodes[z].value.value] + c[idx..]
  {
    if |order| == 0 {
      InsertRootWf(nodes, spans, order, pack, z);
      assert Contents(nodes, order) == [];
    } else {
      var q := pack.parent;
      var nodes1, spans1, order1 := InsertLinks(nodes, pack, z), SpansAfterInsert(spans, idx, pack.pos, z), OrderAfterInsert(order, idx, z);
      assert nodes[0].parent != z;
      if pack.pos == Left {
        InsertLeftEffect(nodes, pack, z);
        InsertLeftSentinel(nodes, spans, order, q, idx, z, nodes1);
        InsertLeftEach(nodes, spans, order, q, idx, z, nodes1);
      } else {
        InsertRightEffect(nodes, pack, z);
        InsertRightSentinel(nodes, spans, order, q, idx, z, nodes1);
        InsertRightEach(nodes, spans, order, q, idx, z, nodes1);
      }
      InsertOrderOk(nodes, spans, order, idx, pack.pos, z, nodes1);
    }
  }

  /// create_node: a node appended to the arena, outside the in-order
  /// sequence, leaves it well formed and is fresh for insert_at.
  lemma AppendNodeWf(nodes: seq<Node>, spans: seq<Span>, order: seq<int>, v: Entry)
    requires Wf(nodes, spans, order)
    ensures var nodes1, spans1 := nodes + [NewNode(v)], spans + [Span(0, 0, 0)];
      && Wf(nodes1, spans1, order) && Contents(nodes1, order) == Contents(nodes, order)
      && Fresh(nodes1, order, |nodes|)
  {
    var nodes1, spans1 := nodes + [NewNode(v)], spans + [Span(0, 0, 0)];
    assert forall i :: 0 <= i < |order| ==> order[i] < |nodes|;
    forall m | Live(nodes1, spans1, order, m)
      ensures NodeOk(nodes1, spans1, order, m)
    {
      assert m < |nodes|;
      NodeOkOf(nodes, spans, order, m);
    }
    assert Contents(nodes1, order) == Contents(nodes, order);
  }

  /// insert_at changes only links, so the root stays black unless the new
  /// node became the root.
  lemma InsertRootBlack(nodes: seq<Node>, pack: InsPack, z: int)
    requires 0 <= pack.parent < |nodes| && 0 < z < |nodes| && RootBlack(nodes) && nodes[0].parent != z
    ensures var nodes1 := InsertLinks(nodes, pack, z);
      RootBlack(nodes1) || nodes1[0].parent == z
  {
  }

  /// rbt_insert_or_assign on an equal key: the node keeps its place and its
  /// links and holds the new value.
  lemma AssignWf(nodes: seq<Node>, spans: seq<Span>, order: seq<int>, n: int, v: Entry)
    requires Wf(nodes, spans, order) && Live(nodes, spans, order, n)
    requires nodes[n].value.Some? && nodes[n].value.value.key == v.key
    ensures var nodes1 := nodes[n := nodes[n].(value := Some(v))];
      && Wf(nodes1, spans, order)
      && Contents(nodes1, order) == Contents(nodes, order)[spans[n].pos := v]
  {
    var nodes1 := nodes[n := nodes[n].(value := Some(v))];
    forall m | Live(nodes1, spans, order, m)
      ensures NodeOk(nodes1, spans, order, m)
    {
      NodeOkOf(nodes, spans, order, m);
    }
    var c, c1 := Contents(nodes, order), Contents(nodes1, order);
    assert c1 == c[spans[n].pos := v];
    assert forall i :: 0 <= i < |c1| ==> c1[i].key == c[i].key;
  }

  /// Everything insert_at needs of the arena as a value: hung in the slot a
  /// search for its value found, the fresh node enters the in-order
  /// sequence at the searched index, the arena stays well formed, and the
  /// root is still black unless the new node is the root.
  lemma InsertAtFacts(nodes: seq<Node>, spans: seq<Span>, order: seq<int>, pack: InsPack, idx: int, z: int)
    requires Wf(nodes, spans, order) && RootBlack(nodes) && Fresh(nodes, order, z)
    requires RbWalk.SlotAt(nodes, spans, order, pack, idx) && 0 <= idx <= |order|
    requires var c := Contents(nodes, order);
      RbSpec.Sorted(c[..idx] + [nodes[z].value.value] + c[idx..])
    ensures 0 <= pack.parent < |nodes|
    ensures var nodes1, spans1, order1 :=
        InsertLinks(nodes, pack, z), SpansAfterInsert(spans, idx, pack.pos, z), OrderAfterInsert(order, idx, z);
      && Wf(nodes1, spans1, order1) && Live(nodes1, spans1, order1, z)
      && (RootBlack(nodes1) || z == nodes1[0].parent)
      && var c := Contents(nodes, order);
         Contents(nodes1, order1) == c[..idx] + [nodes[z].value.value] + c[idx..]
  {
    var q := pack.parent;
    if |order| != 0 {
      assert order[spans[q].pos] == q;
      assert Slot(nodes, spans, order, q, pack.pos, idx, z);
      NodeBounds(nodes, spans, order, nodes[0].parent);
    }
    InsertWf(nodes, spans, order, pack, idx, z);
    InsertRootBlack(nodes, pack, z);
    var nodes1, spans1, order1 :=
      InsertLinks(nodes, pack, z), SpansAfterInsert(spans, idx, pack.pos, z), OrderAfterInsert(order, idx, z);
    assert order1[idx] == z;
    assert spans1[z].pos == idx;
  }

  /// A slot found before create_node is still a slot afterwards.
  lemma SlotAfterAppend(nodes: seq<Node>, spans: seq<Span>, order: seq<int>, pack: InsPack, idx: int, v: Entry)
    requires Wf(nodes, spans, order) && RbWalk.SlotAt(nodes, spans, order, pack, idx)
    ensures RbWalk.SlotAt(nodes + [NewNode(v)], spans + [Span(0, 0, 0)], order, pack, idx)
  {
  }
}
