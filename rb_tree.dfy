/// The tree object `rbt_tree`: an arena of nodes whose slot 0 is the
/// embedded sentinel (`tree->root`), the element count and the comparator.
/// Every mutator rewrites node links in place as the source does, except
/// that the removal path (extract_node and everything that calls it) uses
/// the corrected writes for lines 418-419 and 436 described in
/// RbFindings; each mutator is proved against the in-order value sequence
/// `Contents()`.
module RbTree {
  import opened RbTypes
  import opened RbShape
  import opened RbWalk
  import RbSpec
  import RbRotate
  import RbInsert
  import opened RbFixup
  import RbErase
  import opened RbRemove

  /// The sentinel as the first writes of extract_node leave it, corrected:
  /// the cached minimum and maximum that were `x` move to its successor and
  /// predecessor, as lines 414-417 write them, and a cached root that was
  /// `x` moves to the node that takes `x`'s place, where lines 418-419
  /// would take the new minimum or maximum.
  method AnnouncedSentinel(nodes: seq<Node>, ghost spans: seq<Span>, ghost order: seq<int>, x: int)
    returns (root: Node)
    requires Wf(nodes, spans, order) && Live(nodes, spans, order, x)
    ensures root == RbErase.SentinelAfterExtract(nodes, x, RbErase.Succ(spans, order, x), RbErase.Pred(spans, order, x), true)
  {
    ChildNeighbours(nodes, spans, order, x);
    var nd := nodes[x];
    root := nodes[0];
    if root.left == x {
      var suc;
      if IsNilWord(nodes[nd.right].color) {
        suc := nd.parent;
      } else {
        suc := Leftmost(nodes, spans, order, nd.right);
      }
      root := root.(left := suc);
    }
    if root.right == x {
      var suc;
      if IsNilWord(nodes[nd.left].color) {
        suc := nd.parent;
      } else {
        suc := Rightmost(nodes, spans, order, nd.left);
      }
      root := root.(right := suc);
    }
    if root.parent == x {
      var next;
      if IsNilWord(nodes[nd.left].color) {
        next := nd.right;
      } else if IsNilWord(nodes[nd.right].color) {
        next := nd.left;
      } else {
        next := Leftmost(nodes, spans, order, nd.right);
      }
      root := root.(parent := next);
    }
  }

  /// The link writes of rotate_left on the arena: the result is
  /// RotateLeftLinks, the pivot is `x`'s right child.
  method LinkRotateLeft(nodes: seq<Node>, ghost spans: seq<Span>, ghost order: seq<int>, x: int)
    returns (ns: seq<Node>, pivot: int)
    requires Wf(nodes, spans, order) && Live(nodes, spans, order, x) && nodes[x].right != 0
    requires 0 < nodes[x].right < |nodes| && 0 <= nodes[nodes[x].right].left < |nodes| && 0 <= nodes[x].parent < |nodes|
    ensures pivot == nodes[x].right && ns == RbRotate.RotateLeftLinks(nodes, x)
  {
    RbRotate.RotateLeftTests(nodes, spans, order, x);
    ns := nodes;
    pivot := ns[x].right;
    ns := ns[x := ns[x].(right := ns[pivot].left)];
    if !IsNilWord(ns[ns[pivot].left].color) {
      ns := ns[ns[pivot].left := ns[ns[pivot].left].(parent := x)];
    }
    ns := ns[pivot := ns[pivot].(parent := ns[x].parent)];
    if x == ns[ns[x].parent].parent {
      ns := ns[0 := ns[0].(parent := pivot)];
    } else if x == ns[ns[x].parent].left {
      ns := ns[ns[x].parent := ns[ns[x].parent].(left := pivot)];
    } else {
      ns := ns[ns[x].parent := ns[ns[x].parent].(right := pivot)];
    }
    ns := ns[pivot := ns[pivot].(left := x)];
    ns := ns[x := ns[x].(parent := pivot)];
  }

  /// The link writes of rotate_right on the arena: the result is
  /// RotateRightLinks, the pivot is `x`'s left child.
  method LinkRotateRight(nodes: seq<Node>, ghost spans: seq<Span>, ghost order: seq<int>, x: int)
    returns (ns: seq<Node>, pivot: int)
    requires Wf(nodes, spans, order) && Live(nodes, spans, order, x) && nodes[x].left != 0
    requires 0 < nodes[x].left < |nodes| && 0 <= nodes[nodes[x].left].right < |nodes| && 0 <= nodes[x].parent < |nodes|
    ensures pivot == nodes[x].left && ns == RbRotate.RotateRightLinks(nodes, x)
  {
    RbRotate.RotateRightTests(nodes, spans, order, x);
    ns := nodes;
    pivot := ns[x].left;
    ns := ns[x := ns[x].(left := ns[pivot].right)];
    if !IsNilWord(ns[ns[pivot].right].color) {
      ns := ns[ns[pivot].right := ns[ns[pivot].right].(parent := x)];
    }
    ns := ns[pivot := ns[pivot].(parent := ns[x].parent)];
    if x == ns[ns[x].parent].parent {
      ns := ns[0 := ns[0].(parent := pivot)];
    } else if x == ns[ns[x].parent].right {
      ns := ns[ns[x].parent := ns[ns[x].parent].(right := pivot)];
    } else {
      ns := ns[ns[x].parent := ns[ns[x].parent].(left := pivot)];
    }
    ns := ns[pivot := ns[pivot].(right := x)];
    ns := ns[x := ns[x].(parent := pivot)];
  }

  class Tree {
    var nodes: seq<Node>
    var size: int
    /// `comp` is NULL after `rbt_clear`; otherwise the comparator is `Compare`.
    var hasComparator: bool
    /// The live nodes in order, and each node's subtree interval over it.
    ghost var order: seq<int>
    ghost var spans: seq<Span>

    /// The arena is a well-formed search tree (also in the middle of a
    /// fix-up, when the root may be red).
    ghost predicate Shaped()
      reads this
    {
      Wf(nodes, spans, order)
    }

    /// The state between two public operations.
    ghost predicate Valid()
      reads this
    {
      Shaped() && size == |order| && RootBlack(nodes)
    }

    ghost function Contents(): seq<Entry>
      reads this
      requires Shaped()
    {
      RbShape.Contents(nodes, order)
    }

    ghost predicate IsLive(n: int)
      reads this
    {
      Live(nodes, spans, order, n)
    }

    /// A comparison is only made when there is a node to compare with, so
    /// a tree without comparator is usable while it is empty.
    ghost predicate CanCompare()
      reads this
    {
      hasComparator || |order| == 0
    }

    /// rbt_create: an empty tree whose sentinel is marked nil, coloured
    /// red (colour word 2) and linked to itself.
    constructor ()
      ensures Valid() && Contents() == [] && hasComparator
      ensures nodes == [Node(None, NIL_BIT, 0, 0, 0)]
    {
      nodes := [Node(None, 2, 0, 0, 0)];
      size := 0;
      hasComparator := true;
      order := [];
      spans := [Span(0, 0, 0)];
    }

    /// IS_RED of a node's colour word.
    function IsRed(n: int): (r: bool)
      reads this
      requires 0 <= n < |nodes|
      ensures r <==> ColorOf(nodes[n].color) == RED
    {
      !IsBlackWord(nodes[n].color)
    }

    /// IS_ACTUAL_ROOT: the node is its parent's parent.
    function IsActualRoot(n: int): (r: bool)
      reads this
      requires Shaped() && IsLive(n)
      ensures 0 <= nodes[n].parent < |nodes|
      ensures r <==> n == nodes[0].parent
    {
      ActualRootIff(nodes, spans, order, n);
      nodes[nodes[n].parent].parent == n
    }

    /// set_color: only bit 0 of the node's colour word changes.  Runs of
    /// set_color calls are shown harmless by RecolourWf.
    method SetColor(n: int, color: bv2)
      requires 0 <= n < |nodes|
      modifies this
      ensures nodes == Recoloured(old(nodes), n, color)
      ensures order == old(order) && spans == old(spans) && size == old(size) && hasComparator == old(hasComparator)
    {
      if color == RED {
        nodes := nodes[n := nodes[n].(color := nodes[n].color & !1)];
      } else {
        nodes := nodes[n := nodes[n].(color := nodes[n].color | BLACK)];
      }
    }

    /// rotate_left: the right child `pivot` takes `x`'s place and `x`
    /// becomes its left child; the in-order sequence is unchanged.
    method RotateLeft(x: int) returns (pivot: int)
      requires Shaped() && IsLive(x) && nodes[x].right != 0
      modifies this
      ensures pivot == old(nodes[x].right)
      ensures RbRotate.RotatedLeft(old(nodes), x, nodes) && nodes == RbRotate.RotateLeftLinks(old(nodes), x)
      ensures spans == RbRotate.SpansAfterLeft(old(spans), x, pivot)
      ensures forall i :: 0 <= i < |nodes| ==> nodes[i].color == old(nodes)[i].color
      ensures order == old(order) && size == old(size) && hasComparator == old(hasComparator)
      ensures Shaped() && Contents() == old(Contents())
    {
      RbRotate.RotateLeftApplies(nodes, spans, order, x);
      RbRotate.RotateLeftWf(nodes, spans, order, x, RbRotate.RotateLeftLinks(nodes, x));
      var ns;
      ns, pivot := LinkRotateLeft(nodes, spans, order, x);
      nodes := ns;
      spans := RbRotate.SpansAfterLeft(spans, x, pivot);
    }

    /// rotate_right: the mirror image of rotate_left.
    method RotateRight(x: int) returns (pivot: int)
      requires Shaped() && IsLive(x) && nodes[x].left != 0
      modifies this
      ensures pivot == old(nodes[x].left)
      ensures RbRotate.RotatedRight(old(nodes), x, nodes) && nodes == RbRotate.RotateRightLinks(old(nodes), x)
      ensures spans == RbRotate.SpansAfterRight(old(spans), x, pivot)
      ensures forall i :: 0 <= i < |nodes| ==> nodes[i].color == old(nodes)[i].color
      ensures order == old(order) && size == old(size) && hasComparator == old(hasComparator)
      ensures Shaped() && Contents() == old(Contents())
    {
      RbRotate.RotateRightApplies(nodes, spans, order, x);
      RbRotate.RotateRightWf(nodes, spans, order, x, RbRotate.RotateRightLinks(nodes, x));
      var ns;
      ns, pivot := LinkRotateRight(nodes, spans, order, x);
      nodes := ns;
      spans := RbRotate.SpansAfterRight(spans, x, pivot);
    }

    /// insert_fixup: walks up from the new node while its parent is red,
    /// recolouring below a red uncle and rotating below a black one (the
    /// sentinel counts by its colour word like any node), then paints the
    /// root black.  Links change only through rotations, so the contents stay.
    method InsertFixup(node0: int)
      requires Shaped() && IsLive(node0)
      requires RootBlack(nodes) || node0 == nodes[0].parent
      modifies this
      ensures Shaped() && RootBlack(nodes) && Contents() == old(Contents())
      ensures order == old(order) && size == old(size) && hasComparator == old(hasComparator)
    {
      var node := node0;
      ghost var done := false;
      NodeBounds(nodes, spans, order, node);
      while !IsActualRoot(node) && IsRed(nodes[node].parent)
        invariant Shaped() && IsLive(node) && spans[node].hi - spans[node].lo <= |order|
        invariant 0 <= nodes[node].parent < |nodes|
        invariant order == old(order) && size == old(size) && hasComparator == old(hasComparator)
        invariant Contents() == old(Contents())
        invariant RootBlack(nodes) || node == nodes[0].parent
        invariant done ==> node != nodes[0].parent && !IsRed(nodes[node].parent)
        decreases if done then 0 else 1, |order| - (spans[node].hi - spans[node].lo)
      {
        RedParentFacts(nodes, spans, order, node);
        if nodes[node].parent == nodes[nodes[nodes[node].parent].parent].left {
          var uncle := nodes[nodes[nodes[node].parent].parent].right;
          if IsRed(uncle) {
            node := FixupRecolour(node, uncle);
          } else {
            node := FixupRotateRight(node);
            done := true;
          }
        } else {
          var uncle := nodes[nodes[nodes[node].parent].parent].left;
          if IsRed(uncle) {
            node := FixupRecolour(node, uncle);
          } else {
            node := FixupRotateLeft(node);
            done := true;
          }
        }
        NodeBounds(nodes, spans, order, node);
      }
      ghost var nodes0 := nodes;
      SetColor(nodes[0].parent, BLACK);
      RecolourWf(nodes0, spans, order, nodes);
    }

    /// The red-uncle case of insert_fixup: the uncle and the parent turn
    /// black, the grandparent red, and the walk continues from the
    /// grandparent, whose subtree is strictly larger.
    method FixupRecolour(node: int, uncle: int) returns (next: int)
      requires Shaped() && RootBlack(nodes) && IsLive(node)
      requires var p := nodes[node].parent;
        0 < p < |nodes| && IsLive(p) && p != nodes[0].parent
      requires var g := nodes[nodes[node].parent].parent;
        0 < g < |nodes| && IsLive(g) && (uncle == nodes[g].left || uncle == nodes[g].right)
      requires 0 <= uncle < |nodes|
      modifies this
      ensures next == old(nodes[nodes[node].parent].parent) && IsLive(next)
      ensures spans == old(spans) && order == old(order) && size == old(size) && hasComparator == old(hasComparator)
      ensures spans[next].hi - spans[next].lo > spans[node].hi - spans[node].lo
      ensures Shaped() && Contents() == old(Contents())
      ensures RootBlack(nodes) || next == nodes[0].parent
    {
      RedUncleStep(nodes, spans, order, node, uncle);
      SetColor(uncle, BLACK);
      SetColor(nodes[node].parent, BLACK);
      SetColor(nodes[nodes[node].parent].parent, RED);
      next := nodes[nodes[node].parent].parent;
    }

    /// The black-uncle case of insert_fixup when the parent is a left
    /// child: an inner grandchild is first rotated outward (the walk moves
    /// to the old parent), then the parent turns black, the grandparent red,
    /// and the grandparent is rotated right.  The walk then stops, since the
    /// node's new parent is black.
    method FixupRotateRight(node: int) returns (next: int)
      requires Shaped() && RootBlack(nodes) && IsLive(node)
      requires var p := nodes[node].parent;
        0 < p < |nodes| && IsLive(p)
      requires var g := nodes[nodes[node].parent].parent;
        0 < g < |nodes| && IsLive(g) && nodes[g].left == nodes[node].parent
      modifies this
      ensures Shaped() && Contents() == old(Contents()) && RootBlack(nodes)
      ensures order == old(order) && size == old(size) && hasComparator == old(hasComparator)
      ensures IsLive(next) && next != nodes[0].parent
      ensures 0 <= nodes[next].parent < |nodes| && !IsRed(nodes[next].parent)
    {
      BelowParent(nodes, spans, order, node);
      next := node;
      if next == nodes[nodes[next].parent].right {
        next := FixupInnerRight(node);
      }
      FixupOuterRight(next);
    }

    /// The first writes of FixupRotateRight for an inner grandchild `node`:
    /// its parent is rotated left, and the walk moves to that parent, now
    /// the outer grandchild.
    method FixupInnerRight(node: int) returns (next: int)
      requires Shaped() && RootBlack(nodes) && IsLive(node)
      requires var p := nodes[node].parent;
        0 < p < |nodes| && IsLive(p) && nodes[p].right == node
      requires var g := nodes[nodes[node].parent].parent;
        0 < g < |nodes| && IsLive(g) && nodes[g].left == nodes[node].parent
      modifies this
      ensures Shaped() && Contents() == old(Contents()) && RootBlack(nodes)
      ensures order == old(order) && size == old(size) && hasComparator == old(hasComparator)
      ensures next == old(nodes[node].parent) && IsLive(next)
      ensures var p := nodes[next].parent;
        0 < p < |nodes| && IsLive(p) && nodes[p].left == next
      ensures var g := nodes[nodes[next].parent].parent;
        0 < g < |nodes| && IsLive(g) && nodes[g].left == nodes[next].parent
    {
      InnerLeftRotate(nodes, spans, order, node);
      next := nodes[node].parent;
      var _ := RotateLeft(next);
    }

    /// The last writes of FixupRotateRight: the parent of the outer grandchild
    /// `next` turns black, the grandparent red, and the grandparent is
    /// rotated right.
    method FixupOuterRight(next: int)
      requires Shaped() && RootBlack(nodes) && IsLive(next)
      requires var p := nodes[next].parent;
        0 < p < |nodes| && IsLive(p) && nodes[p].left == next
      requires var g := nodes[nodes[next].parent].parent;
        0 < g < |nodes| && IsLive(g) && nodes[g].left == nodes[next].parent
      modifies this
      ensures Shaped() && Contents() == old(Contents()) && RootBlack(nodes)
      ensures order == old(order) && size == old(size) && hasComparator == old(hasComparator)
      ensures IsLive(next) && next != nodes[0].parent
      ensures 0 <= nodes[next].parent < |nodes| && !IsRed(nodes[next].parent)
    {
      OuterRightStep(nodes, spans, order, next);
      SetColor(nodes[next].parent, BLACK);
      SetColor(nodes[nodes[next].parent].parent, RED);
      var _ := RotateRight(nodes[nodes[next].parent].parent);
    }

    /// The mirror of FixupRotateRight, for a parent that is a right child.
    method FixupRotateLeft(node: int) returns (next: int)
      requires Shaped() && RootBlack(nodes) && IsLive(node)
      requires var p := nodes[node].parent;
        0 < p < |nodes| && IsLive(p)
      requires var g := nodes[nodes[node].parent].parent;
        0 < g < |nodes| && IsLive(g) && nodes[g].right == nodes[node].parent
      modifies this
      ensures Shaped() && Contents() == old(Contents()) && RootBlack(nodes)
      ensures order == old(order) && size == old(size) && hasComparator == old(hasComparator)
      ensures IsLive(next) && next != nodes[0].parent
      ensures 0 <= nodes[next].parent < |nodes| && !IsRed(nodes[next].parent)
    {
      BelowParent(nodes, spans, order, node);
      next := node;
      if next == nodes[nodes[next].parent].left {
        next := FixupInnerLeft(node);
      }
      FixupOuterLeft(next);
    }

    /// The first writes of FixupRotateLeft for an inner grandchild `node`:
    /// its parent is rotated right, and the walk moves to that parent, now
    /// the outer grandchild.
    method FixupInnerLeft(node: int) returns (next: int)
      requires Shaped() && RootBlack(nodes) && IsLive(node)
      requires var p := nodes[node].parent;
        0 < p < |nodes| && IsLive(p) && nodes[p].left == node
      requires var g := nodes[nodes[node].parent].parent;
        0 < g < |nodes| && IsLive(g) && nodes[g].right == nodes[node].parent
      modifies this
      ensures Shaped() && Contents() == old(Contents()) && RootBlack(nodes)
      ensures order == old(order) && size == old(size) && hasComparator == old(hasComparator)
      ensures next == old(nodes[node].parent) && IsLive(next)
      ensures var p := nodes[next].parent;
        0 < p < |nodes| && IsLive(p) && nodes[p].right == next
      ensures var g := nodes[nodes[next].parent].parent;
        0 < g < |nodes| && IsLive(g) && nodes[g].right == nodes[next].parent
    {
      InnerRightRotate(nodes, spans, order, node);
      next := nodes[node].parent;
      var _ := RotateRight(next);
    }

    /// The last writes of FixupRotateLeft: the parent of the outer grandchild
    /// `next` turns black, the grandparent red, and the grandparent is
    /// rotated left.
    method FixupOuterLeft(next: int)
      requires Shaped() && RootBlack(nodes) && IsLive(next)
      requires var p := nodes[next].parent;
        0 < p < |nodes| && IsLive(p) && nodes[p].right == next
      requires var g := nodes[nodes[next].parent].parent;
        0 < g < |nodes| && IsLive(g) && nodes[g].right == nodes[next].parent
      modifies this
      ensures Shaped() && Contents() == old(Contents()) && RootBlack(nodes)
      ensures order == old(order) && size == old(size) && hasComparator == old(hasComparator)
      ensures IsLive(next) && next != nodes[0].parent
      ensures 0 <= nodes[next].parent < |nodes| && !IsRed(nodes[next].parent)
    {
      OuterLeftStep(nodes, spans, order, next);
      SetColor(nodes[next].parent, BLACK);
      SetColor(nodes[nodes[next].parent].parent, RED);
      var _ := RotateLeft(nodes[nodes[next].parent].parent);
    }

    /// create_node: a new red node holding `v` whose three links point at
    /// the sentinel.  `allocFails` stands for malloc returning NULL (None
    /// here), which leaves the tree as it was.
    method CreateNode(v: Entry, allocFails: bool) returns (z: Option<int>)
      requires Shaped()
      modifies this
      ensures allocFails <==> z.None?
      ensures z.None? ==> nodes == old(nodes) && spans == old(spans)
      ensures z.Some? ==> z.value == |old(nodes)| && nodes == old(nodes) + [RbInsert.NewNode(v)]
      ensures z.Some? ==> RbInsert.Fresh(nodes, order, z.value)
      ensures order == old(order) && size == old(size) && hasComparator == old(hasComparator)
      ensures Shaped() && Contents() == old(Contents())
    {
      if allocFails {
        return None;
      }
      RbInsert.AppendNodeWf(nodes, spans, order, v);
      z := Some(|nodes|);
      nodes := nodes + [Node(Some(v), RED, 0, 0, 0)];
      spans := spans + [Span(0, 0, 0)];
    }

    /// The linking half of insert_at: the fresh node `z` hangs in the empty
    /// child slot `pack` (or becomes the root of an empty tree), and the
    /// sentinel's minimum and maximum caches follow it when it extends
    /// either end.
    method LinkFresh(pack: InsPack, z: int, ghost idx: int)
      requires Valid() && RbInsert.Fresh(nodes, order, z)
      requires SlotAt(nodes, spans, order, pack, idx)
      requires 0 <= idx <= |order|
      requires RbSpec.Sorted(Contents()[..idx] + [nodes[z].value.value] + Contents()[idx..])
      modifies this
      ensures nodes == RbInsert.InsertLinks(old(nodes), pack, z)
      ensures spans == RbInsert.SpansAfterInsert(old(spans), idx, pack.pos, z)
      ensures order == RbInsert.OrderAfterInsert(old(order), idx, z)
      ensures size == old(size) && hasComparator == old(hasComparator)
    {
      RbInsert.InsertAtFacts(nodes, spans, order, pack, idx, z);
      ghost var nodes1 := RbInsert.InsertLinks(nodes, pack, z);
      var ns := nodes;
      ns := ns[z := ns[z].(parent := pack.parent)];
      if pack.parent == 0 {
        ns := ns[0 := ns[0].(parent := z, left := z, right := z)];
      } else if pack.pos == Left {
        ns := ns[pack.parent := ns[pack.parent].(left := z)];
        if pack.parent == ns[0].left {
          ns := ns[0 := ns[0].(left := z)];
        }
      } else {
        ns := ns[pack.parent := ns[pack.parent].(right := z)];
        if pack.parent == ns[0].right {
          ns := ns[0 := ns[0].(right := z)];
        }
      }
      assert ns == nodes1;
      spans := RbInsert.SpansAfterInsert(spans, idx, pack.pos, z);
      order := RbInsert.OrderAfterInsert(order, idx, z);
      nodes := ns;
    }

    /// insert_at: links the fresh node `z` into the empty child slot
    /// `pack`, rebalances and counts it.  The slot is the one a search for
    /// the value ended in, so the value enters the in-order sequence at
    /// `idx`.
    method InsertAt(pack: InsPack, z: int, ghost idx: int) returns (r: int)
      requires Valid() && RbInsert.Fresh(nodes, order, z)
      requires SlotAt(nodes, spans, order, pack, idx)
      requires 0 <= idx <= |order|
      requires RbSpec.Sorted(Contents()[..idx] + [nodes[z].value.value] + Contents()[idx..])
      modifies this
      ensures r == z && Valid() && IsLive(z) && hasComparator == old(hasComparator)
      ensures order == RbInsert.OrderAfterInsert(old(order), idx, z)
      ensures Contents() == old(Contents())[..idx] + [old(nodes)[z].value.value] + old(Contents())[idx..]
      ensures size == old(size) + 1
    {
      RbInsert.InsertAtFacts(nodes, spans, order, pack, idx, z);
      ghost var c, v := Contents(), nodes[z].value.value;
      ghost var nodes1, spans1, order1 :=
        RbInsert.InsertLinks(nodes, pack, z), RbInsert.SpansAfterInsert(spans, idx, pack.pos, z),
        RbInsert.OrderAfterInsert(order, idx, z);
      LinkFresh(pack, z, idx);
      assert nodes == nodes1 && spans == spans1 && order == order1;
      InsertFixup(z);
      assert IsLive(z);
      size := size + 1;
      r := z;
    }

    /// rbt_insert: hangs a new node in the slot upper_bound finds, after
    /// every value equal to `v`, so equal values keep their arrival order.
    /// When allocation fails nothing changes, the error is ENOMEM and the
    /// position is where the value would have gone.
    method Insert(v: Entry, allocFails: bool) returns (res: InsertResult)
      requires Valid() && CanCompare()
      modifies this
      ensures Valid() && hasComparator == old(hasComparator) && !res.pos.isReverse
      ensures allocFails ==>
        && res.err == ENOMEM && nodes == old(nodes) && order == old(order) && size == old(size)
        && res.pos.node == NodeAt(order, RbSpec.FirstAbove(Contents(), v))
      ensures !allocFails ==>
        && res.err == OK && size == old(size) + 1
        && Contents() == RbSpec.InsertMulti(old(Contents()), v)
        && res.pos.node == |old(nodes)| && res.pos.node == order[RbSpec.FirstAbove(old(Contents()), v)]
    {
      ghost var c := Contents();
      ghost var idx := RbSpec.FirstAbove(c, v);
      var found := UpperBound(nodes, spans, order, v);
      var err := ENOMEM;
      RbInsert.SlotAfterAppend(nodes, spans, order, found.pack, idx, v);
      var z := CreateNode(v, allocFails);
      if z.Some? {
        RbSpec.InsertMultiSorted(c, v);
        var curr := InsertAt(found.pack, z.value, idx);
          found := found.(curr := curr);
        err := OK;
      }
      res := InsertResult(err, MakeIter(found.curr));
    }

    /// rbt_insert_unique: searches with lower_bound; when the value found
    /// compares equal to `v` the tree is left alone and the result is
    /// DUPLICATE at that node, otherwise `v` is inserted in front of the
    /// larger values (or allocation fails with ENOMEM).
    method InsertUnique(v: Entry, allocFails: bool) returns (res: InsertResult)
      requires Valid() && CanCompare()
      modifies this
      ensures Valid() && hasComparator == old(hasComparator) && !res.pos.isReverse
      ensures RbSpec.EqualTo(old(Contents()), v) != [] ==>
        && res.err == DUPLICATE && nodes == old(nodes) && order == old(order) && size == old(size)
        && var i := RbSpec.FirstAtLeast(Contents(), v);
        && i < |order| && res.pos.node == order[i] && Contents()[i].key == v.key
      ensures RbSpec.EqualTo(old(Contents()), v) == [] && allocFails ==>
        && res.err == ENOMEM && nodes == old(nodes) && order == old(order) && size == old(size)
        && res.pos.node == NodeAt(order, RbSpec.FirstAtLeast(Contents(), v))
      ensures RbSpec.EqualTo(old(Contents()), v) == [] && !allocFails ==>
        && res.err == OK && size == old(size) + 1
        && Contents() == RbSpec.InsertBefore(old(Contents()), v)
        && res.pos.node == |old(nodes)| && res.pos.node == order[RbSpec.FirstAtLeast(old(Contents()), v)]
    {
      ghost var c := Contents();
      ghost var idx := RbSpec.FirstAtLeast(c, v);
      var found := LowerBound(nodes, spans, order, v);
      NodeAtFacts(nodes, spans, order, idx);
      RbSpec.LowerBoundHit(c, v);
      var err := DUPLICATE;
      if IsNilWord(nodes[found.curr].color) || Compare(nodes[found.curr].value.value, v) != 0 {
        RbInsert.SlotAfterAppend(nodes, spans, order, found.pack, idx, v);
        var z := CreateNode(v, allocFails);
        if z.None? {
          err := ENOMEM;
        } else {
          RbSpec.InsertBeforeSorted(c, v);
          var curr := InsertAt(found.pack, z.value, idx);
          found := found.(curr := curr);
          err := OK;
        }
      }
      res := InsertResult(err, MakeIter(found.curr));
    }

    /// rbt_insert_or_assign: like insert_unique, except that an equal value
    /// is replaced in its node, which keeps its place and links; the
    /// replaced value is returned, and None when a node was inserted.
    method InsertOrAssign(v: Entry, allocFails: bool) returns (res: InsertOrAssignResult)
      requires Valid() && CanCompare()
      modifies this
      ensures Valid() && hasComparator == old(hasComparator) && !res.pos.isReverse
      ensures RbSpec.EqualTo(old(Contents()), v) != [] ==>
        && var i := RbSpec.FirstAtLeast(old(Contents()), v);
        && res.err == DUPLICATE && order == old(order) && size == old(size)
        && i < |order| && res.pos.node == order[i] && old(Contents())[i].key == v.key
        && nodes == old(nodes)[res.pos.node := old(nodes)[res.pos.node].(value := Some(v))]
        && res.previous == Some(old(Contents())[i])
        && Contents() == old(Contents())[i := v]
      ensures RbSpec.EqualTo(old(Contents()), v) == [] ==> res.previous == None
      ensures RbSpec.EqualTo(old(Contents()), v) == [] && allocFails ==>
        && res.err == ENOMEM && nodes == old(nodes) && order == old(order) && size == old(size)
        && res.pos.node == NodeAt(order, RbSpec.FirstAtLeast(Contents(), v))
      ensures RbSpec.EqualTo(old(Contents()), v) == [] && !allocFails ==>
        && res.err == OK && size == old(size) + 1
        && Contents() == RbSpec.InsertBefore(old(Contents()), v)
        && res.pos.node == |old(nodes)| && res.pos.node == order[RbSpec.FirstAtLeast(old(Contents()), v)]
    {
      ghost var c := Contents();
      ghost var idx := RbSpec.FirstAtLeast(c, v);
      var found := LowerBound(nodes, spans, order, v);
      NodeAtFacts(nodes, spans, order, idx);
      RbSpec.LowerBoundHit(c, v);
      var err := DUPLICATE;
      var previous: Option<Entry> := None;
      if IsNilWord(nodes[found.curr].color) || Compare(nodes[found.curr].value.value, v) != 0 {
        RbInsert.SlotAfterAppend(nodes, spans, order, found.pack, idx, v);
        var z := CreateNode(v, allocFails);
        if z.None? {
          err := ENOMEM;
        } else {
          RbSpec.InsertBeforeSorted(c, v);
          var curr := InsertAt(found.pack, z.value, idx);
          found := found.(curr := curr);
          err := OK;
        }
      } else {
        previous := nodes[found.curr].value;
        RbInsert.AssignWf(nodes, spans, order, found.curr, v);
        nodes := nodes[found.curr := nodes[found.curr].(value := Some(v))];
      }
      res := InsertOrAssignResult(err, MakeIter(found.curr), previous);
    }

    /// take_node: `c` takes `n`'s place in the child slot of `n`'s parent
    /// that holds `n` (none when `n` is the root), and a real `c` takes
    /// `n`'s parent as its own.
    method TakeNode(n: int, c: int)
      requires 0 <= n < |nodes| && 0 <= c < |nodes| && 0 <= nodes[n].parent < |nodes|
      modifies this
      ensures nodes == RbErase.TakeNodeLinks(old(nodes), n, c)
      ensures order == old(order) && spans == old(spans) && size == old(size) && hasComparator == old(hasComparator)
    {
      var par := nodes[n].parent;
      if n == nodes[par].left {
        nodes := nodes[par := nodes[par].(left := c)];
      } else if n == nodes[par].right {
        nodes := nodes[par := nodes[par].(right := c)];
      }
      if !IsNilWord(nodes[c].color) {
        nodes := nodes[c := nodes[c].(parent := nodes[n].parent)];
      }
    }

    /// The writes of extract_node for a node `x` with two children and its
    /// successor `s`: `s` leaves its place to its right subtree `f` unless
    /// it is `x`'s right child, then takes `x`'s place, left subtree and
    /// colour.  `f` is given `s` as parent only when it is a real node.
    method ReplaceNode(x: int, s: int)
      requires |nodes| > 0 && RbErase.ReplaceFacts(nodes, x, s, nodes[0])
      modifies this
      ensures nodes == RbErase.ReplaceLinks(old(nodes), x, s, true)
      ensures order == old(order) && spans == old(spans) && size == old(size) && hasComparator == old(hasComparator)
    {
      RbErase.ArriveReady(nodes, x, s);
      SuccessorLeaves(x, s);
      SuccessorArrives(x, s);
    }

    /// The successor `s` of `x` leaves its place: unless it is `x`'s right
    /// child, its right subtree `f` takes its place and it takes `x`'s
    /// right subtree.  Corrected: when `s` is `x`'s right child, `f` is
    /// given `s` as parent only when it is a real node (line 436 also
    /// writes the sentinel's root link).
    method SuccessorLeaves(x: int, s: int)
      requires |nodes| > 0 && RbErase.ReplaceFacts(nodes, x, s, nodes[0])
      modifies this
      ensures nodes == RbErase.SuccessorOut(old(nodes), x, s, true)
      ensures order == old(order) && spans == old(spans) && size == old(size) && hasComparator == old(hasComparator)
    {
      var f := nodes[s].right;
      if nodes[s].parent == x {
        if !IsNilWord(nodes[f].color) {
          nodes := nodes[f := nodes[f].(parent := s)];
        }
      } else {
        TakeNode(s, f);
        nodes := nodes[s := nodes[s].(right := nodes[x].right)];
        nodes := nodes[nodes[s].right := nodes[nodes[s].right].(parent := s)];
      }
    }

    /// The successor `s` takes `x`'s place below `x`'s parent, `x`'s left
    /// subtree and `x`'s colour.
    method SuccessorArrives(x: int, s: int)
      requires 0 < x < |nodes| && 0 < s < |nodes|
      requires var xl, par := nodes[x].left, nodes[x].parent;
        && 0 < xl < |nodes| && 0 <= par < |nodes|
        && x != s && x != xl && x != par && s != xl && s != par && xl != par
      modifies this
      ensures nodes == RbErase.SuccessorIn(old(nodes), x, s)
      ensures order == old(order) && spans == old(spans) && size == old(size) && hasComparator == old(hasComparator)
    {
      TakeNode(x, s);
      nodes := nodes[s := nodes[s].(left := nodes[x].left)];
      nodes := nodes[nodes[s].left := nodes[nodes[s].left].(parent := s)];
      SetColor(s, ColorOf(nodes[x].color));
    }

    /// The first writes of extract_node, corrected: when `x` is the cached
    /// minimum, maximum or root, that cache moves to `x`'s successor,
    /// predecessor or replacement (the only child, else the successor);
    /// lines 418-419 would give the root link the new minimum or maximum.
    method AnnounceExtract(x: int)
      requires Shaped() && IsLive(x)
      modifies this
      ensures nodes == old(nodes)[0 := RbErase.SentinelAfterExtract(old(nodes), x,
        RbErase.Succ(old(spans), old(order), x), RbErase.Pred(old(spans), old(order), x), true)]
      ensures order == old(order) && spans == old(spans) && size == old(size) && hasComparator == old(hasComparator)
    {
      var root := AnnouncedSentinel(nodes, spans, order, x);
      nodes := nodes[0 := root];
    }

    /// extract_node, with lines 418-419 and 436 corrected: announces the
    /// removal of `x` to the caches, then splices `x` out through its only
    /// child or replaces it by its successor.  It returns the node
    /// erase_fixup starts from.
    method ExtractNode(x: int) returns (r: int)
      requires Shaped() && IsLive(x)
      modifies this
      ensures nodes == ExtractNodes(old(nodes), old(spans), old(order), x)
      ensures spans == ExtractSpans(old(nodes), old(spans), old(order), x)
      ensures order == RbErase.OrderAfterExtract(old(order), old(spans)[x].pos)
      ensures r == ExtractReturn(old(nodes), x, RbErase.Succ(old(spans), old(order), x), nodes)
      ensures size == old(size) && hasComparator == old(hasComparator)
      ensures Shaped() && Contents() == RbSpec.RemoveAt(old(Contents()), old(spans)[x].pos)
    {
      ghost var p := spans[x].pos;
      ExtractWf(nodes, spans, order, x);
      ExtractSteps(nodes, spans, order, x);
      ChildNeighbours(nodes, spans, order, x);
      var nodes0 := nodes;
      var nd := nodes[x];
      AnnounceExtract(x);
      var color := ColorOf(nd.color);
      var fix;
      if IsNilWord(nodes[nd.left].color) {
        fix := nd.right;
        TakeNode(x, nd.right);
      } else if IsNilWord(nodes[nd.right].color) {
        fix := nd.left;
        TakeNode(x, nd.left);
      } else {
        var s := Leftmost(nodes0, spans, order, nd.right);
        color := ColorOf(nodes[s].color);
        fix := nodes[s].right;
        ReplaceNode(x, s);
      }
      spans := ExtractSpans(nodes0, spans, order, x);
      order := RbErase.OrderAfterExtract(order, p);
      r := if color == BLACK then fix else nodes[0].parent;
    }

    /// erase_fixup(n) when its loop condition is false from the start (`n`
    /// is the actual root or red): only the closing set_color paints the
    /// root black.
    method EraseFixup(n: int)
      requires Shaped() && FixupDone(nodes, n)
      modifies this
      ensures nodes == RbFixup.Recoloured(old(nodes), old(nodes)[0].parent, BLACK)
      ensures order == old(order) && spans == old(spans) && size == old(size) && hasComparator == old(hasComparator)
      ensures Shaped() && RootBlack(nodes) && Contents() == old(Contents())
    {
      RecolourWf(nodes, spans, order, Recoloured(nodes, nodes[0].parent, BLACK));
      SetColor(nodes[0].parent, BLACK);
    }

    /// The steps rbt_extract and rbt_erase_at share on a real node:
    /// extract_node, erase_fixup from the node it returns, and the size
    /// drops by one (freeing the node is not modelled).
    method Unlink(x: int)
      requires Valid() && IsLive(x) && FixupIdle(nodes, spans, order, x)
      modifies this
      ensures Valid() && hasComparator == old(hasComparator)
      ensures var p := old(spans[x].pos);
        && 0 <= p < |old(order)|
        && nodes == ErasedNodes(old(nodes), old(spans), old(order), x)
        && spans == ExtractSpans(old(nodes), old(spans), old(order), x)
        && order == RbErase.OrderAfterExtract(old(order), p)
        && size == old(size) - 1 && Contents() == RbSpec.RemoveAt(old(Contents()), p)
    {
      var fix := ExtractNode(x);
      EraseFixup(fix);
      size := size - 1;
    }

    /// rbt_extract: at `end` nothing changes and the result is NULL (the
    /// sentinel's value); otherwise the node leaves the tree and its value
    /// is returned.
    method Extract(it: Iterator) returns (v: Option<Entry>)
      requires Valid() && Points(it)
      requires it.node != 0 ==> FixupIdle(nodes, spans, order, it.node)
      modifies this
      ensures Valid() && hasComparator == old(hasComparator)
      ensures it.node == 0 ==>
        v == None && nodes == old(nodes) && spans == old(spans) && order == old(order) && size == old(size)
      ensures it.node != 0 ==>
        && var p := old(spans[it.node].pos);
        && 0 <= p < |old(Contents())| && v == Some(old(Contents())[p])
        && nodes == ErasedNodes(old(nodes), old(spans), old(order), it.node)
        && spans == ExtractSpans(old(nodes), old(spans), old(order), it.node)
        && order == RbErase.OrderAfterExtract(old(order), p)
        && size == old(size) - 1 && Contents() == RbSpec.RemoveAt(old(Contents()), p)
    {
      var curr := it.node;
      NilIff(nodes, spans, order, curr);
      v := nodes[curr].value;
      if !IsNilWord(nodes[curr].color) {
        Unlink(curr);
      }
    }

    /// rbt_erase_at: at `end` nothing changes and `end` is returned;
    /// otherwise the node's value goes to the destructor (`disposed` lists
    /// the values passed to it), the node leaves the tree, and an iterator
    /// to its former successor, which now stands at the same index, is
    /// returned.
    method EraseAt(it: Iterator) returns (r: Iterator, disposed: seq<Entry>)
      requires Valid() && Points(it)
      requires it.node != 0 ==> FixupIdle(nodes, spans, order, it.node)
      modifies this
      ensures Valid() && Points(r) && !r.isReverse && hasComparator == old(hasComparator)
      ensures it.node == 0 ==>
        && r == End() && disposed == []
        && nodes == old(nodes) && spans == old(spans) && order == old(order) && size == old(size)
      ensures it.node != 0 ==>
        && var p := old(spans[it.node].pos);
        && 0 <= p < |old(Contents())| && disposed == [old(Contents())[p]]
        && nodes == ErasedNodes(old(nodes), old(spans), old(order), it.node)
        && spans == ExtractSpans(old(nodes), old(spans), old(order), it.node)
        && order == RbErase.OrderAfterExtract(old(order), p)
        && size == old(size) - 1 && Contents() == RbSpec.RemoveAt(old(Contents()), p)
        && r.node == RbErase.Succ(old(spans), old(order), it.node) && Index(r) == p
    {
      var curr := it.node;
      NilIff(nodes, spans, order, curr);
      if IsNilWord(nodes[curr].color) {
        return End(), [];
      }
      ghost var p := spans[curr].pos;
      var suc := InorderSuccessor(nodes, spans, order, curr);
      NodeAtFacts(nodes, spans, order, p);
      disposed := [nodes[curr].value.value];
      Unlink(curr);
      r := MakeIter(suc);
      PosOfNodeAt(nodes, spans, order, p);
    }

    /// The state of the loops of rbt_erase and rbt_erase_range, which erase
    /// from index `lo` up to the node at index `end`: the tree holds `c`
    /// without `c[lo..mid]`, and the removals still to come leave the
    /// fix-up loop idle until `stop` nodes remain.
    ghost predicate InRun(c: seq<Entry>, lo: int, mid: int, end: int, stop: int)
      reads this
    {
      && Valid() && 0 <= lo <= mid <= |c| && |order| == |c| - (mid - lo)
      && lo <= end <= |order| && stop == |order| - (end - lo)
      && Contents() == c[..lo] + c[mid..] && IdleRun(nodes, spans, order, lo, stop)
    }

    /// A run from index `lo` to `hi` over a tree holding `c` starts with
    /// nothing erased yet.
    lemma RunStart(c: seq<Entry>, lo: int, hi: int, stop: int)
      requires Valid() && Contents() == c && 0 <= lo <= hi <= |c|
      requires stop == |order| - (hi - lo) && IdleRun(nodes, spans, order, lo, stop)
      ensures InRun(c, lo, lo, hi, stop)
    {
      RbSpec.SplitAt(c, lo);
    }

    /// One round of those loops: it passes rbt_erase_at the node at index
    /// `lo`, disposing of `c[mid]`.  Afterwards the tree holds `c` without
    /// `c[lo..mid1]`, the returned successor stands at index `lo`, and the
    /// node ending the run has moved down to index `end1`.
    method EraseInRun(it: Iterator, ghost c: seq<Entry>, ghost lo: int, ghost mid: int, ghost mid1: int,
                      ghost end: int, ghost end1: int, ghost stop: int)
      returns (r: Iterator, disposed: seq<Entry>)
      requires InRun(c, lo, mid, end, stop) && lo < end && mid1 == mid + 1 && end1 == end - 1
      requires !it.isReverse && it.node == NodeAt(order, lo)
      modifies this
      ensures InRun(c, lo, mid1, end1, stop)
      ensures hasComparator == old(hasComparator) && size == old(size) - 1
      ensures mid < |c| && disposed == [c[mid]] && c[lo..mid] + disposed == c[lo..mid1]
      ensures !r.isReverse && r.node == NodeAt(order, lo) == old(NodeAt(order, lo + 1))
      ensures NodeAt(order, end1) == old(NodeAt(order, end))
    {
      RunRound(nodes, spans, order, c, lo, mid, mid1, end, end1, stop);
      ghost var x := order[lo];
      ghost var nodes1, spans1, order1 :=
        ErasedNodes(nodes, spans, order, x), ExtractSpans(nodes, spans, order, x), RbErase.OrderAfterExtract(order, lo);
      ghost var succ := NodeAt(order, lo + 1);
      ghost var last := NodeAt(order, end);
      r, disposed := EraseAt(it);
      assert nodes == nodes1 && spans == spans1 && order == order1;
    }

    /// How many values a tree keeps once those equal to `k` are erased.
    ghost function Kept(k: Entry): int
      reads this
      requires Shaped()
    {
      |order| - |RbSpec.EqualTo(Contents(), k)|
    }

    /// rbt_erase: removes every value equal to `k`, from the first to the
    /// last, handing each to the destructor, and returns how many there
    /// were; a second call with the same key finds none.
    method Erase(k: Entry) returns (n: int, disposed: seq<Entry>)
      requires Valid() && CanCompare()
      requires IdleRun(nodes, spans, order, RbSpec.FirstAtLeast(Contents(), k), Kept(k))
      modifies this
      ensures Valid() && hasComparator == old(hasComparator)
      ensures n == |RbSpec.EqualTo(old(Contents()), k)| && disposed == RbSpec.EqualTo(old(Contents()), k)
      ensures size == old(size) - n && Contents() == RbSpec.RemoveEqual(old(Contents()), k)
      ensures RbSpec.EqualTo(Contents(), k) == []
    {
      ghost var c := Contents();
      ghost var lo, hi := RbSpec.FirstAtLeast(c, k), RbSpec.FirstAbove(c, k);
      ghost var stop := Kept(k);
      ghost var nodes0, spans0, order0 := nodes, spans, order;
      assert IdleRun(nodes0, spans0, order0, lo, stop);
      RbSpec.EqualRangeIsEqualTo(c, k);
      var pair := EqualRange(nodes, spans, order, k);
      assert nodes == nodes0 && spans == spans0 && order == order0;
      assert Contents() == c;
      RunStart(c, lo, hi, stop);
      n, disposed := EraseEqualRun(pair.first, pair.second, c, lo, hi, stop);
      RbSpec.RemoveEqualSpec(c, k);
    }

    /// The loop of rbt_erase over the nodes from index `lo` up to the one
    /// at index `hi`: each node's successor is taken before rbt_erase_at
    /// frees it, and the loop counts the values it erases.
    method EraseEqualRun(first0: int, second: int, ghost c: seq<Entry>, ghost lo: int, ghost hi: int, ghost stop: int)
      returns (n: int, disposed: seq<Entry>)
      requires InRun(c, lo, lo, hi, stop) && first0 == NodeAt(order, lo) && second == NodeAt(order, hi)
      modifies this
      ensures Valid() && hasComparator == old(hasComparator)
      ensures n == hi - lo && size == old(size) - n
      ensures Contents() == c[..lo] + c[hi..] && disposed == c[lo..hi]
    {
      var first := first0;
      n := 0;
      disposed := [];
      ghost var mid, end := lo, hi;
      while first != second
        invariant InRun(c, lo, mid, end, stop) && hasComparator == old(hasComparator)
        invariant mid == lo + n && end == hi - n && size == old(size) - n
        invariant first == NodeAt(order, lo) && second == NodeAt(order, end) && disposed == c[lo..mid]
        decreases end - lo
      {
        assert lo < end;
        PosOfNodeAt(nodes, spans, order, lo);
        var suc := InorderSuccessor(nodes, spans, order, first);
        ghost var mid1, end1 := mid + 1, end - 1;
        var _, d := EraseInRun(MakeIter(first), c, lo, mid, mid1, end, end1, stop);
        disposed := disposed + d;
        first := suc;
        n, mid, end := n + 1, mid1, end1;
      }
      PosOfNodeAt(nodes, spans, order, lo);
      PosOfNodeAt(nodes, spans, order, end);
      assert mid == hi;
    }

    /// rbt_erase_range: the whole range from `begin` to `end` clears the
    /// tree (the comparator goes too) and `begin` is returned; any other
    /// range [first, last) is erased front to back, each step continuing
    /// from the successor rbt_erase_at returns, and `last` is returned.
    method EraseRange(first: Iterator, last: Iterator) returns (r: Iterator, disposed: seq<Entry>)
      requires Valid() && Points(first) && Points(last) && !first.isReverse && !last.isReverse
      requires Index(first) <= Index(last)
      requires !(first.node == nodes[0].left && last.node == 0) ==>
        IdleRun(nodes, spans, order, Index(first), Remaining(first, last))
      modifies this
      ensures Valid() && Points(r) && !r.isReverse
      ensures first.node == old(nodes[0].left) && last.node == 0 ==>
        && Contents() == [] && size == 0 && !hasComparator && r == Begin()
        && multiset(disposed) == multiset(old(Contents()))
      ensures !(first.node == old(nodes[0].left) && last.node == 0) ==>
        && hasComparator == old(hasComparator) && r.node == last.node
        && Contents() == old(Contents())[..old(Index(first))] + old(Contents())[old(Index(last))..]
        && disposed == old(Contents())[old(Index(first))..old(Index(last))]
        && size == old(size) - (old(Index(last)) - old(Index(first)))
        && Index(r) == old(Index(first))
    {
      if IterEq(first, Begin()) && IterEq(last, End()) {
        disposed := Clear();
        r := Begin();
      } else {
        r, disposed := EraseRangeWithin(first, last);
      }
    }

    /// How many values a tree keeps once the range [first, last) is erased.
    ghost function Remaining(first: Iterator, last: Iterator): int
      reads this
      requires Points(first) && Points(last)
    {
      |order| - (Index(last) - Index(first))
    }

    /// rbt_erase_range on any range other than the whole tree.
    method EraseRangeWithin(first: Iterator, last: Iterator) returns (r: Iterator, disposed: seq<Entry>)
      requires Valid() && Points(first) && Points(last) && !first.isReverse && !last.isReverse
      requires Index(first) <= Index(last) && !(first.node == nodes[0].left && last.node == 0)
      requires IdleRun(nodes, spans, order, Index(first), Remaining(first, last))
      modifies this
      ensures Valid() && Points(r) && !r.isReverse
      ensures hasComparator == old(hasComparator) && r.node == last.node
      ensures Contents() == old(Contents())[..old(Index(first))] + old(Contents())[old(Index(last))..]
      ensures disposed == old(Contents())[old(Index(first))..old(Index(last))]
      ensures size == old(size) - (old(Index(last)) - old(Index(first)))
      ensures Index(r) == old(Index(first))
    {
      ghost var c, lo, hi := Contents(), Index(first), Index(last);
      ghost var stop := Remaining(first, last);
      PosOfFacts(nodes, spans, order, first.node);
      PosOfFacts(nodes, spans, order, last.node);
      RunStart(c, lo, hi, stop);
      r, disposed := EraseRangeRun(first, last, c, lo, hi, stop);
    }

    /// The loop of rbt_erase_range over the nodes from index `lo` up to
    /// `last` at index `hi`, each step continuing from the successor
    /// rbt_erase_at returns; it returns an iterator at `last`.
    method EraseRangeRun(first: Iterator, last: Iterator, ghost c: seq<Entry>, ghost lo: int, ghost hi: int,
                         ghost stop: int)
      returns (r: Iterator, disposed: seq<Entry>)
      requires InRun(c, lo, lo, hi, stop) && !first.isReverse && !last.isReverse
      requires first.node == NodeAt(order, lo) && last.node == NodeAt(order, hi)
      modifies this
      ensures Valid() && hasComparator == old(hasComparator) && size == old(size) - (hi - lo)
      ensures Contents() == c[..lo] + c[hi..] && disposed == c[lo..hi]
      ensures !r.isReverse && r.node == last.node == NodeAt(order, lo) && Points(r) && Index(r) == lo
    {
      var it := first;
      ghost var n := 0;
      ghost var mid, end := lo, hi;
      disposed := [];
      while !IterEq(it, last)
        invariant InRun(c, lo, mid, end, stop) && hasComparator == old(hasComparator)
        invariant mid == lo + n && end == hi - n && size == old(size) - n
        invariant !it.isReverse && it.node == NodeAt(order, lo) && last.node == NodeAt(order, end)
        invariant disposed == c[lo..mid]
        decreases end - lo
      {
        assert lo < end;
        ghost var mid1, end1 := mid + 1, end - 1;
        var d;
        it, d := EraseInRun(it, c, lo, mid, mid1, end, end1, stop);
        disposed := disposed + d;
        n, mid, end := n + 1, mid1, end1;
      }
      r := MakeIter(it.node);
      PosOfNodeAt(nodes, spans, order, lo);
      PosOfNodeAt(nodes, spans, order, end);
      assert mid == hi;
    }

    /// rbt_clear: destroy hands every value to the destructor, the size
    /// drops to 0, the comparator is dropped and the sentinel's three links
    /// point back at itself.
    method Clear() returns (disposed: seq<Entry>)
      requires Shaped()
      modifies this
      ensures Valid() && Contents() == [] && size == 0 && !hasComparator
      ensures nodes == old(nodes)[0 := old(nodes)[0].(left := 0, right := 0, parent := 0)]
      ensures multiset(disposed) == multiset(old(Contents()))
    {
      RootValues(nodes, spans, order);
      disposed := Destroy(nodes, spans, order, nodes[0].parent);
      size := 0;
      hasComparator := false;
      nodes := nodes[0 := nodes[0].(left := 0, right := 0, parent := 0)];
      order := [];
    }

    /// rbt_size.
    function Size(): (r: int)
      reads this
      requires Valid()
      ensures r == |Contents()|
    {
      size
    }

    /// rbt_is_empty.
    function IsEmpty(): (r: bool)
      reads this
      requires Valid()
      ensures r <==> Contents() == []
    {
      size == 0
    }

    /// An iterator names the sentinel or a live node.
    ghost predicate Points(it: Iterator)
      reads this
    {
      Shaped() && (it.node == 0 || IsLive(it.node))
    }

    /// The position an iterator stands for.  Forwards it is the node's
    /// in-order index, the size for `end`; backwards it counts the values
    /// already passed from the back, so `rbegin` (the sentinel) is 0 and
    /// `rend` (the minimum) is the size.
    ghost function Index(it: Iterator): int
      reads this
      requires Points(it)
    {
      var p := PosOf(spans, order, it.node);
      if it.isReverse then |order| - p else p
    }

    /// The values in the order an iterator of the given direction visits them.
    ghost function Visited(isReverse: bool): seq<Entry>
      reads this
      requires Shaped()
    {
      if isReverse then RbSpec.Reversed(Contents()) else Contents()
    }

    /// rbt_begin: the cached minimum, or `end` when the tree is empty.
    function Begin(): (r: Iterator)
      reads this
      requires Shaped()
      ensures Points(r) && !r.isReverse && Index(r) == 0
    {
      PosOfFacts(nodes, spans, order, if |order| == 0 then 0 else order[0]);
      MakeIter(nodes[0].left)
    }

    /// rbt_end: the sentinel.
    function End(): (r: Iterator)
      reads this
      requires Shaped()
      ensures Points(r) && !r.isReverse && Index(r) == |order|
    {
      MakeIter(0)
    }

    /// rbt_rbegin: a reverse iterator on the sentinel.
    function RBegin(): (r: Iterator)
      reads this
      requires Shaped()
      ensures Points(r) && r.isReverse && Index(r) == 0
    {
      MakeRIter(0)
    }

    /// rbt_rend: a reverse iterator on the minimum.
    function REnd(): (r: Iterator)
      reads this
      requires Shaped()
      ensures Points(r) && r.isReverse && Index(r) == |order|
    {
      PosOfFacts(nodes, spans, order, if |order| == 0 then 0 else order[0]);
      MakeRIter(nodes[0].left)
    }

    /// An iterator stands at its last position exactly when it equals
    /// `end` (forwards) or `rend` (backwards).
    lemma AtLast(it: Iterator)
      requires Points(it)
      ensures Index(it) == |order| <==> it.node == (if it.isReverse then REnd() else End()).node
      ensures 0 <= Index(it) <= |order|
    {
      PosOfFacts(nodes, spans, order, it.node);
    }

    /// incr: the in-order successor; from the sentinel, the first node of
    /// the maximum's subtree.
    method Incr(n: int) returns (r: int)
      requires Shaped() && (n == 0 || IsLive(n))
      ensures r == 0 || IsLive(r)
      ensures n != 0 ==> PosOf(spans, order, r) == PosOf(spans, order, n) + 1
      ensures n == 0 ==> r == (if |order| == 0 then 0 else SubMin(nodes, spans, order, nodes[0].right))
    {
      r := InorderSuccessor(nodes, spans, order, n);
      if n != 0 {
        NodeBounds(nodes, spans, order, n);
        PosOfNodeAt(nodes, spans, order, spans[n].pos + 1);
      } else if |order| != 0 {
        NodeAtFacts(nodes, spans, order, |order| - 1);
        NodeBounds(nodes, spans, order, nodes[0].right);
        NodeAtFacts(nodes, spans, order, spans[nodes[0].right].lo);
      }
    }

    /// decr: the sentinel steps to the cached maximum, a node to its
    /// in-order predecessor (the sentinel before the minimum).
    method Decr(n: int) returns (r: int)
      requires Shaped() && (n == 0 || IsLive(n))
      ensures r == 0 || IsLive(r)
      ensures PosOf(spans, order, n) > 0 ==> PosOf(spans, order, r) == PosOf(spans, order, n) - 1
      ensures PosOf(spans, order, n) == 0 ==> r == 0
    {
      PosOfFacts(nodes, spans, order, n);
      if IsNilWord(nodes[n].color) {
        NilIff(nodes, spans, order, n);
        r := nodes[0].right;
        PosOfNodeAt(nodes, spans, order, if |order| == 0 then 0 else |order| - 1);
      } else {
        NilIff(nodes, spans, order, n);
        r := InorderPredecessor(nodes, spans, order, n);
        NodeBounds(nodes, spans, order, n);
        if spans[n].pos > 0 {
          PosOfNodeAt(nodes, spans, order, spans[n].pos - 1);
        }
      }
    }

    /// rbt_iter_next: one step in the iterator's own direction.  Past the
    /// last position a reverse iterator wraps to `rbegin`, and `end` steps
    /// into the first node of the maximum's subtree.
    method IterNext(it: Iterator) returns (r: Iterator)
      requires Points(it)
      ensures Points(r) && r.isReverse == it.isReverse
      ensures Index(it) < |order| ==> Index(r) == Index(it) + 1
      ensures it.isReverse && Index(it) == |order| ==> Index(r) == 0
      ensures !it.isReverse && Index(it) == |order| ==>
        r.node == (if |order| == 0 then 0 else SubMin(nodes, spans, order, nodes[0].right))
    {
      PosOfFacts(nodes, spans, order, it.node);
      var n;
      if it.isReverse {
        n := Decr(it.node);
      } else {
        n := Incr(it.node);
      }
      r := Iterator(n, it.isReverse);
      PosOfFacts(nodes, spans, order, n);
    }

    /// rbt_iter_prev: one step against the iterator's direction.  Before
    /// the first position a forward iterator wraps to `end`, and `rbegin`
    /// steps into the first node of the maximum's subtree.
    method IterPrev(it: Iterator) returns (r: Iterator)
      requires Points(it)
      ensures Points(r) && r.isReverse == it.isReverse
      ensures Index(it) > 0 ==> Index(r) == Index(it) - 1
      ensures !it.isReverse && Index(it) == 0 ==> Index(r) == |order|
      ensures it.isReverse && Index(it) == 0 ==>
        r.node == (if |order| == 0 then 0 else SubMin(nodes, spans, order, nodes[0].right))
    {
      PosOfFacts(nodes, spans, order, it.node);
      var n;
      if it.isReverse {
        n := Incr(it.node);
      } else {
        n := Decr(it.node);
      }
      r := Iterator(n, it.isReverse);
      PosOfFacts(nodes, spans, order, n);
    }

    /// rbt_iter_val: the value at the iterator's position; a reverse
    /// iterator reads the node before its own.  At the last position the
    /// sentinel is read, which holds no value.
    method IterVal(it: Iterator) returns (r: Option<Entry>)
      requires Points(it)
      ensures Index(it) < |order| ==> r == Some(Visited(it.isReverse)[Index(it)])
      ensures Index(it) == |order| ==> r == None
    {
      PosOfFacts(nodes, spans, order, it.node);
      var n := it.node;
      if it.isReverse {
        n := Decr(it.node);
        PosOfFacts(nodes, spans, order, n);
        if Index(it) < |order| {
          RbSpec.ReversedAt(Contents(), Index(it));
        }
      }
      NodeAtFacts(nodes, spans, order, PosOf(spans, order, n));
      r := nodes[n].value;
    }

    /// rbt_find: the first node whose value compares equal to `k`, or `end`.
    method Find(k: Entry) returns (it: Iterator)
      requires Valid() && CanCompare()
      ensures Points(it) && !it.isReverse
      ensures RbSpec.EqualTo(Contents(), k) == [] <==> it.node == 0
      ensures it.node != 0 ==>
        Index(it) == RbSpec.FirstAtLeast(Contents(), k) && Contents()[Index(it)].key == k.key
    {
      ghost var idx := RbSpec.FirstAtLeast(Contents(), k);
      var found := LowerBound(nodes, spans, order, k);
      NodeAtFacts(nodes, spans, order, idx);
      RbSpec.LowerBoundHit(Contents(), k);
      if IsNilWord(nodes[found.curr].color) || Compare(k, nodes[found.curr].value.value) != 0 {
        it := End();
      } else {
        it := MakeIter(found.curr);
      }
    }

    /// rbt_val_at: the value found for `k`, which must be present.
    method ValAt(k: Entry) returns (v: Entry)
      requires Valid() && CanCompare()
      requires RbSpec.EqualTo(Contents(), k) != []
      ensures v == RbSpec.EqualTo(Contents(), k)[0]
    {
      var it := Find(k);
      RbSpec.EqualRangeIsEqualTo(Contents(), k);
      NodeAtFacts(nodes, spans, order, Index(it));
      v := nodes[it.node].value.value;
    }

    /// rbt_val_at_or: the value found for `k`, or `default` when absent.
    method ValAtOr(k: Entry, default: Option<Entry>) returns (v: Option<Entry>)
      requires Valid() && CanCompare()
      ensures RbSpec.EqualTo(Contents(), k) == [] ==> v == default
      ensures RbSpec.EqualTo(Contents(), k) != [] ==> v == Some(RbSpec.EqualTo(Contents(), k)[0])
    {
      var it := Find(k);
      if it.node == 0 {
        v := default;
      } else {
        RbSpec.EqualRangeIsEqualTo(Contents(), k);
        NodeAtFacts(nodes, spans, order, Index(it));
        v := nodes[it.node].value;
      }
    }

    /// rbt_lower_bound: the first position whose value is not below `k`.
    method LowerBoundIter(k: Entry) returns (it: Iterator)
      requires Valid() && CanCompare()
      ensures Points(it) && !it.isReverse && Index(it) == RbSpec.FirstAtLeast(Contents(), k)
    {
      var found := LowerBound(nodes, spans, order, k);
      it := MakeIter(found.curr);
      PosOfNodeAt(nodes, spans, order, RbSpec.FirstAtLeast(Contents(), k));
    }

    /// rbt_upper_bound: the first position whose value is above `k`.
    method UpperBoundIter(k: Entry) returns (it: Iterator)
      requires Valid() && CanCompare()
      ensures Points(it) && !it.isReverse && Index(it) == RbSpec.FirstAbove(Contents(), k)
    {
      var found := UpperBound(nodes, spans, order, k);
      it := MakeIter(found.curr);
      PosOfNodeAt(nodes, spans, order, RbSpec.FirstAbove(Contents(), k));
    }

    /// rbt_eqaul_range: the iterators around the values equal to `k`.
    method EqualRangeIters(k: Entry) returns (res: EqRangeResult)
      requires Valid() && CanCompare()
      ensures Points(res.first) && Points(res.last) && !res.first.isReverse && !res.last.isReverse
      ensures Index(res.first) == RbSpec.FirstAtLeast(Contents(), k)
      ensures Index(res.last) == RbSpec.FirstAbove(Contents(), k)
      ensures 0 <= Index(res.first) <= Index(res.last) <= |order|
      ensures Contents()[Index(res.first)..Index(res.last)] == RbSpec.EqualTo(Contents(), k)
    {
      var pair := EqualRange(nodes, spans, order, k);
      res := EqRangeResult(MakeIter(pair.first), MakeIter(pair.second));
      PosOfNodeAt(nodes, spans, order, RbSpec.FirstAtLeast(Contents(), k));
      PosOfNodeAt(nodes, spans, order, RbSpec.FirstAbove(Contents(), k));
      RbSpec.EqualRangeIsEqualTo(Contents(), k);
    }

    /// rbt_for_each_val: visits every value from `begin` to `end`, once
    /// each, in ascending order.
    method ForEachVal() returns (vals: seq<Entry>)
      requires Valid()
      ensures vals == Contents()
    {
      vals := [];
      var it := Begin();
      AtLast(it);
      while !IterEq(it, End())
        invariant Points(it) && !it.isReverse
        invariant Index(it) == |vals| <= |order|
        invariant vals == Contents()[..|vals|]
        decreases |order| - Index(it)
      {
        AtLast(it);
        var v := IterVal(it);
        vals := vals + [v.value];
        it := IterNext(it);
        AtLast(it);
      }
      AtLast(it);
    }

    /// rbt_for_each_val_r (and the values seen by rbt_for_each_r): every
    /// value from `rbegin` to `rend`, once each, in descending order.
    method ForEachValReverse() returns (vals: seq<Entry>)
      requires Valid()
      ensures vals == RbSpec.Reversed(Contents())
    {
      vals := [];
      var it := RBegin();
      AtLast(it);
      while !IterEq(it, REnd())
        invariant Points(it) && it.isReverse
        invariant Index(it) == |vals| <= |order|
        invariant vals == RbSpec.Reversed(Contents())[..|vals|]
        decreases |order| - Index(it)
      {
        AtLast(it);
        var v := IterVal(it);
        vals := vals + [v.value];
        it := IterNext(it);
        AtLast(it);
      }
      AtLast(it);
    }
  }

  /// rbt_erase twice with the same key: the second call finds nothing to
  /// erase and leaves the values as the first call left them.
  method EraseTwice(t: Tree, k: Entry) returns (n1: int, n2: int)
    requires t.Valid() && t.CanCompare()
    requires IdleRun(t.nodes, t.spans, t.order, RbSpec.FirstAtLeast(t.Contents(), k), t.Kept(k))
    modifies t
    ensures n1 == |RbSpec.EqualTo(old(t.Contents()), k)| && n2 == 0
    ensures t.Valid() && t.Contents() == RbSpec.RemoveEqual(old(t.Contents()), k)
  {
    ghost var c := t.Contents();
    var d1, d2;
    n1, d1 := t.Erase(k);
    n2, d2 := t.Erase(k);
    RbSpec.RemoveEqualSpec(c, k);
  }
}
