/// The shape invariant of the node arena.  `nodes[0]` is the sentinel that
/// the tree embeds; every other slot was allocated by an insertion.  The
/// ghost `order` lists the live nodes in order, and `spans[n]` says which
/// stretch `order[lo..hi]` the subtree rooted at `n` covers and where `n`
/// itself stands (`pos`).  Stating the tree through these intervals keeps
/// the invariant free of recursion: a rotation changes two spans, an
/// insertion or a removal shifts them by a fixed rule.
module RbShape {
  import opened RbTypes
  import RbSpec

  /// node_t: the value (NULL for the sentinel), the colour word and the
  /// three links, as indices into the arena.
  datatype Node = Node(value: Option<Entry>, color: ColorWord, left: int, right: int, parent: int)

  datatype Span = Span(lo: int, pos: int, hi: int)

  ghost predicate Live(nodes: seq<Node>, spans: seq<Span>, order: seq<int>, n: int)
  {
    0 < n < |nodes| && n < |spans| && 0 <= spans[n].pos < |order| && order[spans[n].pos] == n
  }

  /// The node at in-order position `i`, or the sentinel past the end.
  ghost function NodeAt(order: seq<int>, i: int): int
  {
    if 0 <= i < |order| then order[i] else 0
  }

  ghost predicate OrderOk(nodes: seq<Node>, spans: seq<Span>, order: seq<int>)
  {
    forall i :: 0 <= i < |order| ==>
      0 < order[i] < |nodes| && order[i] < |spans| && spans[order[i]].pos == i && nodes[order[i]].value.Some?
  }

  /// The values of the live nodes, in order.
  ghost function Contents(nodes: seq<Node>, order: seq<int>): (s: seq<Entry>)
    requires forall i :: 0 <= i < |order| ==> 0 <= order[i] < |nodes| && nodes[order[i]].value.Some?
    ensures |s| == |order|
  {
    seq(|order|, i requires 0 <= i < |order| => nodes[order[i]].value.value)
  }

  /// A live node: not marked nil, links inside the arena, children covering
  /// the parts of its span left and right of it, and hung below its parent.
  ghost predicate NodeOk(nodes: seq<Node>, spans: seq<Span>, order: seq<int>, n: int)
    requires 0 < n < |nodes| == |spans|
  {
    var nd, sp := nodes[n], spans[n];
    && !IsNilWord(nd.color)
    && 0 <= sp.lo <= sp.pos < sp.hi <= |order|
    && 0 <= nd.left < |nodes| && 0 <= nd.right < |nodes| && 0 <= nd.parent < |nodes|
    && (nd.left == 0 <==> sp.lo == sp.pos)
    && (nd.left != 0 ==>
          Live(nodes, spans, order, nd.left) && nodes[nd.left].parent == n
          && spans[nd.left].lo == sp.lo && spans[nd.left].hi == sp.pos)
    && (nd.right == 0 <==> sp.pos + 1 == sp.hi)
    && (nd.right != 0 ==>
          Live(nodes, spans, order, nd.right) && nodes[nd.right].parent == n
          && spans[nd.right].lo == sp.pos + 1 && spans[nd.right].hi == sp.hi)
    && (nd.parent == 0 <==> n == nodes[0].parent)
    && (nd.parent != 0 ==>
          Live(nodes, spans, order, nd.parent)
          && (nodes[nd.parent].left == n || nodes[nd.parent].right == n))
  }

  /// The sentinel: marked nil, no value, and caching the root (`parent`),
  /// the minimum (`left`) and the maximum (`right`).
  ghost predicate SentinelOk(nodes: seq<Node>, spans: seq<Span>, order: seq<int>)
    requires 1 <= |nodes| == |spans|
  {
    var s, N := nodes[0], |order|;
    && IsNilWord(s.color) && s.value.None?
    && (N == 0 ==> s.parent == 0 && s.left == 0 && s.right == 0)
    && (N > 0 ==>
          Live(nodes, spans, order, s.parent) && spans[s.parent].lo == 0 && spans[s.parent].hi == N
          && s.left == order[0] && s.right == order[N - 1])
  }

  /// Every live node is well formed.
  ghost predicate AllNodesOk(nodes: seq<Node>, spans: seq<Span>, order: seq<int>)
  {
    && 1 <= |nodes| == |spans|
    && (forall n {:trigger NodeOk(nodes, spans, order, n)} ::
          Live(nodes, spans, order, n) ==> NodeOk(nodes, spans, order, n))
  }

  ghost predicate Wf(nodes: seq<Node>, spans: seq<Span>, order: seq<int>)
  {
    && 1 <= |nodes| == |spans|
    && OrderOk(nodes, spans, order)
    && SentinelOk(nodes, spans, order)
    && AllNodesOk(nodes, spans, order)
    && RbSpec.Sorted(Contents(nodes, order))
  }

  /// The first node of the subtree rooted at live node `n`.
  ghost function SubMin(nodes: seq<Node>, spans: seq<Span>, order: seq<int>, n: int): int
    requires Wf(nodes, spans, order) && Live(nodes, spans, order, n)
  {
    assert NodeOk(nodes, spans, order, n);
    order[spans[n].lo]
  }

  /// The last node of the subtree rooted at live node `n`.
  ghost function SubMax(nodes: seq<Node>, spans: seq<Span>, order: seq<int>, n: int): int
    requires Wf(nodes, spans, order) && Live(nodes, spans, order, n)
  {
    assert NodeOk(nodes, spans, order, n);
    order[spans[n].hi - 1]
  }

  /// The root is black once an operation has finished.
  ghost predicate RootBlack(nodes: seq<Node>)
  {
    1 <= |nodes| && 0 <= nodes[0].parent < |nodes| &&
    (nodes[0].parent != 0 ==> IsBlackWord(nodes[nodes[0].parent].color))
  }

  /// A relinking that keeps every value and every in-order position keeps
  /// the arena well formed once each live node and the sentinel check out,
  /// and it keeps the contents.
  lemma WfFrom(nodes: seq<Node>, spans: seq<Span>, order: seq<int>, nodes1: seq<Node>, spans1: seq<Span>)
    requires Wf(nodes, spans, order)
    requires |nodes1| == |nodes| && |spans1| == |spans|
    requires forall i :: 0 <= i < |nodes| ==> nodes1[i].value == nodes[i].value && spans1[i].pos == spans[i].pos
    requires SentinelOk(nodes1, spans1, order) && AllNodesOk(nodes1, spans1, order)
    ensures Wf(nodes1, spans1, order)
    ensures Contents(nodes1, order) == Contents(nodes, order)
  {
    assert Contents(nodes1, order) == Contents(nodes, order);
  }

  /// A node whose own record and interval are untouched, and whose
  /// neighbours still point at it with the same intervals, stays well formed.
  lemma NodeOkKept(nodes: seq<Node>, spans: seq<Span>, order: seq<int>, nodes1: seq<Node>, spans1: seq<Span>, n: int)
    requires 0 < n < |nodes| == |spans| == |nodes1| == |spans1|
    requires NodeOk(nodes, spans, order, n)
    requires nodes1[n] == nodes[n] && spans1[n] == spans[n]
    requires n == nodes1[0].parent <==> n == nodes[0].parent
    requires var l := nodes[n].left;
      l != 0 ==> nodes1[l].parent == n && spans1[l] == spans[l]
    requires var r := nodes[n].right;
      r != 0 ==> nodes1[r].parent == n && spans1[r] == spans[r]
    requires var q := nodes[n].parent;
      q != 0 ==> spans1[q].pos == spans[q].pos && (nodes1[q].left == n || nodes1[q].right == n)
    ensures NodeOk(nodes1, spans1, order, n)
  {
  }

  /// A node whose left child was swapped for another node covering the
  /// same interval stays well formed, provided its other neighbours still
  /// see it as before.
  lemma NodeOkLeftSwapped(nodes: seq<Node>, spans: seq<Span>, order: seq<int>, nodes1: seq<Node>, spans1: seq<Span>,
                          n: int, newc: int)
    requires 0 < n < |nodes| == |spans| == |nodes1| == |spans1|
    requires NodeOk(nodes, spans, order, n) && spans1[n] == spans[n]
    requires n == nodes1[0].parent <==> n == nodes[0].parent
    requires nodes[n].left != 0 && newc != 0 && nodes1[n] == nodes[n].(left := newc)
    requires Live(nodes1, spans1, order, newc) && nodes1[newc].parent == n
    requires spans1[newc].lo == spans[nodes[n].left].lo && spans1[newc].hi == spans[nodes[n].left].hi
    requires nodes[n].right != 0 ==> nodes1[nodes[n].right].parent == n && spans1[nodes[n].right] == spans[nodes[n].right]
    requires nodes[n].parent != 0 ==>
      spans1[nodes[n].parent].pos == spans[nodes[n].parent].pos &&
      (nodes1[nodes[n].parent].left == n || nodes1[nodes[n].parent].right == n)
    ensures NodeOk(nodes1, spans1, order, n)
  {
  }

  /// The mirror image of NodeOkLeftSwapped.
  lemma NodeOkRightSwapped(nodes: seq<Node>, spans: seq<Span>, order: seq<int>, nodes1: seq<Node>, spans1: seq<Span>,
                           n: int, newc: int)
    requires 0 < n < |nodes| == |spans| == |nodes1| == |spans1|
    requires NodeOk(nodes, spans, order, n) && spans1[n] == spans[n]
    requires n == nodes1[0].parent <==> n == nodes[0].parent
    requires nodes[n].right != 0 && newc != 0 && nodes1[n] == nodes[n].(right := newc)
    requires Live(nodes1, spans1, order, newc) && nodes1[newc].parent == n
    requires spans1[newc].lo == spans[nodes[n].right].lo && spans1[newc].hi == spans[nodes[n].right].hi
    requires nodes[n].left != 0 ==> nodes1[nodes[n].left].parent == n && spans1[nodes[n].left] == spans[nodes[n].left]
    requires nodes[n].parent != 0 ==>
      spans1[nodes[n].parent].pos == spans[nodes[n].parent].pos &&
      (nodes1[nodes[n].parent].left == n || nodes1[nodes[n].parent].right == n)
    ensures NodeOk(nodes1, spans1, order, n)
  {
  }

  /// The invariant at one live node.
  lemma NodeOkOf(nodes: seq<Node>, spans: seq<Span>, order: seq<int>, n: int)
    requires AllNodesOk(nodes, spans, order) && Live(nodes, spans, order, n)
    ensures NodeOk(nodes, spans, order, n)
  {
  }

  /// Only the sentinel carries the nil bit.
  lemma NilIff(nodes: seq<Node>, spans: seq<Span>, order: seq<int>, n: int)
    requires Wf(nodes, spans, order)
    requires n == 0 || Live(nodes, spans, order, n)
    ensures IsNilWord(nodes[n].color) <==> n == 0
  {
    if n != 0 {
      assert NodeOk(nodes, spans, order, n);
    }
  }

  /// IS_ACTUAL_ROOT: a node is its parent's parent exactly when it is the
  /// root the sentinel caches.
  lemma ActualRootIff(nodes: seq<Node>, spans: seq<Span>, order: seq<int>, n: int)
    requires Wf(nodes, spans, order)
    requires Live(nodes, spans, order, n)
    ensures 0 <= nodes[n].parent < |nodes| && 0 <= nodes[nodes[n].parent].parent < |nodes|
    ensures nodes[nodes[n].parent].parent == n <==> n == nodes[0].parent
  {
    assert NodeOk(nodes, spans, order, n);
    var p := nodes[n].parent;
    if p != 0 {
      assert NodeOk(nodes, spans, order, p);
      var g := nodes[p].parent;
      if g != 0 {
        assert NodeOk(nodes, spans, order, g);
        assert spans[n].hi - spans[n].lo < spans[p].hi - spans[p].lo < spans[g].hi - spans[g].lo;
      }
    }
  }

  /// Two arenas with the same values and links whose colour words agree
  /// on the nil bit: all that a run of set_color calls can change is bit 0.
  ghost predicate SameLinks(nodes: seq<Node>, nodes1: seq<Node>)
  {
    |nodes1| == |nodes| &&
    forall i :: 0 <= i < |nodes| ==>
      nodes1[i].value == nodes[i].value && nodes1[i].left == nodes[i].left &&
      nodes1[i].right == nodes[i].right && nodes1[i].parent == nodes[i].parent &&
      IsNilWord(nodes1[i].color) == IsNilWord(nodes[i].color)
  }

  /// One set_color call keeps the links.
  lemma RecolourSameLinks(nodes: seq<Node>, n: int, c: bv2)
    requires 0 <= n < |nodes|
    ensures SameLinks(nodes, nodes[n := nodes[n].(color := SetColorWord(nodes[n].color, c))])
  {
  }

  lemma SameLinksTrans(nodes: seq<Node>, nodes1: seq<Node>, nodes2: seq<Node>)
    requires SameLinks(nodes, nodes1) && SameLinks(nodes1, nodes2)
    ensures SameLinks(nodes, nodes2)
  {
  }

  /// The node at an in-order index is live and holds the value at that
  /// index; one past the end it is the sentinel, the only nil node.
  lemma NodeAtFacts(nodes: seq<Node>, spans: seq<Span>, order: seq<int>, i: int)
    requires Wf(nodes, spans, order) && 0 <= i <= |order|
    ensures var n := NodeAt(order, i);
      && 0 <= n < |nodes|
      && (IsNilWord(nodes[n].color) <==> i == |order|)
      && (i < |order| ==> Live(nodes, spans, order, n) && spans[n].pos == i &&
                          nodes[n].value == Some(Contents(nodes, order)[i]))
  {
    var n := NodeAt(order, i);
    NilIff(nodes, spans, order, n);
  }

  /// A live node's links stay inside the arena and its span inside `order`.
  lemma NodeBounds(nodes: seq<Node>, spans: seq<Span>, order: seq<int>, n: int)
    requires Wf(nodes, spans, order) && Live(nodes, spans, order, n)
    ensures 0 <= nodes[n].left < |nodes| && 0 <= nodes[n].right < |nodes| && 0 <= nodes[n].parent < |nodes|
    ensures 0 <= spans[n].lo <= spans[n].pos < spans[n].hi <= |order|
  {
    NodeOkOf(nodes, spans, order, n);
  }

  /// A live node other than the root hangs below a live parent, whose
  /// subtree is strictly larger.
  lemma BelowParent(nodes: seq<Node>, spans: seq<Span>, order: seq<int>, n: int)
    requires Wf(nodes, spans, order) && Live(nodes, spans, order, n) && nodes[n].parent != 0
    ensures var p := nodes[n].parent;
      0 < p < |spans| && Live(nodes, spans, order, p) &&
      (nodes[p].left == n || nodes[p].right == n) && p != n &&
      spans[p].hi - spans[p].lo > spans[n].hi - spans[n].lo
  {
    NodeOkOf(nodes, spans, order, n);
    NodeOkOf(nodes, spans, order, nodes[n].parent);
  }

  /// A recolouring that leaves the root's colour word alone keeps it black.
  lemma RootColourKept(nodes: seq<Node>, nodes1: seq<Node>)
    requires RootBlack(nodes) && SameLinks(nodes, nodes1)
    requires nodes1[nodes[0].parent].color == nodes[nodes[0].parent].color
    ensures RootBlack(nodes1)
  {
  }

  /// Recolouring keeps the arena well formed and the contents as they were.
  lemma RecolourWf(nodes: seq<Node>, spans: seq<Span>, order: seq<int>, nodes1: seq<Node>)
    requires Wf(nodes, spans, order) && SameLinks(nodes, nodes1)
    ensures Wf(nodes1, spans, order) && Contents(nodes1, order) == Contents(nodes, order)
  {
    forall m | Live(nodes1, spans, order, m)
      ensures NodeOk(nodes1, spans, order, m)
    {
      NodeOkOf(nodes, spans, order, m);
    }
    WfFrom(nodes, spans, order, nodes1, spans);
  }
}
