/// The link rewrites of `rotate_left` and `rotate_right`, and why they keep
/// the arena well formed: a rotation leaves the in-order sequence alone and
/// changes the subtree intervals of exactly the two nodes it turns.
module RbRotate {
  import opened RbTypes
  import opened RbShape

  /// The writes of rotate_left(x) with pivot `y = x.right`, in the order
  /// the source makes them: `x` takes the pivot's left subtree `b`, the
  /// pivot takes `x`'s place under `x`'s parent `p` (the sentinel's root
  /// link when `x` is the root), and `x` hangs left of the pivot.
  ghost function RotateLeftLinks(nodes: seq<Node>, x: int): (r: seq<Node>)
    requires 0 < x < |nodes| && 0 < nodes[x].right < |nodes|
    requires 0 <= nodes[nodes[x].right].left < |nodes| && 0 <= nodes[x].parent < |nodes|
    ensures |r| == |nodes|
  {
    var y, p := nodes[x].right, nodes[x].parent;
    var b := nodes[y].left;
    var n1 := nodes[x := nodes[x].(right := b)];
    var n2 := if b != 0 then n1[b := n1[b].(parent := x)] else n1;
    var n3 := n2[y := n2[y].(parent := p)];
    var n4 := if p == 0 then n3[0 := n3[0].(parent := y)]
              else if n3[p].left == x then n3[p := n3[p].(left := y)]
              else n3[p := n3[p].(right := y)];
    var n5 := n4[y := n4[y].(left := x)];
    n5[x := n5[x].(parent := y)]
  }

  /// The writes of rotate_right(x) with pivot `y = x.left`, the mirror image.
  ghost function RotateRightLinks(nodes: seq<Node>, x: int): (r: seq<Node>)
    requires 0 < x < |nodes| && 0 < nodes[x].left < |nodes|
    requires 0 <= nodes[nodes[x].left].right < |nodes| && 0 <= nodes[x].parent < |nodes|
    ensures |r| == |nodes|
  {
    var y, p := nodes[x].left, nodes[x].parent;
    var b := nodes[y].right;
    var n1 := nodes[x := nodes[x].(left := b)];
    var n2 := if b != 0 then n1[b := n1[b].(parent := x)] else n1;
    var n3 := n2[y := n2[y].(parent := p)];
    var n4 := if p == 0 then n3[0 := n3[0].(parent := y)]
              else if n3[p].right == x then n3[p := n3[p].(right := y)]
              else n3[p := n3[p].(left := y)];
    var n5 := n4[y := n4[y].(right := x)];
    n5[x := n5[x].(parent := y)]
  }

  /// The per-node outcome of rotate_left(x): every node other than `x`,
  /// the pivot, `b` and `p` is untouched.
  lemma RotateLeftEffect(nodes: seq<Node>, x: int)
    requires 0 < x < |nodes| && 0 < nodes[x].right < |nodes|
    requires 0 <= nodes[nodes[x].right].left < |nodes| && 0 <= nodes[x].parent < |nodes|
    requires nodes[x].right != x && nodes[x].parent != x && nodes[x].parent != nodes[x].right
    requires var b := nodes[nodes[x].right].left; b != x && b != nodes[x].right && (b != 0 ==> b != nodes[x].parent)
    ensures RotatedLeft(nodes, x, RotateLeftLinks(nodes, x))
  {
  }

  ghost predicate RotatedLeft(nodes: seq<Node>, x: int, nodes1: seq<Node>)
  {
    && 0 < x < |nodes| && 0 < nodes[x].right < |nodes|
    && 0 <= nodes[nodes[x].right].left < |nodes| && 0 <= nodes[x].parent < |nodes|
    && var y, p := nodes[x].right, nodes[x].parent;
    && var b := nodes[y].left;
    && |nodes1| == |nodes|
    && nodes1[x] == nodes[x].(right := b, parent := y)
    && nodes1[y] == nodes[y].(left := x, parent := p)
    && (b != 0 ==> nodes1[b] == nodes[b].(parent := x))
    && (p == 0 ==> nodes1[0] == nodes[0].(parent := y))
    && (p != 0 && nodes[p].left == x ==> nodes1[p] == nodes[p].(left := y))
    && (p != 0 && nodes[p].left != x ==> nodes1[p] == nodes[p].(right := y))
    && (p != 0 ==> nodes1[0] == nodes[0])
    && (forall i :: 0 <= i < |nodes| && i != x && i != y && i != b && i != p ==> nodes1[i] == nodes[i])
  }

  /// The per-node outcome of rotate_right(x): every node other than `x`,
  /// the pivot, `b` and `p` is untouched.
  lemma RotateRightEffect(nodes: seq<Node>, x: int)
    requires 0 < x < |nodes| && 0 < nodes[x].left < |nodes|
    requires 0 <= nodes[nodes[x].left].right < |nodes| && 0 <= nodes[x].parent < |nodes|
    requires nodes[x].left != x && nodes[x].parent != x && nodes[x].parent != nodes[x].left
    requires var b := nodes[nodes[x].left].right; b != x && b != nodes[x].left && (b != 0 ==> b != nodes[x].parent)
    ensures RotatedRight(nodes, x, RotateRightLinks(nodes, x))
  {
  }

  ghost predicate RotatedRight(nodes: seq<Node>, x: int, nodes1: seq<Node>)
  {
    && 0 < x < |nodes| && 0 < nodes[x].left < |nodes|
    && 0 <= nodes[nodes[x].left].right < |nodes| && 0 <= nodes[x].parent < |nodes|
    && var y, p := nodes[x].left, nodes[x].parent;
    && var b := nodes[y].right;
    && |nodes1| == |nodes|
    && nodes1[x] == nodes[x].(left := b, parent := y)
    && nodes1[y] == nodes[y].(right := x, parent := p)
    && (b != 0 ==> nodes1[b] == nodes[b].(parent := x))
    && (p == 0 ==> nodes1[0] == nodes[0].(parent := y))
    && (p != 0 && nodes[p].right == x ==> nodes1[p] == nodes[p].(right := y))
    && (p != 0 && nodes[p].right != x ==> nodes1[p] == nodes[p].(left := y))
    && (p != 0 ==> nodes1[0] == nodes[0])
    && (forall i :: 0 <= i < |nodes| && i != x && i != y && i != b && i != p ==> nodes1[i] == nodes[i])
  }

  /// After rotate_left(x), `x` covers its old left part up to the pivot,
  /// and the pivot covers what `x` covered.
  ghost function SpansAfterLeft(spans: seq<Span>, x: int, y: int): seq<Span>
    requires 0 <= x < |spans| && 0 <= y < |spans|
  {
    spans[x := Span(spans[x].lo, spans[x].pos, spans[y].pos)][y := Span(spans[x].lo, spans[y].pos, spans[x].hi)]
  }

  ghost function SpansAfterRight(spans: seq<Span>, x: int, y: int): seq<Span>
    requires 0 <= x < |spans| && 0 <= y < |spans|
  {
    spans[x := Span(spans[y].pos + 1, spans[x].pos, spans[x].hi)][y := Span(spans[x].lo, spans[y].pos, spans[x].hi)]
  }

  /// rotate_left(x) keeps the arena well formed and the contents unchanged.
  lemma RotateLeftWf(nodes: seq<Node>, spans: seq<Span>, order: seq<int>, x: int, nodes1: seq<Node>)
    requires Wf(nodes, spans, order) && Live(nodes, spans, order, x) && nodes[x].right != 0
    requires RotatedLeft(nodes, x, nodes1)
    ensures Wf(nodes1, SpansAfterLeft(spans, x, nodes[x].right), order)
    ensures Contents(nodes1, order) == Contents(nodes, order)
  {
    var y := nodes[x].right;
    var spans1 := SpansAfterLeft(spans, x, y);
    NodeOkOf(nodes, spans, order, x);
    RotateLeftSentinel(nodes, spans, order, x, nodes1);
    RotateLeftEach(nodes, spans, order, x, nodes1);
    WfFrom(nodes, spans, order, nodes1, spans1);
  }

  lemma RotateLeftSentinel(nodes: seq<Node>, spans: seq<Span>, order: seq<int>, x: int, nodes1: seq<Node>)
    requires Wf(nodes, spans, order) && Live(nodes, spans, order, x) && nodes[x].right != 0
    requires RotatedLeft(nodes, x, nodes1)
    ensures SentinelOk(nodes1, SpansAfterLeft(spans, x, nodes[x].right), order)
  {
    var y, p := nodes[x].right, nodes[x].parent;
    NodeOkOf(nodes, spans, order, x);
    NodeOkOf(nodes, spans, order, y);
    var b := nodes[y].left;
    if b != 0 {
      NodeOkOf(nodes, spans, order, b);
    }
    if p == 0 {
      assert nodes1[0] == nodes[0].(parent := y);
    } else {
      NodeOkOf(nodes, spans, order, p);
      assert nodes1[0] == nodes[0];
    }
  }

  /// The common premise of the per-node steps of rotate_left(x).
  ghost predicate LeftRotation(nodes: seq<Node>, spans: seq<Span>, order: seq<int>, x: int, nodes1: seq<Node>)
  {
    && AllNodesOk(nodes, spans, order) && IsNilWord(nodes[0].color)
    && Live(nodes, spans, order, x) && nodes[x].right != 0
    && RotatedLeft(nodes, x, nodes1)
  }

  lemma RotateLeftEach(nodes: seq<Node>, spans: seq<Span>, order: seq<int>, x: int, nodes1: seq<Node>)
    requires LeftRotation(nodes, spans, order, x, nodes1)
    ensures AllNodesOk(nodes1, SpansAfterLeft(spans, x, nodes[x].right), order)
  {
    var y, p := nodes[x].right, nodes[x].parent;
    NodeOkOf(nodes, spans, order, x);
    var b := nodes[y].left;
    var spans1 := SpansAfterLeft(spans, x, y);
    forall n | Live(nodes1, spans1, order, n) ensures NodeOk(nodes1, spans1, order, n) {
      if n == x {
        RotateLeftAtX(nodes, spans, order, x, nodes1);
      } else if n == y {
        RotateLeftAtPivot(nodes, spans, order, x, nodes1);
      } else if n == b {
        RotateLeftAtInner(nodes, spans, order, x, nodes1);
      } else if n == p {
        RotateLeftAtParent(nodes, spans, order, x, nodes1);
      } else {
        RotateLeftAtOther(nodes, spans, order, x, nodes1, n);
      }
    }
  }

  lemma RotateLeftAtX(nodes: seq<Node>, spans: seq<Span>, order: seq<int>, x: int, nodes1: seq<Node>)
    requires LeftRotation(nodes, spans, order, x, nodes1)
    ensures NodeOk(nodes1, SpansAfterLeft(spans, x, nodes[x].right), order, x)
  {
    NodeOkOf(nodes, spans, order, x);
    var y := nodes[x].right;
    NodeOkOf(nodes, spans, order, y);
    var a, b := nodes[x].left, nodes[y].left;
    if a != 0 { NodeOkOf(nodes, spans, order, a); }
    if b != 0 { NodeOkOf(nodes, spans, order, b); }
  }

  lemma RotateLeftAtPivot(nodes: seq<Node>, spans: seq<Span>, order: seq<int>, x: int, nodes1: seq<Node>)
    requires LeftRotation(nodes, spans, order, x, nodes1)
    ensures NodeOk(nodes1, SpansAfterLeft(spans, x, nodes[x].right), order, nodes[x].right)
  {
    NodeOkOf(nodes, spans, order, x);
    var y, p := nodes[x].right, nodes[x].parent;
    NodeOkOf(nodes, spans, order, y);
    var c := nodes[y].right;
    if c != 0 { NodeOkOf(nodes, spans, order, c); }
    if p != 0 { NodeOkOf(nodes, spans, order, p); }
  }

  lemma RotateLeftAtInner(nodes: seq<Node>, spans: seq<Span>, order: seq<int>, x: int, nodes1: seq<Node>)
    requires LeftRotation(nodes, spans, order, x, nodes1)
    requires nodes[nodes[x].right].left != 0
    ensures NodeOk(nodes1, SpansAfterLeft(spans, x, nodes[x].right), order, nodes[nodes[x].right].left)
  {
    NodeOkOf(nodes, spans, order, x);
    var y := nodes[x].right;
    NodeOkOf(nodes, spans, order, y);
    var b := nodes[y].left;
    NodeOkOf(nodes, spans, order, b);
    var l, r := nodes[b].left, nodes[b].right;
    if l != 0 { NodeOkOf(nodes, spans, order, l); }
    if r != 0 { NodeOkOf(nodes, spans, order, r); }
  }

  lemma RotateLeftAtParent(nodes: seq<Node>, spans: seq<Span>, order: seq<int>, x: int, nodes1: seq<Node>)
    requires LeftRotation(nodes, spans, order, x, nodes1)
    requires nodes[x].parent != 0
    ensures NodeOk(nodes1, SpansAfterLeft(spans, x, nodes[x].right), order, nodes[x].parent)
  {
    NodeOkOf(nodes, spans, order, x);
    var p := nodes[x].parent;
    NodeOkOf(nodes, spans, order, p);
    if nodes[p].left == x {
      RotateLeftUnderLeft(nodes, spans, order, x, nodes1);
    } else {
      RotateLeftUnderRight(nodes, spans, order, x, nodes1);
    }
  }

  /// rotate_left(x) where `x` is its parent's left child.
  lemma RotateLeftUnderLeft(nodes: seq<Node>, spans: seq<Span>, order: seq<int>, x: int, nodes1: seq<Node>)
    requires LeftRotation(nodes, spans, order, x, nodes1)
    requires var p := nodes[x].parent; 0 < p < |nodes| && nodes[p].left == x
    ensures NodeOk(nodes1, SpansAfterLeft(spans, x, nodes[x].right), order, nodes[x].parent)
  {
    NodeOkOf(nodes, spans, order, x);
    var y, p := nodes[x].right, nodes[x].parent;
    NodeOkOf(nodes, spans, order, y);
    NodeOkOf(nodes, spans, order, p);
    var q, sib := nodes[p].parent, nodes[p].right;
    if q != 0 {
      NodeOkOf(nodes, spans, order, q);
      assert spans[q].hi - spans[q].lo > spans[p].hi - spans[p].lo > spans[x].hi - spans[x].lo;
    }
    if sib != 0 {
      NodeOkOf(nodes, spans, order, sib);
    }
    NodeOkLeftSwapped(nodes, spans, order, nodes1, SpansAfterLeft(spans, x, y), p, y);
  }

  /// rotate_left(x) where `x` is its parent's right child.
  lemma RotateLeftUnderRight(nodes: seq<Node>, spans: seq<Span>, order: seq<int>, x: int, nodes1: seq<Node>)
    requires LeftRotation(nodes, spans, order, x, nodes1)
    requires var p := nodes[x].parent; 0 < p < |nodes| && nodes[p].left != x
    ensures NodeOk(nodes1, SpansAfterLeft(spans, x, nodes[x].right), order, nodes[x].parent)
  {
    NodeOkOf(nodes, spans, order, x);
    var y, p := nodes[x].right, nodes[x].parent;
    NodeOkOf(nodes, spans, order, y);
    NodeOkOf(nodes, spans, order, p);
    var q, sib := nodes[p].parent, nodes[p].left;
    if q != 0 {
      NodeOkOf(nodes, spans, order, q);
      assert spans[q].hi - spans[q].lo > spans[p].hi - spans[p].lo > spans[x].hi - spans[x].lo;
    }
    if sib != 0 {
      NodeOkOf(nodes, spans, order, sib);
    }
    NodeOkRightSwapped(nodes, spans, order, nodes1, SpansAfterLeft(spans, x, y), p, y);
  }

  /// A node away from the rotation keeps its record, its interval and its
  /// neighbours' view of it.
  lemma RotateLeftAtOther(nodes: seq<Node>, spans: seq<Span>, order: seq<int>, x: int, nodes1: seq<Node>, n: int)
    requires LeftRotation(nodes, spans, order, x, nodes1)
    requires Live(nodes1, SpansAfterLeft(spans, x, nodes[x].right), order, n)
    requires n != x && n != nodes[x].right && n != nodes[nodes[x].right].left && n != nodes[x].parent
    ensures NodeOk(nodes1, SpansAfterLeft(spans, x, nodes[x].right), order, n)
  {
    NodeOkOf(nodes, spans, order, x);
    var y := nodes[x].right;
    NodeOkOf(nodes, spans, order, y);
    NodeOkOf(nodes, spans, order, n);
    var l, r, q := nodes[n].left, nodes[n].right, nodes[n].parent;
    if l != 0 { NodeOkOf(nodes, spans, order, l); }
    if r != 0 { NodeOkOf(nodes, spans, order, r); }
    NodeOkKept(nodes, spans, order, nodes1, SpansAfterLeft(spans, x, y), n);
  }
  /// rotate_right(x) keeps the arena well formed and the contents unchanged.
  lemma RotateRightWf(nodes: seq<Node>, spans: seq<Span>, order: seq<int>, x: int, nodes1: seq<Node>)
    requires Wf(nodes, spans, order) && Live(nodes, spans, order, x) && nodes[x].left != 0
    requires RotatedRight(nodes, x, nodes1)
    ensures Wf(nodes1, SpansAfterRight(spans, x, nodes[x].left), order)
    ensures Contents(nodes1, order) == Contents(nodes, order)
  {
    var y := nodes[x].left;
    var spans1 := SpansAfterRight(spans, x, y);
    NodeOkOf(nodes, spans, order, x);
    RotateRightSentinel(nodes, spans, order, x, nodes1);
    RotateRightEach(nodes, spans, order, x, nodes1);
    WfFrom(nodes, spans, order, nodes1, spans1);
  }

  lemma RotateRightSentinel(nodes: seq<Node>, spans: seq<Span>, order: seq<int>, x: int, nodes1: seq<Node>)
    requires Wf(nodes, spans, order) && Live(nodes, spans, order, x) && nodes[x].left != 0
    requires RotatedRight(nodes, x, nodes1)
    ensures SentinelOk(nodes1, SpansAfterRight(spans, x, nodes[x].left), order)
  {
    var y, p := nodes[x].left, nodes[x].parent;
    NodeOkOf(nodes, spans, order, x);
    NodeOkOf(nodes, spans, order, y);
    var b := nodes[y].right;
    if b != 0 {
      NodeOkOf(nodes, spans, order, b);
    }
    if p == 0 {
      assert nodes1[0] == nodes[0].(parent := y);
    } else {
      NodeOkOf(nodes, spans, order, p);
      assert nodes1[0] == nodes[0];
    }
  }

  /// The common premise of the per-node steps of rotate_right(x).
  ghost predicate RightRotation(nodes: seq<Node>, spans: seq<Span>, order: seq<int>, x: int, nodes1: seq<Node>)
  {
    && AllNodesOk(nodes, spans, order) && IsNilWord(nodes[0].color)
    && Live(nodes, spans, order, x) && nodes[x].left != 0
    && RotatedRight(nodes, x, nodes1)
  }

  lemma RotateRightEach(nodes: seq<Node>, spans: seq<Span>, order: seq<int>, x: int, nodes1: seq<Node>)
    requires RightRotation(nodes, spans, order, x, nodes1)
    ensures AllNodesOk(nodes1, SpansAfterRight(spans, x, nodes[x].left), order)
  {
    var y, p := nodes[x].left, nodes[x].parent;
    NodeOkOf(nodes, spans, order, x);
    var b := nodes[y].right;
    var spans1 := SpansAfterRight(spans, x, y);
    forall n | Live(nodes1, spans1, order, n) ensures NodeOk(nodes1, spans1, order, n) {
      if n == x {
        RotateRightAtX(nodes, spans, order, x, nodes1);
      } else if n == y {
        RotateRightAtPivot(nodes, spans, order, x, nodes1);
      } else if n == b {
        RotateRightAtInner(nodes, spans, order, x, nodes1);
      } else if n == p {
        RotateRightAtParent(nodes, spans, order, x, nodes1);
      } else {
        RotateRightAtOther(nodes, spans, order, x, nodes1, n);
      }
    }
  }

  lemma RotateRightAtX(nodes: seq<Node>, spans: seq<Span>, order: seq<int>, x: int, nodes1: seq<Node>)
    requires RightRotation(nodes, spans, order, x, nodes1)
    ensures NodeOk(nodes1, SpansAfterRight(spans, x, nodes[x].left), order, x)
  {
    NodeOkOf(nodes, spans, order, x);
    var y := nodes[x].left;
    NodeOkOf(nodes, spans, order, y);
    var a, b := nodes[x].right, nodes[y].right;
    if a != 0 { NodeOkOf(nodes, spans, order, a); }
    if b != 0 { NodeOkOf(nodes, spans, order, b); }
  }

  lemma RotateRightAtPivot(nodes: seq<Node>, spans: seq<Span>, order: seq<int>, x: int, nodes1: seq<Node>)
    requires RightRotation(nodes, spans, order, x, nodes1)
    ensures NodeOk(nodes1, SpansAfterRight(spans, x, nodes[x].left), order, nodes[x].left)
  {
    NodeOkOf(nodes, spans, order, x);
    var y, p := nodes[x].left, nodes[x].parent;
    NodeOkOf(nodes, spans, order, y);
    var c := nodes[y].left;
    if c != 0 { NodeOkOf(nodes, spans, order, c); }
    if p != 0 { NodeOkOf(nodes, spans, order, p); }
  }

  lemma RotateRightAtInner(nodes: seq<Node>, spans: seq<Span>, order: seq<int>, x: int, nodes1: seq<Node>)
    requires RightRotation(nodes, spans, order, x, nodes1)
    requires nodes[nodes[x].left].right != 0
    ensures NodeOk(nodes1, SpansAfterRight(spans, x, nodes[x].left), order, nodes[nodes[x].left].right)
  {
    NodeOkOf(nodes, spans, order, x);
    var y := nodes[x].left;
    NodeOkOf(nodes, spans, order, y);
    var b := nodes[y].right;
    NodeOkOf(nodes, spans, order, b);
    var l, r := nodes[b].right, nodes[b].left;
    if l != 0 { NodeOkOf(nodes, spans, order, l); }
    if r != 0 { NodeOkOf(nodes, spans, order, r); }
  }

  lemma RotateRightAtParent(nodes: seq<Node>, spans: seq<Span>, order: seq<int>, x: int, nodes1: seq<Node>)
    requires RightRotation(nodes, spans, order, x, nodes1)
    requires nodes[x].parent != 0
    ensures NodeOk(nodes1, SpansAfterRight(spans, x, nodes[x].left), order, nodes[x].parent)
  {
    NodeOkOf(nodes, spans, order, x);
    var p := nodes[x].parent;
    NodeOkOf(nodes, spans, order, p);
    if nodes[p].right == x {
      RotateRightUnderRight(nodes, spans, order, x, nodes1);
    } else {
      RotateRightUnderLeft(nodes, spans, order, x, nodes1);
    }
  }

  /// rotate_right(x) where `x` is its parent's right child.
  lemma RotateRightUnderRight(nodes: seq<Node>, spans: seq<Span>, order: seq<int>, x: int, nodes1: seq<Node>)
    requires RightRotation(nodes, spans, order, x, nodes1)
    requires var p := nodes[x].parent; 0 < p < |nodes| && nodes[p].right == x
    ensures NodeOk(nodes1, SpansAfterRight(spans, x, nodes[x].left), order, nodes[x].parent)
  {
    NodeOkOf(nodes, spans, order, x);
    var y, p := nodes[x].left, nodes[x].parent;
    NodeOkOf(nodes, spans, order, y);
    NodeOkOf(nodes, spans, order, p);
    var q, sib := nodes[p].parent, nodes[p].left;
    if q != 0 {
      NodeOkOf(nodes, spans, order, q);
      assert spans[q].hi - spans[q].lo > spans[p].hi - spans[p].lo > spans[x].hi - spans[x].lo;
    }
    if sib != 0 {
      NodeOkOf(nodes, spans, order, sib);
    }
    NodeOkRightSwapped(nodes, spans, order, nodes1, SpansAfterRight(spans, x, y), p, y);
  }

  /// rotate_right(x) where `x` is its parent's left child.
  lemma RotateRightUnderLeft(nodes: seq<Node>, spans: seq<Span>, order: seq<int>, x: int, nodes1: seq<Node>)
    requires RightRotation(nodes, spans, order, x, nodes1)
    requires var p := nodes[x].parent; 0 < p < |nodes| && nodes[p].right != x
    ensures NodeOk(nodes1, SpansAfterRight(spans, x, nodes[x].left), order, nodes[x].parent)
  {
    NodeOkOf(nodes, spans, order, x);
    var y, p := nodes[x].left, nodes[x].parent;
    NodeOkOf(nodes, spans, order, y);
    NodeOkOf(nodes, spans, order, p);
    var q, sib := nodes[p].parent, nodes[p].right;
    if q != 0 {
      NodeOkOf(nodes, spans, order, q);
      assert spans[q].hi - spans[q].lo > spans[p].hi - spans[p].lo > spans[x].hi - spans[x].lo;
    }
    if sib != 0 {
      NodeOkOf(nodes, spans, order, sib);
    }
    NodeOkLeftSwapped(nodes, spans, order, nodes1, SpansAfterRight(spans, x, y), p, y);
  }

  /// A node away from the rotation keeps its record, its interval and its
  /// neighbours' view of it.
  lemma RotateRightAtOther(nodes: seq<Node>, spans: seq<Span>, order: seq<int>, x: int, nodes1: seq<Node>, n: int)
    requires RightRotation(nodes, spans, order, x, nodes1)
    requires Live(nodes1, SpansAfterRight(spans, x, nodes[x].left), order, n)
    requires n != x && n != nodes[x].left && n != nodes[nodes[x].left].right && n != nodes[x].parent
    ensures NodeOk(nodes1, SpansAfterRight(spans, x, nodes[x].left), order, n)
  {
    NodeOkOf(nodes, spans, order, x);
    var y := nodes[x].left;
    NodeOkOf(nodes, spans, order, y);
    NodeOkOf(nodes, spans, order, n);
    var l, r, q := nodes[n].right, nodes[n].left, nodes[n].parent;
    if l != 0 { NodeOkOf(nodes, spans, order, l); }
    if r != 0 { NodeOkOf(nodes, spans, order, r); }
    NodeOkKept(nodes, spans, order, nodes1, SpansAfterRight(spans, x, y), n);
  }

  /// rotate_left(x) can always be applied to a live node with a right
  /// child, and it does what RotatedLeft describes.
  lemma RotateLeftApplies(nodes: seq<Node>, spans: seq<Span>, order: seq<int>, x: int)
    requires Wf(nodes, spans, order) && Live(nodes, spans, order, x) && nodes[x].right != 0
    ensures 0 < nodes[x].right < |nodes| && 0 <= nodes[nodes[x].right].left < |nodes| && 0 <= nodes[x].parent < |nodes|
    ensures RotatedLeft(nodes, x, RotateLeftLinks(nodes, x))
  {
    NodeOkOf(nodes, spans, order, x);
    var y, p := nodes[x].right, nodes[x].parent;
    NodeOkOf(nodes, spans, order, y);
    var b := nodes[y].left;
    if b != 0 {
      NodeOkOf(nodes, spans, order, b);
    }
    if p != 0 {
      NodeOkOf(nodes, spans, order, p);
    }
    RotateLeftEffect(nodes, x);
  }

  /// rotate_right(x) can always be applied to a live node with a left
  /// child, and it does what RotatedRight describes.
  lemma RotateRightApplies(nodes: seq<Node>, spans: seq<Span>, order: seq<int>, x: int)
    requires Wf(nodes, spans, order) && Live(nodes, spans, order, x) && nodes[x].left != 0
    ensures 0 < nodes[x].left < |nodes| && 0 <= nodes[nodes[x].left].right < |nodes| && 0 <= nodes[x].parent < |nodes|
    ensures RotatedRight(nodes, x, RotateRightLinks(nodes, x))
  {
    NodeOkOf(nodes, spans, order, x);
    var y, p := nodes[x].left, nodes[x].parent;
    NodeOkOf(nodes, spans, order, y);
    var b := nodes[y].right;
    if b != 0 {
      NodeOkOf(nodes, spans, order, b);
    }
    if p != 0 {
      NodeOkOf(nodes, spans, order, p);
    }
    RotateRightEffect(nodes, x);
  }

  /// rotate_right at the pivot undoes rotate_left(x): the links and the
  /// subtree intervals are exactly those before.
  lemma RotateLeftUndone(nodes: seq<Node>, spans: seq<Span>, order: seq<int>, x: int)
    requires Wf(nodes, spans, order) && Live(nodes, spans, order, x) && nodes[x].right != 0
    ensures 0 < x < |nodes| && 0 < nodes[x].right < |nodes|
    ensures 0 <= nodes[nodes[x].right].left < |nodes| && 0 <= nodes[x].parent < |nodes|
    ensures var y, nodes1 := nodes[x].right, RotateLeftLinks(nodes, x);
      0 < y < |nodes1| && nodes1[y].left == x && 0 <= nodes1[x].right < |nodes1| &&
      RotateRightLinks(nodes1, y) == nodes &&
      SpansAfterRight(SpansAfterLeft(spans, x, y), y, x) == spans
  {
    var y, p := nodes[x].right, nodes[x].parent;
    NodeOkOf(nodes, spans, order, x);
    NodeOkOf(nodes, spans, order, y);
    var b := nodes[y].left;
    if b != 0 {
      NodeOkOf(nodes, spans, order, b);
    }
    if p != 0 {
      NodeOkOf(nodes, spans, order, p);
    }
    RotateLeftLinksUndone(nodes, x);
    RotateLeftSpansUndone(spans, x, y);
  }

  /// The interval part of RotateLeftUndone.
  lemma RotateLeftSpansUndone(spans: seq<Span>, x: int, y: int)
    requires 0 <= x < |spans| && 0 <= y < |spans| && x != y
    requires spans[y].lo == spans[x].pos + 1 && spans[y].hi == spans[x].hi
    ensures SpansAfterRight(SpansAfterLeft(spans, x, y), y, x) == spans
  {
    var spans2 := SpansAfterRight(SpansAfterLeft(spans, x, y), y, x);
    assert forall i | 0 <= i < |spans| :: spans2[i] == spans[i];
  }

  /// The link part of RotateLeftUndone, from the local facts it needs.
  lemma RotateLeftLinksUndone(nodes: seq<Node>, x: int)
    requires 0 < x < |nodes| && 0 < nodes[x].right < |nodes|
    requires 0 <= nodes[nodes[x].right].left < |nodes| && 0 <= nodes[x].parent < |nodes|
    requires nodes[x].right != x && nodes[x].parent != x && nodes[x].parent != nodes[x].right
    requires var b := nodes[nodes[x].right].left; b != x && b != nodes[x].right && (b != 0 ==> b != nodes[x].parent)
    requires nodes[nodes[x].right].parent == x
    requires var b := nodes[nodes[x].right].left; b != 0 ==> nodes[b].parent == nodes[x].right
    requires var p := nodes[x].parent; p != 0 ==> nodes[p].left == x || nodes[p].right == x
    requires var p := nodes[x].parent; p != 0 ==> nodes[p].left != nodes[x].right && nodes[p].right != nodes[x].right
    requires nodes[x].parent == 0 ==> nodes[0].parent == x
    ensures var y, nodes1 := nodes[x].right, RotateLeftLinks(nodes, x);
      nodes1[y].left == x && 0 <= nodes1[x].right < |nodes1| && RotateRightLinks(nodes1, y) == nodes
  {
    var y := nodes[x].right;
    RotateLeftEffect(nodes, x);
    var nodes1 := RotateLeftLinks(nodes, x);
    RotateRightEffect(nodes1, y);
    var nodes2 := RotateRightLinks(nodes1, y);
    assert forall i | 0 <= i < |nodes| :: nodes2[i] == nodes[i];
  }

  /// rotate_left at the pivot undoes rotate_right(x): the mirror image of
  /// RotateLeftUndone, so the two rotations are inverse to each other.
  lemma RotateRightUndone(nodes: seq<Node>, spans: seq<Span>, order: seq<int>, x: int)
    requires Wf(nodes, spans, order) && Live(nodes, spans, order, x) && nodes[x].left != 0
    ensures 0 < x < |nodes| && 0 < nodes[x].left < |nodes|
    ensures 0 <= nodes[nodes[x].left].right < |nodes| && 0 <= nodes[x].parent < |nodes|
    ensures var y, nodes1 := nodes[x].left, RotateRightLinks(nodes, x);
      0 < y < |nodes1| && nodes1[y].right == x && 0 <= nodes1[x].left < |nodes1| &&
      RotateLeftLinks(nodes1, y) == nodes &&
      SpansAfterLeft(SpansAfterRight(spans, x, y), y, x) == spans
  {
    var y, p := nodes[x].left, nodes[x].parent;
    NodeOkOf(nodes, spans, order, x);
    NodeOkOf(nodes, spans, order, y);
    var b := nodes[y].right;
    if b != 0 {
      NodeOkOf(nodes, spans, order, b);
    }
    if p != 0 {
      NodeOkOf(nodes, spans, order, p);
    }
    RotateRightLinksUndone(nodes, x);
    RotateRightSpansUndone(spans, x, y);
  }

  /// The interval part of RotateRightUndone.
  lemma RotateRightSpansUndone(spans: seq<Span>, x: int, y: int)
    requires 0 <= x < |spans| && 0 <= y < |spans| && x != y
    requires spans[y].lo == spans[x].lo && spans[y].hi == spans[x].pos
    ensures SpansAfterLeft(SpansAfterRight(spans, x, y), y, x) == spans
  {
    var spans2 := SpansAfterLeft(SpansAfterRight(spans, x, y), y, x);
    assert forall i | 0 <= i < |spans| :: spans2[i] == spans[i];
  }

  /// The link part of RotateRightUndone, from the local facts it needs.
  lemma RotateRightLinksUndone(nodes: seq<Node>, x: int)
    requires 0 < x < |nodes| && 0 < nodes[x].left < |nodes|
    requires 0 <= nodes[nodes[x].left].right < |nodes| && 0 <= nodes[x].parent < |nodes|
    requires nodes[x].left != x && nodes[x].parent != x && nodes[x].parent != nodes[x].left
    requires var b := nodes[nodes[x].left].right; b != x && b != nodes[x].left && (b != 0 ==> b != nodes[x].parent)
    requires nodes[nodes[x].left].parent == x
    requires var b := nodes[nodes[x].left].right; b != 0 ==> nodes[b].parent == nodes[x].left
    requires var p := nodes[x].parent; p != 0 ==> nodes[p].left == x || nodes[p].right == x
    requires var p := nodes[x].parent; p != 0 ==> nodes[p].left != nodes[x].left && nodes[p].right != nodes[x].left
    requires nodes[x].parent == 0 ==> nodes[0].parent == x
    ensures var y, nodes1 := nodes[x].left, RotateRightLinks(nodes, x);
      nodes1[y].right == x && 0 <= nodes1[x].left < |nodes1| && RotateLeftLinks(nodes1, y) == nodes
  {
    var y := nodes[x].left;
    RotateRightEffect(nodes, x);
    var nodes1 := RotateRightLinks(nodes, x);
    RotateLeftEffect(nodes1, y);
    var nodes2 := RotateLeftLinks(nodes1, y);
    assert forall i | 0 <= i < |nodes| :: nodes2[i] == nodes[i];
  }

  /// What rotate_left's tests read: the pivot's inner child is nil exactly
  /// when it is the sentinel, `x` is its parent's parent exactly when `x` is
  /// the root, and the nodes the rotation writes are distinct.
  lemma RotateLeftTests(nodes: seq<Node>, spans: seq<Span>, order: seq<int>, x: int)
    requires Wf(nodes, spans, order) && Live(nodes, spans, order, x) && nodes[x].right != 0
    ensures 0 < nodes[x].right < |nodes| && 0 <= nodes[nodes[x].right].left < |nodes| && 0 <= nodes[x].parent < |nodes|
    ensures var y, p := nodes[x].right, nodes[x].parent;
      var b := nodes[y].left;
      && (IsNilWord(nodes[b].color) <==> b == 0)
      && (nodes[p].parent == x <==> p == 0)
      && y != x && p != x && p != y && b != x && b != y && (b != 0 ==> b != p)
  {
    NodeOkOf(nodes, spans, order, x);
    var y, p := nodes[x].right, nodes[x].parent;
    NodeOkOf(nodes, spans, order, y);
    var b := nodes[y].left;
    if b != 0 {
      NodeOkOf(nodes, spans, order, b);
    }
    if p != 0 {
      NodeOkOf(nodes, spans, order, p);
    }
    ActualRootIff(nodes, spans, order, x);
  }

  /// The mirror of RotateLeftTests.
  lemma RotateRightTests(nodes: seq<Node>, spans: seq<Span>, order: seq<int>, x: int)
    requires Wf(nodes, spans, order) && Live(nodes, spans, order, x) && nodes[x].left != 0
    ensures 0 < nodes[x].left < |nodes| && 0 <= nodes[nodes[x].left].right < |nodes| && 0 <= nodes[x].parent < |nodes|
    ensures var y, p := nodes[x].left, nodes[x].parent;
      var b := nodes[y].right;
      && (IsNilWord(nodes[b].color) <==> b == 0)
      && (nodes[p].parent == x <==> p == 0)
      && y != x && p != x && p != y && b != x && b != y && (b != 0 ==> b != p)
  {
    NodeOkOf(nodes, spans, order, x);
    var y, p := nodes[x].left, nodes[x].parent;
    NodeOkOf(nodes, spans, order, y);
    var b := nodes[y].right;
    if b != 0 {
      NodeOkOf(nodes, spans, order, b);
    }
    if p != 0 {
      NodeOkOf(nodes, spans, order, p);
    }
    ActualRootIff(nodes, spans, order, x);
  }

  /// After rotate_right(x) the pivot keeps its colour and its outer (left)
  /// child, which keeps its whole record and is not the root.
  lemma RotateRightKeepsOuter(nodes: seq<Node>, spans: seq<Span>, order: seq<int>, x: int, nodes1: seq<Node>)
    requires Wf(nodes, spans, order) && Live(nodes, spans, order, x) && nodes[x].left != 0
    requires 0 <= nodes[x].left < |nodes| && nodes[nodes[x].left].left != 0
    requires RotatedRight(nodes, x, nodes1)
    ensures var y := nodes[x].left; var c := nodes[y].left;
      0 < c < |nodes| && nodes1[c] == nodes[c] && nodes1[y].left == c && nodes1[c].parent == y &&
      nodes1[y].color == nodes[y].color && c != nodes1[0].parent
  {
    NodeOkOf(nodes, spans, order, x);
    var y, p := nodes[x].left, nodes[x].parent;
    NodeOkOf(nodes, spans, order, y);
    var c, b := nodes[y].left, nodes[y].right;
    NodeOkOf(nodes, spans, order, c);
    if p != 0 {
      NodeOkOf(nodes, spans, order, p);
    }
  }

  /// The mirror of RotateRightKeepsOuter.
  lemma RotateLeftKeepsOuter(nodes: seq<Node>, spans: seq<Span>, order: seq<int>, x: int, nodes1: seq<Node>)
    requires Wf(nodes, spans, order) && Live(nodes, spans, order, x) && nodes[x].right != 0
    requires 0 <= nodes[x].right < |nodes| && nodes[nodes[x].right].right != 0
    requires RotatedLeft(nodes, x, nodes1)
    ensures var y := nodes[x].right; var c := nodes[y].right;
      0 < c < |nodes| && nodes1[c] == nodes[c] && nodes1[y].right == c && nodes1[c].parent == y &&
      nodes1[y].color == nodes[y].color && c != nodes1[0].parent
  {
    NodeOkOf(nodes, spans, order, x);
    var y, p := nodes[x].right, nodes[x].parent;
    NodeOkOf(nodes, spans, order, y);
    var c, b := nodes[y].right, nodes[y].left;
    NodeOkOf(nodes, spans, order, c);
    if p != 0 {
      NodeOkOf(nodes, spans, order, p);
    }
  }
}
