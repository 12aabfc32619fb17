/// The link rewrites of `extract_node` and `take_node`, and why the
/// corrected form keeps the arena well formed: the node leaves the in-order
/// sequence, its place is taken by its only child or by its successor, and
/// every subtree interval moves by a fixed rule.
module RbErase {
  import opened RbTypes
  import opened RbShape
  import RbSpec

  /// Reading and writing through a link.  Links of a well-formed arena stay
  /// inside it; reading outside yields the sentinel and writing outside
  /// does nothing, which keeps the step functions below total.
  function At(ns: seq<Node>, i: int): Node
    requires |ns| > 0
  {
    if 0 <= i < |ns| then ns[i] else ns[0]
  }

  function Put(ns: seq<Node>, i: int, nd: Node): (r: seq<Node>)
    ensures |r| == |ns|
  {
    if 0 <= i < |ns| then ns[i := nd] else ns
  }

  /// take_node(node, suc): `suc` replaces `node` in the child slot of
  /// `node`'s parent that holds it (no slot when the parent does not hold
  /// it, as for the root below the sentinel), and a real `suc` takes
  /// `node`'s parent as its own.
  function TakeNodeLinks(ns: seq<Node>, n: int, c: int): (r: seq<Node>)
    requires |ns| > 0
    ensures |r| == |ns|
  {
    var par := At(ns, n).parent;
    var t :=
      if n == At(ns, par).left then Put(ns, par, At(ns, par).(left := c))
      else if n == At(ns, par).right then Put(ns, par, At(ns, par).(right := c))
      else ns;
    if !IsNilWord(At(t, c).color) then Put(t, c, At(t, c).(parent := At(t, n).parent)) else t
  }

  /// The root cache written when the root `x` is extracted.  As written,
  /// the cache takes the new minimum or maximum when `x` was one of them,
  /// otherwise the leftmost node of the right subtree (`lm`); corrected, it
  /// takes the node that replaces `x`.
  function RootAfterExtract(nodes: seq<Node>, x: int, lm: int, rm: int, fixed: bool): int
    requires |nodes| > 0
  {
    var nd, s0 := At(nodes, x), nodes[0];
    var minWrite := if IsNilWord(At(nodes, nd.right).color) then nd.parent else lm;
    var maxWrite := if IsNilWord(At(nodes, nd.left).color) then nd.parent else rm;
    if fixed then
      if IsNilWord(At(nodes, nd.left).color) then nd.right
      else if IsNilWord(At(nodes, nd.right).color) then nd.left
      else lm
    else if s0.right == x then maxWrite
    else if s0.left == x then minWrite
    else if IsNilWord(At(nodes, nd.right).color) then 0
    else lm
  }

  /// The sentinel once `x`'s removal is announced to the caches: the
  /// minimum moves to the successor, the maximum to the predecessor, and
  /// the root as RootAfterExtract says.  `lm` stands for leftmost(right)
  /// and `rm` for rightmost(left).
  function SentinelAfterExtract(nodes: seq<Node>, x: int, lm: int, rm: int, fixed: bool): Node
    requires |nodes| > 0
  {
    var nd, s0 := At(nodes, x), nodes[0];
    var minWrite := if IsNilWord(At(nodes, nd.right).color) then nd.parent else lm;
    var maxWrite := if IsNilWord(At(nodes, nd.left).color) then nd.parent else rm;
    s0.(left := if s0.left == x then minWrite else s0.left,
        right := if s0.right == x then maxWrite else s0.right,
        parent := if s0.parent == x then RootAfterExtract(nodes, x, lm, rm, fixed) else s0.parent)
  }

  /// The first writes of the two-children case: the successor `s` leaves
  /// its own place to its right subtree `f` and takes `x`'s right subtree,
  /// unless it is `x`'s right child, in which case only `f` is (re)linked.
  function SuccessorOut(n0: seq<Node>, x: int, s: int, fixed: bool): (r: seq<Node>)
    requires |n0| > 0
    ensures |r| == |n0|
  {
    var f := At(n0, s).right;
    if At(n0, s).parent == x then
      if fixed && IsNilWord(At(n0, f).color) then n0 else Put(n0, f, At(n0, f).(parent := s))
    else
      var t := TakeNodeLinks(n0, s, f);
      var t2 := Put(t, s, At(t, s).(right := At(t, x).right));
      Put(t2, At(t2, s).right, At(t2, At(t2, s).right).(parent := s))
  }

  /// The two-children case of extract_node: the successor `s` leaves its
  /// own place (its right subtree taking it) unless it is `x`'s right
  /// child, then takes `x`'s place, left subtree and colour.  As written
  /// the successor's right link is given `s` as parent even when it is the
  /// sentinel; corrected, the sentinel is left alone.
  function ReplaceLinks(n0: seq<Node>, x: int, s: int, fixed: bool): (r: seq<Node>)
    requires |n0| > 0
    ensures |r| == |n0|
  {
    SuccessorIn(SuccessorOut(n0, x, s, fixed), x, s)
  }

  /// The last writes of the two-children case: `s` takes `x`'s place below
  /// `x`'s parent, `x`'s left subtree and `x`'s colour.
  function SuccessorIn(n1: seq<Node>, x: int, s: int): (r: seq<Node>)
    requires |n1| > 0
    ensures |r| == |n1|
  {
    var n4 := SuccessorLinked(n1, x, s);
    Put(n4, s, At(n4, s).(color := SetColorWord(At(n4, s).color, ColorOf(At(n4, x).color))))
  }

  /// The link writes of SuccessorIn, before the colour is copied.
  function SuccessorLinked(n1: seq<Node>, x: int, s: int): (r: seq<Node>)
    requires |n1| > 0
    ensures |r| == |n1|
  {
    var n2 := TakeNodeLinks(n1, x, s);
    var n3 := Put(n2, s, At(n2, s).(left := At(n2, x).left));
    Put(n3, At(n3, s).left, At(n3, At(n3, s).left).(parent := s))
  }

  /// extract_node(x): the cache updates, then the splice by the case of
  /// `x`'s children.
  function ExtractLinks(nodes: seq<Node>, x: int, lm: int, rm: int, fixed: bool): (r: seq<Node>)
    requires |nodes| > 0
    ensures |r| == |nodes|
  {
    var n0 := nodes[0 := SentinelAfterExtract(nodes, x, lm, rm, fixed)];
    var nd := At(n0, x);
    if IsNilWord(At(n0, nd.left).color) then TakeNodeLinks(n0, x, nd.right)
    else if IsNilWord(At(n0, nd.right).color) then TakeNodeLinks(n0, x, nd.left)
    else ReplaceLinks(n0, x, lm, fixed)
  }

  /// How a bound moves when the node at index `p` leaves.  With two
  /// children the successor at `p + 1` moves into `x`'s place, so subtree
  /// starts at `p + 1` (the successor's ancestors below `x`) stay.
  function DropBound(b: int, p: int): int
  {
    if b > p then b - 1 else b
  }

  function DropLo(lo: int, p: int, two: bool): int
  {
    if lo > p + (if two then 1 else 0) then lo - 1 else lo
  }

  /// The intervals once `x` at index `p` has left; with two children its
  /// successor `s` takes over `x`'s interval.
  ghost function SpansAfterExtract(spans: seq<Span>, x: int, two: bool, s: int): (r: seq<Span>)
    requires 0 <= x < |spans|
    ensures |r| == |spans|
  {
    var p := spans[x].pos;
    seq(|spans|, i requires 0 <= i < |spans| =>
      if two && i == s then Span(spans[x].lo, p, spans[x].hi - 1)
      else Span(DropLo(spans[i].lo, p, two), DropBound(spans[i].pos, p), DropBound(spans[i].hi, p)))
  }

  ghost function OrderAfterExtract(order: seq<int>, p: int): (r: seq<int>)
    requires 0 <= p < |order|
    ensures |r| == |order| - 1
    ensures forall i :: 0 <= i < p ==> r[i] == order[i]
    ensures forall i :: p <= i < |r| ==> r[i] == order[i + 1]
  {
    order[..p] + order[p + 1..]
  }

  /// The in-order listing loses index `p`: every value stays in its slot,
  /// so the values lose the one at `p`.
  lemma ExtractOrderOk(nodes: seq<Node>, spans: seq<Span>, order: seq<int>, x: int,
                       nodes1: seq<Node>, spans1: seq<Span>)
    requires OrderOk(nodes, spans, order) && Live(nodes, spans, order, x)
    requires |nodes1| == |nodes| == |spans| == |spans1|
    requires forall i :: 0 <= i < |nodes| ==> nodes1[i].value == nodes[i].value
    requires forall i :: 0 <= i < |spans| ==> spans1[i].pos == DropBound(spans[i].pos, spans[x].pos)
    ensures OrderOk(nodes1, spans1, OrderAfterExtract(order, spans[x].pos))
    ensures Contents(nodes1, OrderAfterExtract(order, spans[x].pos))
         == RbSpec.RemoveAt(Contents(nodes, order), spans[x].pos)
  {
    var p := spans[x].pos;
    var order1 := OrderAfterExtract(order, p);
    forall i | 0 <= i < |order1|
      ensures 0 < order1[i] < |nodes1| && order1[i] < |spans1| && spans1[order1[i]].pos == i
      ensures nodes1[order1[i]].value.Some?
    {
      if i >= p {
        assert order1[i] == order[i + 1];
      }
    }
    var c, c1 := Contents(nodes, order), Contents(nodes1, order1);
    var t := RbSpec.RemoveAt(c, p);
    assert |t| == |c1|;
    forall i | 0 <= i < |t|
      ensures c1[i] == t[i]
    {
      if i >= p {
        assert t[i] == c[i + 1];
      }
    }
  }

  /// A node other than `x` (and the successor moving into `x`'s place)
  /// keeps its place, one earlier when it stood after `x`.
  lemma LiveAfterExtract(nodes1: seq<Node>, spans: seq<Span>, order: seq<int>, x: int, two: bool, s: int, m: int)
    requires |nodes1| == |spans| && 0 <= x < |spans| && 0 <= spans[x].pos < |order| && order[spans[x].pos] == x
    requires Live(nodes1, spans, order, m) && m != x && !(two && m == s)
    ensures Live(nodes1, SpansAfterExtract(spans, x, two, s), OrderAfterExtract(order, spans[x].pos), m)
  {
  }

  /// A node live after the removal other than the successor was live
  /// before, and is not `x`.
  lemma LiveBeforeExtract(nodes: seq<Node>, spans: seq<Span>, order: seq<int>, x: int, two: bool, s: int, m: int)
    requires OrderOk(nodes, spans, order) && |nodes| == |spans| && Live(nodes, spans, order, x)
    requires Live(nodes, SpansAfterExtract(spans, x, two, s), OrderAfterExtract(order, spans[x].pos), m)
    requires !(two && m == s)
    ensures Live(nodes, spans, order, m) && m != x
  {
    var p := spans[x].pos;
    var order1 := OrderAfterExtract(order, p);
    var q := DropBound(spans[m].pos, p);
    if q >= p {
      assert order1[q] == order[q + 1];
    }
  }

  /// The outcome of extracting a node `x` that has at most one child `c`:
  /// `c` (possibly the sentinel) takes `x`'s slot below `x`'s parent
  /// `par`, a real `c` takes `par` as parent, and the sentinel moves its
  /// minimum to `succ`, its maximum to `pred` and its root to `c` when
  /// they were `x`.  No other slot changes, `x`'s own included.
  ghost predicate Spliced(nodes: seq<Node>, x: int, c: int, par: int, succ: int, pred: int, nodes1: seq<Node>)
  {
    && 0 < x < |nodes| && 0 <= c < |nodes| && 0 <= par < |nodes| && c != x && par != x && (c != par || c == 0)
    && |nodes1| == |nodes|
    && nodes1[0] == nodes[0].(left := if nodes[0].left == x then succ else nodes[0].left,
                              right := if nodes[0].right == x then pred else nodes[0].right,
                              parent := if nodes[0].parent == x then c else nodes[0].parent)
    && (par != 0 ==> nodes1[par] == if nodes[par].left == x then nodes[par].(left := c) else nodes[par].(right := c))
    && (c != 0 ==> nodes1[c] == nodes[c].(parent := par))
    && (forall i :: 0 < i < |nodes| && i != par && i != c ==> nodes1[i] == nodes[i])
  }

  /// The neighbours of `x`: its in-order successor and predecessor (the
  /// sentinel past either end).
  ghost function Succ(spans: seq<Span>, order: seq<int>, x: int): int
    requires 0 <= x < |spans|
  {
    NodeAt(order, spans[x].pos + 1)
  }

  ghost function Pred(spans: seq<Span>, order: seq<int>, x: int): int
    requires 0 <= x < |spans|
  {
    NodeAt(order, spans[x].pos - 1)
  }

  /// A removed minimum without right child is its parent's left child, so
  /// its parent is its successor; a removed maximum without left child
  /// is its parent's right child, so its parent is its predecessor.
  lemma ExtremeNeighbour(nodes: seq<Node>, spans: seq<Span>, order: seq<int>, x: int)
    requires Wf(nodes, spans, order) && Live(nodes, spans, order, x)
    ensures nodes[0].left == x && nodes[x].right == 0 ==> nodes[x].parent == Succ(spans, order, x)
    ensures nodes[0].right == x && nodes[x].left == 0 ==> nodes[x].parent == Pred(spans, order, x)
    ensures nodes[0].left == x <==> spans[x].pos == 0
    ensures nodes[0].right == x <==> spans[x].pos == |order| - 1
  {
    NodeOkOf(nodes, spans, order, x);
    var par := nodes[x].parent;
    if par != 0 {
      NodeOkOf(nodes, spans, order, par);
    }
  }

  /// take_node(n, c) below a parent that holds `n` (or below the
  /// sentinel, whose caches no longer name `n`): the parent's slot and a
  /// real `c`'s parent link change, nothing else.
  lemma TakeEffect(ns: seq<Node>, n: int, c: int)
    requires 0 < n < |ns| && 0 <= c < |ns| && 0 <= ns[n].parent < |ns|
    requires var par := ns[n].parent;
      && par != n && c != n && (c != par || c == 0)
      && (par == 0 ==> ns[0].left != n && ns[0].right != n)
      && (par != 0 ==> ns[par].left == n || ns[par].right == n)
    requires IsNilWord(ns[c].color) <==> c == 0
    ensures var par, r := ns[n].parent, TakeNodeLinks(ns, n, c);
      && r[0] == ns[0]
      && (par != 0 ==> r[par] == if ns[par].left == n then ns[par].(left := c) else ns[par].(right := c))
      && (c != 0 ==> r[c] == ns[c].(parent := par))
      && (forall i :: 0 <= i < |ns| && i != par && i != c ==> r[i] == ns[i])
  {
  }

  /// The caches after announcing the removal of `x`, as Spliced states
  /// them when `x` has at most one child.
  lemma SpliceSentinel(nodes: seq<Node>, spans: seq<Span>, order: seq<int>, x: int)
    requires Wf(nodes, spans, order) && Live(nodes, spans, order, x)
    requires nodes[x].left == 0 || nodes[x].right == 0
    ensures var c := if nodes[x].left == 0 then nodes[x].right else nodes[x].left;
      var succ, pred := Succ(spans, order, x), Pred(spans, order, x);
      SentinelAfterExtract(nodes, x, succ, pred, true)
        == nodes[0].(left := if nodes[0].left == x then succ else nodes[0].left,
                     right := if nodes[0].right == x then pred else nodes[0].right,
                     parent := if nodes[0].parent == x then c else nodes[0].parent)
  {
    NodeOkOf(nodes, spans, order, x);
    ExtremeNeighbour(nodes, spans, order, x);
    NilIff(nodes, spans, order, nodes[x].left);
    NilIff(nodes, spans, order, nodes[x].right);
  }

  /// With at most one child, extract_node hands `x`'s place to that child
  /// (or the sentinel).
  lemma OneChildCase(nodes: seq<Node>, x: int, lm: int, rm: int, fixed: bool)
    requires 0 < x < |nodes| && 0 <= nodes[x].left < |nodes| && 0 <= nodes[x].right < |nodes|
    requires IsNilWord(nodes[nodes[x].left].color) <==> nodes[x].left == 0
    requires IsNilWord(nodes[nodes[x].right].color) <==> nodes[x].right == 0
    requires nodes[x].left == 0 || nodes[x].right == 0
    ensures var c := if nodes[x].left == 0 then nodes[x].right else nodes[x].left;
      ExtractLinks(nodes, x, lm, rm, fixed)
        == TakeNodeLinks(nodes[0 := SentinelAfterExtract(nodes, x, lm, rm, fixed)], x, c)
  {
  }

  /// The code of extract_node in its corrected form splices out a node
  /// with at most one child as Spliced says.
  lemma SpliceEffect(nodes: seq<Node>, spans: seq<Span>, order: seq<int>, x: int)
    requires Wf(nodes, spans, order) && Live(nodes, spans, order, x)
    requires nodes[x].left == 0 || nodes[x].right == 0
    ensures var c := if nodes[x].left == 0 then nodes[x].right else nodes[x].left;
      Spliced(nodes, x, c, nodes[x].parent, Succ(spans, order, x), Pred(spans, order, x),
              ExtractLinks(nodes, x, Succ(spans, order, x), Pred(spans, order, x), true))
  {
    NodeOkOf(nodes, spans, order, x);
    var nd := nodes[x];
    var c := if nd.left == 0 then nd.right else nd.left;
    var succ, pred := Succ(spans, order, x), Pred(spans, order, x);
    SpliceSentinel(nodes, spans, order, x);
    NilIff(nodes, spans, order, nd.left);
    NilIff(nodes, spans, order, nd.right);
    ExtremeNeighbour(nodes, spans, order, x);
    var par := nd.parent;
    if par != 0 {
      NodeOkOf(nodes, spans, order, par);
    }
    assert succ != x && pred != x;
    OneChildCase(nodes, x, succ, pred, true);
    SplicedByTake(nodes, x, c, succ, pred, SentinelAfterExtract(nodes, x, succ, pred, true));
  }

  /// Once the caches name `succ`, `pred` and `c` in place of `x`, taking
  /// `x`'s links for its only child `c` splices `x` out.
  lemma SplicedByTake(nodes: seq<Node>, x: int, c: int, succ: int, pred: int, s0: Node)
    requires 0 < x < |nodes| && 0 <= c < |nodes| && 0 <= nodes[x].parent < |nodes|
    requires var par := nodes[x].parent;
      && c != x && par != x && (c != par || c == 0) && succ != x && pred != x
      && (par != 0 ==> nodes[par].left == x || nodes[par].right == x)
    requires c != 0 ==> !IsNilWord(nodes[c].color)
    requires IsNilWord(nodes[0].color)
    requires s0 == nodes[0].(left := if nodes[0].left == x then succ else nodes[0].left,
                             right := if nodes[0].right == x then pred else nodes[0].right,
                             parent := if nodes[0].parent == x then c else nodes[0].parent)
    ensures Spliced(nodes, x, c, nodes[x].parent, succ, pred, TakeNodeLinks(nodes[0 := s0], x, c))
  {
    TakeEffect(nodes[0 := s0], x, c);
  }

  /// The premises shared by the per-node steps of a splice.
  ghost predicate SpliceStep(nodes: seq<Node>, spans: seq<Span>, order: seq<int>, x: int, nodes1: seq<Node>)
  {
    && Wf(nodes, spans, order) && Live(nodes, spans, order, x)
    && (nodes[x].left == 0 || nodes[x].right == 0)
    && Spliced(nodes, x, if nodes[x].left == 0 then nodes[x].right else nodes[x].left, nodes[x].parent,
               Succ(spans, order, x), Pred(spans, order, x), nodes1)
  }

  /// The local facts about a live node `m` that the per-node steps use in
  /// place of the whole invariant: `m` checks out, and its children's
  /// intervals hold their own positions.
  ghost predicate Around(nodes: seq<Node>, spans: seq<Span>, order: seq<int>, m: int)
  {
    && 0 < m < |nodes| == |spans| && Live(nodes, spans, order, m) && NodeOk(nodes, spans, order, m)
    && (nodes[m].left != 0 ==> spans[nodes[m].left].lo <= spans[nodes[m].left].pos < spans[nodes[m].left].hi)
    && (nodes[m].right != 0 ==> spans[nodes[m].right].lo <= spans[nodes[m].right].pos < spans[nodes[m].right].hi)
  }

  lemma AroundOf(nodes: seq<Node>, spans: seq<Span>, order: seq<int>, m: int)
    requires Wf(nodes, spans, order) && Live(nodes, spans, order, m)
    ensures Around(nodes, spans, order, m)
  {
    NodeOkOf(nodes, spans, order, m);
    var l, r := nodes[m].left, nodes[m].right;
    if l != 0 {
      NodeOkOf(nodes, spans, order, l);
    }
    if r != 0 {
      NodeOkOf(nodes, spans, order, r);
    }
  }

  /// A node away from the splice keeps its links; its interval and those
  /// of its neighbours move alike.
  lemma SpliceOtherCore(nodes: seq<Node>, spans: seq<Span>, order: seq<int>, x: int, c: int, par: int,
                        succ: int, pred: int, nodes1: seq<Node>, m: int)
    requires Spliced(nodes, x, c, par, succ, pred, nodes1) && nodes[x].parent == par
    requires Around(nodes, spans, order, m) && Live(nodes, spans, order, x)
    requires m != x && m != par && m != c && (c != 0 ==> nodes[c].parent == x)
    requires par != 0 ==> nodes[par].left == x || nodes[par].right == x
    requires (nodes[x].left == 0 || nodes[x].right == 0) && c == (if nodes[x].left == 0 then nodes[x].right else nodes[x].left)
    ensures NodeOk(nodes1, SpansAfterExtract(spans, x, false, 0), OrderAfterExtract(order, spans[x].pos), m)
  {
    if spans[m].pos > spans[x].pos {
      SpliceOtherAfter(nodes, spans, order, x, c, par, succ, pred, nodes1, m);
    } else {
      assert spans[m].pos < spans[x].pos;
      SpliceOtherBefore(nodes, spans, order, x, c, par, succ, pred, nodes1, m);
    }
  }

  /// A node after `x`: its interval and its right neighbour's move down.
  lemma SpliceOtherAfter(nodes: seq<Node>, spans: seq<Span>, order: seq<int>, x: int, c: int, par: int,
                        succ: int, pred: int, nodes1: seq<Node>, m: int)
    requires Spliced(nodes, x, c, par, succ, pred, nodes1) && nodes[x].parent == par
    requires Around(nodes, spans, order, m) && Live(nodes, spans, order, x)
    requires m != x && m != par && m != c && (c != 0 ==> nodes[c].parent == x)
    requires par != 0 ==> nodes[par].left == x || nodes[par].right == x
    requires (nodes[x].left == 0 || nodes[x].right == 0) && c == (if nodes[x].left == 0 then nodes[x].right else nodes[x].left)
    requires spans[m].pos > spans[x].pos
    ensures NodeOk(nodes1, SpansAfterExtract(spans, x, false, 0), OrderAfterExtract(order, spans[x].pos), m)
  {
    var l, r, pm := nodes[m].left, nodes[m].right, nodes[m].parent;
    var p := spans[x].pos;
    var spans1 := SpansAfterExtract(spans, x, false, 0);
    assert spans1[m] == Span(DropBound(spans[m].lo, p), spans[m].pos - 1, spans[m].hi - 1);
    if r != 0 {
      assert spans1[r] == Span(spans[r].lo - 1, spans[r].pos - 1, spans[r].hi - 1);
    }
    LiveAfterExtract(nodes1, spans, order, x, false, 0, m);
    if l != 0 {
      LiveAfterExtract(nodes1, spans, order, x, false, 0, l);
    }
    if r != 0 {
      LiveAfterExtract(nodes1, spans, order, x, false, 0, r);
    }
    if pm != 0 {
      LiveAfterExtract(nodes1, spans, order, x, false, 0, pm);
    }
  }

  /// A node before `x`: its interval keeps its start and position, and its
  /// left neighbour's stays put.
  lemma SpliceOtherBefore(nodes: seq<Node>, spans: seq<Span>, order: seq<int>, x: int, c: int, par: int,
                        succ: int, pred: int, nodes1: seq<Node>, m: int)
    requires Spliced(nodes, x, c, par, succ, pred, nodes1) && nodes[x].parent == par
    requires Around(nodes, spans, order, m) && Live(nodes, spans, order, x)
    requires m != x && m != par && m != c && (c != 0 ==> nodes[c].parent == x)
    requires par != 0 ==> nodes[par].left == x || nodes[par].right == x
    requires (nodes[x].left == 0 || nodes[x].right == 0) && c == (if nodes[x].left == 0 then nodes[x].right else nodes[x].left)
    requires spans[m].pos < spans[x].pos
    ensures NodeOk(nodes1, SpansAfterExtract(spans, x, false, 0), OrderAfterExtract(order, spans[x].pos), m)
  {
    var l, r, pm := nodes[m].left, nodes[m].right, nodes[m].parent;
    var p := spans[x].pos;
    var spans1 := SpansAfterExtract(spans, x, false, 0);
    assert spans1[m] == Span(spans[m].lo, spans[m].pos, DropBound(spans[m].hi, p));
    if l != 0 {
      assert spans1[l] == Span(spans[l].lo, spans[l].pos, spans[l].hi);
    }
    LiveAfterExtract(nodes1, spans, order, x, false, 0, m);
    if l != 0 {
      LiveAfterExtract(nodes1, spans, order, x, false, 0, l);
    }
    if r != 0 {
      LiveAfterExtract(nodes1, spans, order, x, false, 0, r);
    }
    if pm != 0 {
      LiveAfterExtract(nodes1, spans, order, x, false, 0, pm);
    }
  }

  lemma SpliceOther(nodes: seq<Node>, spans: seq<Span>, order: seq<int>, x: int, nodes1: seq<Node>, m: int)
    requires SpliceStep(nodes, spans, order, x, nodes1)
    requires Live(nodes, spans, order, m) && m != x && m != nodes[x].parent
    requires m != (if nodes[x].left == 0 then nodes[x].right else nodes[x].left)
    ensures NodeOk(nodes1, SpansAfterExtract(spans, x, false, 0), OrderAfterExtract(order, spans[x].pos), m)
  {
    AroundOf(nodes, spans, order, m);
    NodeOkOf(nodes, spans, order, x);
    SpliceOtherCore(nodes, spans, order, x, if nodes[x].left == 0 then nodes[x].right else nodes[x].left,
                    nodes[x].parent, Succ(spans, order, x), Pred(spans, order, x), nodes1, m);
  }

  /// The parent of `x` holds the replacing child in `x`'s slot.
  lemma SpliceAtParentCore(nodes: seq<Node>, spans: seq<Span>, order: seq<int>, x: int, c: int, par: int,
                           succ: int, pred: int, nodes1: seq<Node>)
    requires Spliced(nodes, x, c, par, succ, pred, nodes1) && nodes[x].parent == par && par != 0
    requires Around(nodes, spans, order, par) && Live(nodes, spans, order, x) && NodeOk(nodes, spans, order, x)
    requires (nodes[x].left == 0 || nodes[x].right == 0) && c == (if nodes[x].left == 0 then nodes[x].right else nodes[x].left)
    requires c != 0 ==> nodes[par].parent != c
    ensures NodeOk(nodes1, SpansAfterExtract(spans, x, false, 0), OrderAfterExtract(order, spans[x].pos), par)
  {
    if nodes[par].left == x {
      SpliceLeftOfParent(nodes, spans, order, x, c, par, succ, pred, nodes1);
    } else {
      SpliceRightOfParent(nodes, spans, order, x, c, par, succ, pred, nodes1);
    }
  }

  /// The case of SpliceAtParentCore where `x` is its parent's left child.
  lemma SpliceLeftOfParent(nodes: seq<Node>, spans: seq<Span>, order: seq<int>, x: int, c: int, par: int,
                           succ: int, pred: int, nodes1: seq<Node>)
    requires Spliced(nodes, x, c, par, succ, pred, nodes1) && nodes[x].parent == par && par != 0
    requires Around(nodes, spans, order, par) && Live(nodes, spans, order, x) && NodeOk(nodes, spans, order, x)
    requires (nodes[x].left == 0 || nodes[x].right == 0) && c == (if nodes[x].left == 0 then nodes[x].right else nodes[x].left)
    requires c != 0 ==> nodes[par].parent != c
    requires nodes[par].left == x
    ensures NodeOk(nodes1, SpansAfterExtract(spans, x, false, 0), OrderAfterExtract(order, spans[x].pos), par)
  {
    var r, pm := nodes[par].right, nodes[par].parent;
    LiveAfterExtract(nodes1, spans, order, x, false, 0, par);
    if c != 0 {
      LiveAfterExtract(nodes1, spans, order, x, false, 0, c);
    }
    if r != 0 {
      LiveAfterExtract(nodes1, spans, order, x, false, 0, r);
    }
    if pm != 0 {
      LiveAfterExtract(nodes1, spans, order, x, false, 0, pm);
    }
  }

  /// The case of SpliceAtParentCore where `x` is its parent's right child.
  lemma SpliceRightOfParent(nodes: seq<Node>, spans: seq<Span>, order: seq<int>, x: int, c: int, par: int,
                            succ: int, pred: int, nodes1: seq<Node>)
    requires Spliced(nodes, x, c, par, succ, pred, nodes1) && nodes[x].parent == par && par != 0
    requires Around(nodes, spans, order, par) && Live(nodes, spans, order, x) && NodeOk(nodes, spans, order, x)
    requires (nodes[x].left == 0 || nodes[x].right == 0) && c == (if nodes[x].left == 0 then nodes[x].right else nodes[x].left)
    requires c != 0 ==> nodes[par].parent != c
    requires nodes[par].left != x
    ensures NodeOk(nodes1, SpansAfterExtract(spans, x, false, 0), OrderAfterExtract(order, spans[x].pos), par)
  {
    var l, pm := nodes[par].left, nodes[par].parent;
    LiveAfterExtract(nodes1, spans, order, x, false, 0, par);
    if c != 0 {
      LiveAfterExtract(nodes1, spans, order, x, false, 0, c);
    }
    if l != 0 {
      LiveAfterExtract(nodes1, spans, order, x, false, 0, l);
    }
    if pm != 0 {
      LiveAfterExtract(nodes1, spans, order, x, false, 0, pm);
    }
  }

  lemma SpliceAtParent(nodes: seq<Node>, spans: seq<Span>, order: seq<int>, x: int, nodes1: seq<Node>)
    requires SpliceStep(nodes, spans, order, x, nodes1) && nodes[x].parent != 0
    ensures NodeOk(nodes1, SpansAfterExtract(spans, x, false, 0), OrderAfterExtract(order, spans[x].pos), nodes[x].parent)
  {
    var par := nodes[x].parent;
    var c := if nodes[x].left == 0 then nodes[x].right else nodes[x].left;
    NodeOkOf(nodes, spans, order, x);
    AroundOf(nodes, spans, order, par);
    BelowParent(nodes, spans, order, x);
    if nodes[par].parent != 0 {
      BelowParent(nodes, spans, order, par);
    }
    if c != 0 {
      NodeOkOf(nodes, spans, order, c);
      BelowParent(nodes, spans, order, c);
    }
    SpliceAtParentCore(nodes, spans, order, x, c, par, Succ(spans, order, x), Pred(spans, order, x), nodes1);
  }

  /// The replacing child hangs below `x`'s parent, or becomes the root.
  lemma SpliceAtChildCore(nodes: seq<Node>, spans: seq<Span>, order: seq<int>, x: int, c: int, par: int,
                          succ: int, pred: int, nodes1: seq<Node>)
    requires Spliced(nodes, x, c, par, succ, pred, nodes1) && nodes[x].parent == par && c != 0
    requires Around(nodes, spans, order, c) && Live(nodes, spans, order, x) && NodeOk(nodes, spans, order, x)
    requires (nodes[x].left == 0 || nodes[x].right == 0) && c == (if nodes[x].left == 0 then nodes[x].right else nodes[x].left)
    requires par != 0 ==> NodeOk(nodes, spans, order, par)
    ensures NodeOk(nodes1, SpansAfterExtract(spans, x, false, 0), OrderAfterExtract(order, spans[x].pos), c)
  {
    var l, r := nodes[c].left, nodes[c].right;
    LiveAfterExtract(nodes1, spans, order, x, false, 0, c);
    if l != 0 {
      LiveAfterExtract(nodes1, spans, order, x, false, 0, l);
    }
    if r != 0 {
      LiveAfterExtract(nodes1, spans, order, x, false, 0, r);
    }
    if par != 0 {
      LiveAfterExtract(nodes1, spans, order, x, false, 0, par);
    }
  }

  lemma SpliceAtChild(nodes: seq<Node>, spans: seq<Span>, order: seq<int>, x: int, nodes1: seq<Node>)
    requires SpliceStep(nodes, spans, order, x, nodes1)
    requires (if nodes[x].left == 0 then nodes[x].right else nodes[x].left) != 0
    ensures NodeOk(nodes1, SpansAfterExtract(spans, x, false, 0), OrderAfterExtract(order, spans[x].pos),
                   if nodes[x].left == 0 then nodes[x].right else nodes[x].left)
  {
    var par := nodes[x].parent;
    var c := if nodes[x].left == 0 then nodes[x].right else nodes[x].left;
    NodeOkOf(nodes, spans, order, x);
    AroundOf(nodes, spans, order, c);
    if par != 0 {
      NodeOkOf(nodes, spans, order, par);
    }
    SpliceAtChildCore(nodes, spans, order, x, c, par, Succ(spans, order, x), Pred(spans, order, x), nodes1);
  }

  /// The sentinel caches the new root, minimum and maximum.
  lemma SpliceSentinelOk(nodes: seq<Node>, spans: seq<Span>, order: seq<int>, x: int, nodes1: seq<Node>)
    requires SpliceStep(nodes, spans, order, x, nodes1)
    ensures SentinelOk(nodes1, SpansAfterExtract(spans, x, false, 0), OrderAfterExtract(order, spans[x].pos))
  {
    var p := spans[x].pos;
    var spans1, order1 := SpansAfterExtract(spans, x, false, 0), OrderAfterExtract(order, p);
    var c := if nodes[x].left == 0 then nodes[x].right else nodes[x].left;
    var root := nodes[0].parent;
    NodeOkOf(nodes, spans, order, x);
    ExtremeNeighbour(nodes, spans, order, x);
    if |order1| > 0 {
      if root == x {
        assert c != 0;
        NodeOkOf(nodes, spans, order, c);
        LiveAfterExtract(nodes1, spans, order, x, false, 0, c);
      } else {
        LiveAfterExtract(nodes1, spans, order, x, false, 0, root);
      }
      assert nodes1[0].left == order1[0];
      assert nodes1[0].right == order1[|order1| - 1];
    }
  }

  /// Every node live after the splice checks out.
  lemma SpliceEach(nodes: seq<Node>, spans: seq<Span>, order: seq<int>, x: int, nodes1: seq<Node>)
    requires SpliceStep(nodes, spans, order, x, nodes1)
    ensures AllNodesOk(nodes1, SpansAfterExtract(spans, x, false, 0), OrderAfterExtract(order, spans[x].pos))
  {
    var spans1, order1 := SpansAfterExtract(spans, x, false, 0), OrderAfterExtract(order, spans[x].pos);
    var c := if nodes[x].left == 0 then nodes[x].right else nodes[x].left;
    forall m | Live(nodes1, spans1, order1, m)
      ensures NodeOk(nodes1, spans1, order1, m)
    {
      LiveBeforeExtract(nodes, spans, order, x, false, 0, m);
      if m == nodes[x].parent {
        SpliceAtParent(nodes, spans, order, x, nodes1);
      } else if m == c {
        SpliceAtChild(nodes, spans, order, x, nodes1);
      } else {
        SpliceOther(nodes, spans, order, x, nodes1, m);
      }
    }
  }

  /// Extracting a node with at most one child keeps the arena well formed
  /// and removes its value from the contents.
  lemma SpliceWf(nodes: seq<Node>, spans: seq<Span>, order: seq<int>, x: int)
    requires Wf(nodes, spans, order) && Live(nodes, spans, order, x)
    requires nodes[x].left == 0 || nodes[x].right == 0
    ensures var nodes1, spans1, order1 := ExtractLinks(nodes, x, Succ(spans, order, x), Pred(spans, order, x), true),
        SpansAfterExtract(spans, x, false, 0), OrderAfterExtract(order, spans[x].pos);
      && Wf(nodes1, spans1, order1)
      && Contents(nodes1, order1) == RbSpec.RemoveAt(Contents(nodes, order), spans[x].pos)
  {
    var nodes1 := ExtractLinks(nodes, x, Succ(spans, order, x), Pred(spans, order, x), true);
    var spans1, order1 := SpansAfterExtract(spans, x, false, 0), OrderAfterExtract(order, spans[x].pos);
    SpliceEffect(nodes, spans, order, x);
    assert SpliceStep(nodes, spans, order, x, nodes1);
    SpliceSentinelOk(nodes, spans, order, x, nodes1);
    SpliceEach(nodes, spans, order, x, nodes1);
    ExtractOrderOk(nodes, spans, order, x, nodes1, spans1);
    RbSpec.RemoveAtSorted(Contents(nodes, order), spans[x].pos);
  }

  /// The leftmost node of `n`'s subtree stands first in its interval, has
  /// no left child, and is `n` itself or the left child of a node on the
  /// left spine of `n`'s subtree.
  lemma {:induction false} LeftChain(nodes: seq<Node>, spans: seq<Span>, order: seq<int>, n: int)
    requires Wf(nodes, spans, order) && Live(nodes, spans, order, n)
    ensures 0 <= spans[n].lo < |order|
    ensures var m := order[spans[n].lo];
      && Live(nodes, spans, order, m) && nodes[m].left == 0
      && spans[m].lo == spans[m].pos == spans[n].lo && spans[m].hi <= spans[n].hi
      && (m != n ==>
            var q := nodes[m].parent;
            && 0 < q < |nodes| && Live(nodes, spans, order, q) && nodes[q].left == m
            && spans[q].lo == spans[n].lo && spans[q].pos == spans[m].hi
            && (q == n || spans[q].hi <= spans[n].pos))
    decreases spans[n].hi - spans[n].lo
  {
    NodeOkOf(nodes, spans, order, n);
    var l := nodes[n].left;
    if l != 0 {
      NodeOkOf(nodes, spans, order, l);
      LeftChain(nodes, spans, order, l);
      var m := order[spans[n].lo];
      NodeOkOf(nodes, spans, order, m);
    }
  }

  /// The outcome of extracting `x` with two children through its
  /// successor `s`, slot by slot: after MovedSlot, `s` takes `x`'s place
  /// below `x`'s parent `par`, `x`'s left subtree and `x`'s colour.  `x`'s
  /// own slot is left as it was.
  ghost function ReplacedSlot(nodes: seq<Node>, x: int, s: int, z: Node, i: int): Node
    requires 0 < x < |nodes| && 0 < s < |nodes| && 0 <= i < |nodes|
  {
    var nd := nodes[x];
    var xl, par := nd.left, nd.parent;
    var m := MovedSlot(nodes, x, s, z, i);
    if i == s then Node(m.value, SetColorWord(m.color, ColorOf(nd.color)), xl, m.right, par)
    else if i == xl then m.(parent := s)
    else if i == par && par != 0 then (if m.left == x then m.(left := s) else m.(right := s))
    else m
  }

  ghost predicate Replaced(nodes: seq<Node>, x: int, s: int, z: Node, nodes1: seq<Node>)
  {
    && 0 < x < |nodes| && 0 < s < |nodes| && |nodes1| == |nodes|
    && forall i :: 0 <= i < |nodes| ==> nodes1[i] == ReplacedSlot(nodes, x, s, z, i)
  }

  /// What the link writes of the two-children case rely on: the nodes
  /// they touch are distinct (the sentinel aside), real nodes are not
  /// marked nil, and every link written over held what the code expects.
  ghost predicate ReplaceFacts(nodes: seq<Node>, x: int, s: int, z: Node)
  {
    && 0 < x < |nodes| && 0 < s < |nodes|
    && var nd, ns := nodes[x], nodes[s];
       var xl, xr, par, sp, f := nd.left, nd.right, nd.parent, ns.parent, ns.right;
       && 0 < xl < |nodes| && 0 < xr < |nodes| && 0 <= par < |nodes| && 0 < sp < |nodes| && 0 <= f < |nodes|
       && x != s && x != xl && x != xr && x != par && x != f && xl != xr && xl != par && xr != par
       && s != xl && s != par && s != f && f != xl && (f != par || f == 0) && f != xr && f != sp
       && sp != xl && sp != par && sp != s
       && nodes[xl].parent == x && (sp == x <==> s == xr)
       && (sp != x ==> nodes[sp].left == s)
       && (f != 0 ==> nodes[f].parent == s && !IsNilWord(nodes[f].color))
       && IsNilWord(z.color) && !IsNilWord(ns.color)
       && (par == 0 ==> z.left != x && z.right != x)
       && (par != 0 ==> nodes[par].left == x || nodes[par].right == x)
  }

  /// The arena once SuccessorOut has run in the corrected form, slot by
  /// slot.
  ghost function MovedSlot(nodes: seq<Node>, x: int, s: int, z: Node, i: int): Node
    requires 0 < x < |nodes| && 0 < s < |nodes| && 0 <= i < |nodes|
  {
    var nd, ns := nodes[x], nodes[s];
    var xr, sp, f := nd.right, ns.parent, ns.right;
    if i == 0 then z
    else if sp == x then nodes[i]
    else if i == s then ns.(right := xr)
    else if i == xr then (if sp == xr then nodes[xr].(left := f, parent := s) else nodes[xr].(parent := s))
    else if i == sp then nodes[sp].(left := f)
    else if i == f then nodes[f].(parent := sp)
    else nodes[i]
  }

  ghost predicate Moved(nodes: seq<Node>, x: int, s: int, z: Node, n1: seq<Node>)
    requires 0 < x < |nodes| && 0 < s < |nodes|
  {
    && |n1| == |nodes|
    && forall i :: 0 <= i < |nodes| ==> n1[i] == MovedSlot(nodes, x, s, z, i)
  }

  /// SuccessorOut when the successor is `x`'s right child: nothing
  /// changes, since a real `f` already has `s` as parent.
  lemma SuccessorOutNear(nodes: seq<Node>, x: int, s: int, z: Node)
    requires ReplaceFacts(nodes, x, s, z) && nodes[s].parent == x
    ensures Moved(nodes, x, s, z, SuccessorOut(nodes[0 := z], x, s, true))
  {
    var n0 := nodes[0 := z];
    var f := nodes[s].right;
    if f != 0 {
      assert At(n0, f) == nodes[f];
      assert n0[f := n0[f].(parent := s)] == n0;
    }
    assert SuccessorOut(n0, x, s, true) == n0;
  }

  /// SuccessorOut when the successor lies deeper: its parent `sp` takes
  /// `f` as left child, `f` takes `sp` as parent, `s` takes `x`'s right
  /// child, which takes `s` as parent.
  lemma SuccessorOutDeep(nodes: seq<Node>, x: int, s: int, z: Node)
    requires ReplaceFacts(nodes, x, s, z) && nodes[s].parent != x
    ensures Moved(nodes, x, s, z, SuccessorOut(nodes[0 := z], x, s, true))
  {
    var n0 := nodes[0 := z];
    var nd, ns := nodes[x], nodes[s];
    var xr, sp, f := nd.right, ns.parent, ns.right;
    var t := TakeNodeLinks(n0, s, f);
    TakeEffect(n0, s, f);
    assert t[s] == ns && t[x] == nd && t[sp] == nodes[sp].(left := f);
    var t2 := t[s := ns.(right := xr)];
    var r := t2[xr := t2[xr].(parent := s)];
    assert SuccessorOut(n0, x, s, true) == r;
    forall i | 0 <= i < |nodes|
      ensures r[i] == MovedSlot(nodes, x, s, z, i)
    {
    }
  }

  /// SuccessorIn slot by slot, on any arena where `x`, its parent `par`,
  /// its left child `xl` and `s` are distinct and linked as expected.
  lemma SuccessorInSlots(n1: seq<Node>, x: int, s: int)
    requires 0 < x < |n1| && 0 < s < |n1|
    requires var xl, par := n1[x].left, n1[x].parent;
      && 0 < xl < |n1| && 0 <= par < |n1|
      && x != s && x != xl && x != par && s != xl && s != par && xl != par
      && !IsNilWord(n1[s].color)
      && (par == 0 ==> n1[0].left != x && n1[0].right != x)
      && (par != 0 ==> n1[par].left == x || n1[par].right == x)
    ensures var nd, r := n1[x], SuccessorIn(n1, x, s);
      var xl, par := nd.left, nd.parent;
      && |r| == |n1|
      && forall i :: 0 <= i < |n1| ==>
        r[i] == (if i == s then Node(n1[s].value, SetColorWord(n1[s].color, ColorOf(nd.color)), xl, n1[s].right, par)
                 else if i == xl then n1[xl].(parent := s)
                 else if i == par && par != 0 then
                   (if n1[par].left == x then n1[par].(left := s) else n1[par].(right := s))
                 else n1[i])
  {
    SuccessorLinkedSlots(n1, x, s);
  }

  /// SuccessorLinked slot by slot: `s` takes `x`'s parent and left child,
  /// which both point back at `s`.
  lemma SuccessorLinkedSlots(n1: seq<Node>, x: int, s: int)
    requires 0 < x < |n1| && 0 < s < |n1|
    requires var xl, par := n1[x].left, n1[x].parent;
      && 0 < xl < |n1| && 0 <= par < |n1|
      && x != s && x != xl && x != par && s != xl && s != par && xl != par
      && !IsNilWord(n1[s].color)
      && (par == 0 ==> n1[0].left != x && n1[0].right != x)
      && (par != 0 ==> n1[par].left == x || n1[par].right == x)
    ensures var nd, n4 := n1[x], SuccessorLinked(n1, x, s);
      var xl, par := nd.left, nd.parent;
      && n4[s] == n1[s].(parent := par, left := xl) && n4[xl] == n1[xl].(parent := s) && n4[x] == nd
      && (par != 0 ==> n4[par] == if n1[par].left == x then n1[par].(left := s) else n1[par].(right := s))
      && forall i :: 0 <= i < |n1| && i != par && i != s && i != xl ==> n4[i] == n1[i]
  {
    var nd := n1[x];
    var xl, par := nd.left, nd.parent;
    var n2 := TakeNodeLinks(n1, x, s);
    TakeEffect(n1, x, s);
    assert n2[x] == nd && n2[xl] == n1[xl];
    var n3 := n2[s := n2[s].(left := xl)];
    var n4 := n3[xl := n3[xl].(parent := s)];
    assert SuccessorLinked(n1, x, s) == n4;
  }

  /// Once the successor has left its place, `x`, its parent, its left
  /// child and `s` are still linked as SuccessorInSlots asks.
  lemma ArriveReady(nodes: seq<Node>, x: int, s: int)
    requires |nodes| > 0 && ReplaceFacts(nodes, x, s, nodes[0])
    ensures var n1 := SuccessorOut(nodes, x, s, true);
      && |n1| == |nodes| && 0 < x < |n1| && 0 < s < |n1|
      && var xl, par := n1[x].left, n1[x].parent;
         && 0 < xl < |n1| && 0 <= par < |n1|
         && x != s && x != xl && x != par && s != xl && s != par && xl != par
         && !IsNilWord(n1[s].color)
         && (par == 0 ==> n1[0].left != x && n1[0].right != x)
         && (par != 0 ==> n1[par].left == x || n1[par].right == x)
  {
    var z := nodes[0];
    assert nodes[0 := z] == nodes;
    if nodes[s].parent == x {
      SuccessorOutNear(nodes, x, s, z);
    } else {
      SuccessorOutDeep(nodes, x, s, z);
    }
    var n1 := SuccessorOut(nodes, x, s, true);
    var nd := nodes[x];
    assert n1[x] == nd by { assert n1[x] == MovedSlot(nodes, x, s, z, x); }
    assert n1[s].color == nodes[s].color by { assert n1[s] == MovedSlot(nodes, x, s, z, s); }
    assert n1[0] == z by { assert n1[0] == MovedSlot(nodes, x, s, z, 0); }
    assert nd.parent != 0 ==> n1[nd.parent] == nodes[nd.parent] by {
      if nd.parent != 0 { assert n1[nd.parent] == MovedSlot(nodes, x, s, z, nd.parent); }
    }
  }

  /// SuccessorIn after SuccessorOut gives the outcome Replaced describes.
  lemma SuccessorInEffect(nodes: seq<Node>, x: int, s: int, z: Node, n1: seq<Node>)
    requires ReplaceFacts(nodes, x, s, z) && Moved(nodes, x, s, z, n1)
    ensures Replaced(nodes, x, s, z, SuccessorIn(n1, x, s))
  {
    var nd, ns := nodes[x], nodes[s];
    var xl, xr, par, sp, f := nd.left, nd.right, nd.parent, ns.parent, ns.right;
    assert n1[x] == nd by { assert n1[x] == MovedSlot(nodes, x, s, z, x); }
    assert n1[xl] == nodes[xl] by { assert n1[xl] == MovedSlot(nodes, x, s, z, xl); }
    assert n1[s].color == ns.color by { assert n1[s] == MovedSlot(nodes, x, s, z, s); }
    assert par != 0 ==> n1[par] == nodes[par] by {
      if par != 0 { assert n1[par] == MovedSlot(nodes, x, s, z, par); }
    }
    assert n1[0] == z by { assert n1[0] == MovedSlot(nodes, x, s, z, 0); }
    SuccessorInSlots(n1, x, s);
    var r := SuccessorIn(n1, x, s);
    forall i | 0 <= i < |nodes|
      ensures r[i] == ReplacedSlot(nodes, x, s, z, i)
    {
      assert n1[i] == MovedSlot(nodes, x, s, z, i);
    }
  }

  /// The local picture around `x` with two children and its successor
  /// `s`: `s` is the leftmost node of `x`'s right subtree, so it has no
  /// left child and is `x`'s right child or the left child of a node `sp`
  /// on the left spine of that subtree; `x`'s parent lies outside `x`'s
  /// interval.
  ghost predicate TwoChild(nodes: seq<Node>, spans: seq<Span>, order: seq<int>, x: int, s: int)
  {
    && 0 < x < |nodes| == |spans| && 0 < s < |nodes|
    && Live(nodes, spans, order, x) && NodeOk(nodes, spans, order, x)
    && nodes[x].left != 0 && nodes[x].right != 0
    && Live(nodes, spans, order, s) && NodeOk(nodes, spans, order, s)
    && spans[s].pos == spans[x].pos + 1 && nodes[s].left == 0 && spans[s].hi <= spans[x].hi
    && IsNilWord(nodes[0].color)
    && var xl, xr, par, sp, f := nodes[x].left, nodes[x].right, nodes[x].parent, nodes[s].parent, nodes[s].right;
       && spans[xl].lo <= spans[xl].pos < spans[xl].hi && !IsNilWord(nodes[xl].color)
       && spans[xr].lo <= spans[xr].pos < spans[xr].hi && !IsNilWord(nodes[xr].color)
       && (f != 0 ==> spans[f].lo <= spans[f].pos < spans[f].hi && !IsNilWord(nodes[f].color))
       && (sp == x <==> s == xr)
       && (sp != x ==>
             && Live(nodes, spans, order, sp) && nodes[sp].left == s && nodes[sp].parent != 0
             && spans[sp].lo == spans[x].pos + 1 && spans[sp].pos == spans[s].hi
             && spans[sp].pos < spans[sp].hi <= spans[x].hi
             && (sp == xr || spans[sp].hi <= spans[xr].pos))
       && (par != 0 ==>
             && spans[par].lo <= spans[par].pos < spans[par].hi
             && (nodes[par].left == x ==> spans[par].pos == spans[x].hi)
             && (nodes[par].right == x ==> spans[par].pos + 1 == spans[x].lo))
  }

  lemma TwoChildOf(nodes: seq<Node>, spans: seq<Span>, order: seq<int>, x: int)
    requires Wf(nodes, spans, order) && Live(nodes, spans, order, x)
    requires nodes[x].left != 0 && nodes[x].right != 0
    ensures TwoChild(nodes, spans, order, x, Succ(spans, order, x))
  {
    AroundOf(nodes, spans, order, x);
    var xl, xr, par := nodes[x].left, nodes[x].right, nodes[x].parent;
    NodeOkOf(nodes, spans, order, xl);
    NodeOkOf(nodes, spans, order, xr);
    LeftChain(nodes, spans, order, xr);
    var s := order[spans[xr].lo];
    assert s == Succ(spans, order, x);
    AroundOf(nodes, spans, order, s);
    if nodes[s].right != 0 {
      NodeOkOf(nodes, spans, order, nodes[s].right);
    }
    var sp := nodes[s].parent;
    if sp != x && s != xr {
      AroundOf(nodes, spans, order, sp);
      if nodes[sp].parent == 0 {
        assert sp == nodes[0].parent;
      }
    }
    if par != 0 {
      NodeOkOf(nodes, spans, order, par);
      AroundOf(nodes, spans, order, par);
    }
  }

  /// The facts the link writes rely on follow from the local picture.
  lemma ReplaceFactsOf(nodes: seq<Node>, spans: seq<Span>, order: seq<int>, x: int, s: int, z: Node)
    requires TwoChild(nodes, spans, order, x, s)
    requires IsNilWord(z.color) && z.left != x && z.right != x
    ensures ReplaceFacts(nodes, x, s, z)
  {
  }

  /// The sentinel after extracting `x` with two children: neither cache of
  /// an extreme moves, and a root `x` gives way to its successor.
  ghost function ReplacedSentinel(nodes: seq<Node>, x: int, s: int): Node
    requires |nodes| > 0
  {
    nodes[0].(parent := if nodes[0].parent == x then s else nodes[0].parent)
  }

  /// extract_node in its corrected form, on a node with two children, has
  /// the effect Replaced describes, with the successor as replacement.
  lemma ReplaceEffect(nodes: seq<Node>, spans: seq<Span>, order: seq<int>, x: int)
    requires Wf(nodes, spans, order) && Live(nodes, spans, order, x)
    requires nodes[x].left != 0 && nodes[x].right != 0
    ensures var s := Succ(spans, order, x);
      && TwoChild(nodes, spans, order, x, s)
      && Replaced(nodes, x, s, ReplacedSentinel(nodes, x, s),
                  ExtractLinks(nodes, x, s, Pred(spans, order, x), true))
  {
    TwoChildOf(nodes, spans, order, x);
    var s, pr := Succ(spans, order, x), Pred(spans, order, x);
    var z := ReplacedSentinel(nodes, x, s);
    var nd := nodes[x];
    assert nodes[0].left != x && nodes[0].right != x;
    assert SentinelAfterExtract(nodes, x, s, pr, true) == z;
    var n0 := nodes[0 := z];
    assert At(n0, x) == nd && At(n0, nd.left) == nodes[nd.left] && At(n0, nd.right) == nodes[nd.right];
    assert ExtractLinks(nodes, x, s, pr, true) == SuccessorIn(SuccessorOut(n0, x, s, true), x, s);
    ReplaceFactsOf(nodes, spans, order, x, s, z);
    if nodes[s].parent == x {
      SuccessorOutNear(nodes, x, s, z);
    } else {
      SuccessorOutDeep(nodes, x, s, z);
    }
    SuccessorInEffect(nodes, x, s, z, SuccessorOut(n0, x, s, true));
  }

  /// The facts every per-node lemma of the two-children case starts from.
  ghost predicate ReplaceStep(nodes: seq<Node>, spans: seq<Span>, order: seq<int>, x: int, nodes1: seq<Node>)
  {
    && Wf(nodes, spans, order) && Live(nodes, spans, order, x)
    && nodes[x].left != 0 && nodes[x].right != 0
    && var s := Succ(spans, order, x);
       && TwoChild(nodes, spans, order, x, s)
       && Replaced(nodes, x, s, ReplacedSentinel(nodes, x, s), nodes1)
  }

  /// The successor stands at `x`'s former index.
  lemma SuccessorLive(nodes: seq<Node>, spans: seq<Span>, order: seq<int>, x: int, s: int, nodes1: seq<Node>)
    requires TwoChild(nodes, spans, order, x, s) && |nodes1| == |nodes|
    ensures Live(nodes1, SpansAfterExtract(spans, x, true, s), OrderAfterExtract(order, spans[x].pos), s)
  {
    var p := spans[x].pos;
    assert OrderAfterExtract(order, p)[p] == order[p + 1];
  }

  /// A node away from the replacement keeps its links, and so do the
  /// links of its neighbours that point back at it.
  lemma ReplaceOtherLinks(nodes: seq<Node>, spans: seq<Span>, order: seq<int>, x: int, s: int,
                          nodes1: seq<Node>, m: int)
    requires TwoChild(nodes, spans, order, x, s) && Replaced(nodes, x, s, ReplacedSentinel(nodes, x, s), nodes1)
    requires Around(nodes, spans, order, m)
    requires m != x && m != s && m != nodes[x].parent && m != nodes[x].left && m != nodes[x].right
    requires m != nodes[s].parent && m != nodes[s].right
    ensures var l, r, pm := nodes[m].left, nodes[m].right, nodes[m].parent;
      && nodes1[m] == nodes[m] && nodes1[0].parent == (if nodes[0].parent == x then s else nodes[0].parent)
      && (l != 0 ==> nodes1[l].parent == m && l != s && l != x)
      && (r != 0 ==> nodes1[r].parent == m && r != s && r != x)
      && (pm != 0 ==> (nodes1[pm].left == m || nodes1[pm].right == m) && pm != s && pm != x)
  {
    var l, r, pm := nodes[m].left, nodes[m].right, nodes[m].parent;
    assert nodes1[m] == ReplacedSlot(nodes, x, s, ReplacedSentinel(nodes, x, s), m);
    assert nodes1[0] == ReplacedSlot(nodes, x, s, ReplacedSentinel(nodes, x, s), 0);
    if l != 0 {
      assert nodes1[l] == ReplacedSlot(nodes, x, s, ReplacedSentinel(nodes, x, s), l);
    }
    if r != 0 {
      assert nodes1[r] == ReplacedSlot(nodes, x, s, ReplacedSentinel(nodes, x, s), r);
    }
    if pm != 0 {
      assert nodes1[pm] == ReplacedSlot(nodes, x, s, ReplacedSentinel(nodes, x, s), pm);
    }
  }

  /// Away from the replacement the intervals of a node and of its
  /// neighbours move alike.
  lemma ReplaceOtherCore(nodes: seq<Node>, spans: seq<Span>, order: seq<int>, x: int, s: int,
                         nodes1: seq<Node>, m: int)
    requires TwoChild(nodes, spans, order, x, s) && |nodes1| == |nodes|
    requires Around(nodes, spans, order, m)
    requires m != x && m != s && m != nodes[x].parent && m != nodes[s].parent
    requires var l, r, pm := nodes[m].left, nodes[m].right, nodes[m].parent;
      && nodes1[m] == nodes[m] && nodes1[0].parent == (if nodes[0].parent == x then s else nodes[0].parent)
      && (l != 0 ==> nodes1[l].parent == m && l != s && l != x)
      && (r != 0 ==> nodes1[r].parent == m && r != s && r != x)
      && (pm != 0 ==> (nodes1[pm].left == m || nodes1[pm].right == m) && pm != s && pm != x)
    ensures NodeOk(nodes1, SpansAfterExtract(spans, x, true, s), OrderAfterExtract(order, spans[x].pos), m)
  {
    if spans[m].pos > spans[x].pos + 1 {
      ReplaceOtherAfter(nodes, spans, order, x, s, nodes1, m);
    } else {
      assert spans[m].pos < spans[x].pos;
      ReplaceOtherBefore(nodes, spans, order, x, s, nodes1, m);
    }
  }

  /// A node after the successor: its interval and its right neighbour's
  /// move down by one.
  lemma ReplaceOtherAfter(nodes: seq<Node>, spans: seq<Span>, order: seq<int>, x: int, s: int,
                         nodes1: seq<Node>, m: int)
    requires TwoChild(nodes, spans, order, x, s) && |nodes1| == |nodes|
    requires Around(nodes, spans, order, m)
    requires m != x && m != s && m != nodes[x].parent && m != nodes[s].parent
    requires var l, r, pm := nodes[m].left, nodes[m].right, nodes[m].parent;
      && nodes1[m] == nodes[m] && nodes1[0].parent == (if nodes[0].parent == x then s else nodes[0].parent)
      && (l != 0 ==> nodes1[l].parent == m && l != s && l != x)
      && (r != 0 ==> nodes1[r].parent == m && r != s && r != x)
      && (pm != 0 ==> (nodes1[pm].left == m || nodes1[pm].right == m) && pm != s && pm != x)
    requires spans[m].pos > spans[x].pos + 1
    ensures NodeOk(nodes1, SpansAfterExtract(spans, x, true, s), OrderAfterExtract(order, spans[x].pos), m)
  {
    var l, r, pm := nodes[m].left, nodes[m].right, nodes[m].parent;
    var p := spans[x].pos;
    var spans1 := SpansAfterExtract(spans, x, true, s);
    assert spans1[m] == Span(DropLo(spans[m].lo, p, true), spans[m].pos - 1, spans[m].hi - 1);
    if r != 0 {
      assert spans1[r] == Span(spans[r].lo - 1, spans[r].pos - 1, spans[r].hi - 1);
    }
    LiveAfterExtract(nodes1, spans, order, x, true, s, m);
    if l != 0 {
      LiveAfterExtract(nodes1, spans, order, x, true, s, l);
    }
    if r != 0 {
      LiveAfterExtract(nodes1, spans, order, x, true, s, r);
    }
    if pm != 0 {
      LiveAfterExtract(nodes1, spans, order, x, true, s, pm);
    }
  }

  /// A node before `x`: its interval keeps its start and position, and its
  /// left neighbour's stays put.
  lemma ReplaceOtherBefore(nodes: seq<Node>, spans: seq<Span>, order: seq<int>, x: int, s: int,
                         nodes1: seq<Node>, m: int)
    requires TwoChild(nodes, spans, order, x, s) && |nodes1| == |nodes|
    requires Around(nodes, spans, order, m)
    requires m != x && m != s && m != nodes[x].parent && m != nodes[s].parent
    requires var l, r, pm := nodes[m].left, nodes[m].right, nodes[m].parent;
      && nodes1[m] == nodes[m] && nodes1[0].parent == (if nodes[0].parent == x then s else nodes[0].parent)
      && (l != 0 ==> nodes1[l].parent == m && l != s && l != x)
      && (r != 0 ==> nodes1[r].parent == m && r != s && r != x)
      && (pm != 0 ==> (nodes1[pm].left == m || nodes1[pm].right == m) && pm != s && pm != x)
    requires spans[m].pos < spans[x].pos
    ensures NodeOk(nodes1, SpansAfterExtract(spans, x, true, s), OrderAfterExtract(order, spans[x].pos), m)
  {
    var l, r, pm := nodes[m].left, nodes[m].right, nodes[m].parent;
    var p := spans[x].pos;
    var spans1 := SpansAfterExtract(spans, x, true, s);
    assert spans1[m] == Span(spans[m].lo, spans[m].pos, DropBound(spans[m].hi, p));
    if l != 0 {
      assert spans1[l] == Span(spans[l].lo, spans[l].pos, spans[l].hi);
    }
    LiveAfterExtract(nodes1, spans, order, x, true, s, m);
    if l != 0 {
      LiveAfterExtract(nodes1, spans, order, x, true, s, l);
    }
    if r != 0 {
      LiveAfterExtract(nodes1, spans, order, x, true, s, r);
    }
    if pm != 0 {
      LiveAfterExtract(nodes1, spans, order, x, true, s, pm);
    }
  }

  lemma ReplaceOther(nodes: seq<Node>, spans: seq<Span>, order: seq<int>, x: int, nodes1: seq<Node>, m: int)
    requires ReplaceStep(nodes, spans, order, x, nodes1) && Live(nodes, spans, order, m)
    requires var s := Succ(spans, order, x);
      && m != x && m != s && m != nodes[x].parent && m != nodes[x].left && m != nodes[x].right
      && m != nodes[s].parent && m != nodes[s].right
    ensures NodeOk(nodes1, SpansAfterExtract(spans, x, true, Succ(spans, order, x)),
                   OrderAfterExtract(order, spans[x].pos), m)
  {
    AroundOf(nodes, spans, order, m);
    ReplaceOtherLinks(nodes, spans, order, x, Succ(spans, order, x), nodes1, m);
    ReplaceOtherCore(nodes, spans, order, x, Succ(spans, order, x), nodes1, m);
  }

  /// The successor takes `x`'s parent, left subtree and colour, and as
  /// right subtree `f` when it was `x`'s right child, `x`'s right subtree
  /// otherwise.
  lemma ReplaceAtSuccLinks(nodes: seq<Node>, spans: seq<Span>, order: seq<int>, x: int, s: int, nodes1: seq<Node>)
    requires TwoChild(nodes, spans, order, x, s) && Replaced(nodes, x, s, ReplacedSentinel(nodes, x, s), nodes1)
    ensures var nd, ns := nodes[x], nodes[s];
      var xl, xr, par, sp, f := nd.left, nd.right, nd.parent, ns.parent, ns.right;
      var rr := if sp == x then f else xr;
      && nodes1[s] == Node(ns.value, SetColorWord(ns.color, ColorOf(nd.color)), xl, rr, par)
      && nodes1[xl].parent == s
      && (rr != 0 ==> nodes1[rr].parent == s)
      && (par != 0 ==> nodes1[par].left == s || nodes1[par].right == s)
      && nodes1[0].parent == (if nodes[0].parent == x then s else nodes[0].parent)
  {
    var z := ReplacedSentinel(nodes, x, s);
    var nd, ns := nodes[x], nodes[s];
    var xl, xr, par, sp, f := nd.left, nd.right, nd.parent, ns.parent, ns.right;
    assert nodes1[s] == ReplacedSlot(nodes, x, s, z, s);
    assert nodes1[xl] == ReplacedSlot(nodes, x, s, z, xl);
    assert nodes1[xr] == ReplacedSlot(nodes, x, s, z, xr);
    assert nodes1[0] == ReplacedSlot(nodes, x, s, z, 0);
    if f != 0 {
      assert nodes1[f] == ReplacedSlot(nodes, x, s, z, f);
    }
    if par != 0 {
      assert nodes1[par] == ReplacedSlot(nodes, x, s, z, par);
    }
  }

  lemma ReplaceAtSuccCore(nodes: seq<Node>, spans: seq<Span>, order: seq<int>, x: int, s: int, nodes1: seq<Node>)
    requires TwoChild(nodes, spans, order, x, s) && |nodes1| == |nodes|
    requires var nd, ns := nodes[x], nodes[s];
      var xl, xr, par, sp, f := nd.left, nd.right, nd.parent, ns.parent, ns.right;
      var rr := if sp == x then f else xr;
      && nodes1[s] == Node(ns.value, SetColorWord(ns.color, ColorOf(nd.color)), xl, rr, par)
      && nodes1[xl].parent == s
      && (rr != 0 ==> nodes1[rr].parent == s)
      && (par != 0 ==> nodes1[par].left == s || nodes1[par].right == s)
      && nodes1[0].parent == (if nodes[0].parent == x then s else nodes[0].parent)
    ensures NodeOk(nodes1, SpansAfterExtract(spans, x, true, s), OrderAfterExtract(order, spans[x].pos), s)
  {
    var nd, ns := nodes[x], nodes[s];
    var xl, xr, par, sp, f := nd.left, nd.right, nd.parent, ns.parent, ns.right;
    var p := spans[x].pos;
    var spans1 := SpansAfterExtract(spans, x, true, s);
    SuccessorLive(nodes, spans, order, x, s, nodes1);
    assert spans1[s] == Span(spans[x].lo, p, spans[x].hi - 1);
    assert spans1[xl] == spans[xl];
    LiveAfterExtract(nodes1, spans, order, x, true, s, xl);
    if sp == x {
      if f != 0 {
        assert spans1[f] == Span(p + 1, spans[f].pos - 1, spans[x].hi - 1);
        LiveAfterExtract(nodes1, spans, order, x, true, s, f);
      }
    } else {
      assert spans1[xr] == Span(p + 1, spans[xr].pos - 1, spans[x].hi - 1);
      LiveAfterExtract(nodes1, spans, order, x, true, s, xr);
    }
    if par != 0 {
      LiveAfterExtract(nodes1, spans, order, x, true, s, par);
    }
  }

  lemma ReplaceAtSucc(nodes: seq<Node>, spans: seq<Span>, order: seq<int>, x: int, nodes1: seq<Node>)
    requires ReplaceStep(nodes, spans, order, x, nodes1)
    ensures var s := Succ(spans, order, x);
      NodeOk(nodes1, SpansAfterExtract(spans, x, true, s), OrderAfterExtract(order, spans[x].pos), s)
  {
    var s := Succ(spans, order, x);
    ReplaceAtSuccLinks(nodes, spans, order, x, s, nodes1);
    ReplaceAtSuccCore(nodes, spans, order, x, s, nodes1);
  }

  /// `x`'s parent holds the successor in `x`'s slot.
  lemma ReplaceAtParentLinks(nodes: seq<Node>, spans: seq<Span>, order: seq<int>, x: int, s: int,
                             nodes1: seq<Node>)
    requires TwoChild(nodes, spans, order, x, s) && Replaced(nodes, x, s, ReplacedSentinel(nodes, x, s), nodes1)
    requires nodes[x].parent != 0 && Around(nodes, spans, order, nodes[x].parent)
    ensures var par := nodes[x].parent;
      var o := if nodes[par].left == x then nodes[par].right else nodes[par].left;
      var pp := nodes[par].parent;
      && nodes1[par] == (if nodes[par].left == x then nodes[par].(left := s) else nodes[par].(right := s))
      && (o != 0 ==> nodes1[o].parent == par && o != s && o != x)
      && (pp != 0 ==> (nodes1[pp].left == par || nodes1[pp].right == par) && pp != s && pp != x)
      && nodes1[s].parent == par && nodes1[0].parent == nodes[0].parent
  {
    var z := ReplacedSentinel(nodes, x, s);
    var par := nodes[x].parent;
    var o := if nodes[par].left == x then nodes[par].right else nodes[par].left;
    var pp := nodes[par].parent;
    assert nodes1[par] == ReplacedSlot(nodes, x, s, z, par);
    assert nodes1[s] == ReplacedSlot(nodes, x, s, z, s);
    assert nodes1[0] == ReplacedSlot(nodes, x, s, z, 0);
    if o != 0 {
      assert nodes1[o] == ReplacedSlot(nodes, x, s, z, o);
    }
    if pp != 0 {
      assert nodes1[pp] == ReplacedSlot(nodes, x, s, z, pp);
    }
  }

  lemma ReplaceAtParentCore(nodes: seq<Node>, spans: seq<Span>, order: seq<int>, x: int, s: int,
                            nodes1: seq<Node>)
    requires TwoChild(nodes, spans, order, x, s) && |nodes1| == |nodes|
    requires nodes[x].parent != 0 && Around(nodes, spans, order, nodes[x].parent)
    requires var par := nodes[x].parent;
      var o := if nodes[par].left == x then nodes[par].right else nodes[par].left;
      var pp := nodes[par].parent;
      && nodes1[par] == (if nodes[par].left == x then nodes[par].(left := s) else nodes[par].(right := s))
      && (o != 0 ==> nodes1[o].parent == par && o != s && o != x)
      && (pp != 0 ==> (nodes1[pp].left == par || nodes1[pp].right == par) && pp != s && pp != x)
      && nodes1[s].parent == par && nodes1[0].parent == nodes[0].parent
    ensures NodeOk(nodes1, SpansAfterExtract(spans, x, true, s), OrderAfterExtract(order, spans[x].pos),
                   nodes[x].parent)
  {
    var par := nodes[x].parent;
    var o := if nodes[par].left == x then nodes[par].right else nodes[par].left;
    var pp := nodes[par].parent;
    var p := spans[x].pos;
    var spans1 := SpansAfterExtract(spans, x, true, s);
    SuccessorLive(nodes, spans, order, x, s, nodes1);
    assert spans1[s] == Span(spans[x].lo, p, spans[x].hi - 1);
    LiveAfterExtract(nodes1, spans, order, x, true, s, par);
    if nodes[par].left == x {
      assert spans1[par] == Span(spans[par].lo, spans[par].pos - 1, spans[par].hi - 1);
      if o != 0 {
        assert spans1[o] == Span(spans[o].lo - 1, spans[o].pos - 1, spans[o].hi - 1);
      }
    } else {
      assert spans1[par] == Span(spans[par].lo, spans[par].pos, spans[par].hi - 1);
      if o != 0 {
        assert spans1[o] == spans[o];
      }
    }
    if o != 0 {
      LiveAfterExtract(nodes1, spans, order, x, true, s, o);
    }
    if pp != 0 {
      LiveAfterExtract(nodes1, spans, order, x, true, s, pp);
    }
  }

  lemma ReplaceAtParent(nodes: seq<Node>, spans: seq<Span>, order: seq<int>, x: int, nodes1: seq<Node>)
    requires ReplaceStep(nodes, spans, order, x, nodes1) && nodes[x].parent != 0
    ensures NodeOk(nodes1, SpansAfterExtract(spans, x, true, Succ(spans, order, x)),
                   OrderAfterExtract(order, spans[x].pos), nodes[x].parent)
  {
    var s := Succ(spans, order, x);
    AroundOf(nodes, spans, order, nodes[x].parent);
    ReplaceAtParentLinks(nodes, spans, order, x, s, nodes1);
    ReplaceAtParentCore(nodes, spans, order, x, s, nodes1);
  }

  /// `x`'s left child hangs below the successor, its interval unchanged.
  lemma ReplaceAtLeftLinks(nodes: seq<Node>, spans: seq<Span>, order: seq<int>, x: int, s: int, nodes1: seq<Node>)
    requires TwoChild(nodes, spans, order, x, s) && Replaced(nodes, x, s, ReplacedSentinel(nodes, x, s), nodes1)
    requires Around(nodes, spans, order, nodes[x].left)
    ensures var xl := nodes[x].left;
      var a, b := nodes[xl].left, nodes[xl].right;
      && nodes1[xl] == nodes[xl].(parent := s) && nodes1[s].left == xl
      && (a != 0 ==> nodes1[a].parent == xl && a != s && a != x)
      && (b != 0 ==> nodes1[b].parent == xl && b != s && b != x)
      && nodes1[0].parent != xl
  {
    var z := ReplacedSentinel(nodes, x, s);
    var xl := nodes[x].left;
    var a, b := nodes[xl].left, nodes[xl].right;
    assert nodes1[xl] == ReplacedSlot(nodes, x, s, z, xl);
    assert nodes1[s] == ReplacedSlot(nodes, x, s, z, s);
    assert nodes1[0] == ReplacedSlot(nodes, x, s, z, 0);
    if a != 0 {
      assert nodes1[a] == ReplacedSlot(nodes, x, s, z, a);
    }
    if b != 0 {
      assert nodes1[b] == ReplacedSlot(nodes, x, s, z, b);
    }
  }

  lemma ReplaceAtLeftCore(nodes: seq<Node>, spans: seq<Span>, order: seq<int>, x: int, s: int, nodes1: seq<Node>)
    requires TwoChild(nodes, spans, order, x, s) && |nodes1| == |nodes|
    requires Around(nodes, spans, order, nodes[x].left)
    requires var xl := nodes[x].left;
      var a, b := nodes[xl].left, nodes[xl].right;
      && nodes1[xl] == nodes[xl].(parent := s) && nodes1[s].left == xl
      && (a != 0 ==> nodes1[a].parent == xl && a != s && a != x)
      && (b != 0 ==> nodes1[b].parent == xl && b != s && b != x)
      && nodes1[0].parent != xl
    ensures NodeOk(nodes1, SpansAfterExtract(spans, x, true, s), OrderAfterExtract(order, spans[x].pos), nodes[x].left)
  {
    var xl := nodes[x].left;
    var a, b := nodes[xl].left, nodes[xl].right;
    var spans1 := SpansAfterExtract(spans, x, true, s);
    SuccessorLive(nodes, spans, order, x, s, nodes1);
    assert spans1[xl] == spans[xl];
    LiveAfterExtract(nodes1, spans, order, x, true, s, xl);
    if a != 0 {
      assert spans1[a] == spans[a];
      LiveAfterExtract(nodes1, spans, order, x, true, s, a);
    }
    if b != 0 {
      assert spans1[b] == spans[b];
      LiveAfterExtract(nodes1, spans, order, x, true, s, b);
    }
  }

  lemma ReplaceAtLeft(nodes: seq<Node>, spans: seq<Span>, order: seq<int>, x: int, nodes1: seq<Node>)
    requires ReplaceStep(nodes, spans, order, x, nodes1)
    ensures NodeOk(nodes1, SpansAfterExtract(spans, x, true, Succ(spans, order, x)),
                   OrderAfterExtract(order, spans[x].pos), nodes[x].left)
  {
    var s := Succ(spans, order, x);
    AroundOf(nodes, spans, order, nodes[x].left);
    ReplaceAtLeftLinks(nodes, spans, order, x, s, nodes1);
    ReplaceAtLeftCore(nodes, spans, order, x, s, nodes1);
  }

  /// A node below which the successor's right subtree `f` is hung: `x`'s
  /// right child or the successor's parent `sp`, when the successor lay
  /// deeper than `x`'s right child.  It takes `f` as left child when it is
  /// `sp`, and the successor as parent when it is `x`'s right child.
  lemma ReplaceAtSpineLinks(nodes: seq<Node>, spans: seq<Span>, order: seq<int>, x: int, s: int,
                            nodes1: seq<Node>, m: int)
    requires TwoChild(nodes, spans, order, x, s) && Replaced(nodes, x, s, ReplacedSentinel(nodes, x, s), nodes1)
    requires nodes[s].parent != x && (m == nodes[x].right || m == nodes[s].parent)
    requires Around(nodes, spans, order, m)
    ensures var sp, f, xr := nodes[s].parent, nodes[s].right, nodes[x].right;
      var a := if m == sp then f else nodes[m].left;
      var b, q := nodes[m].right, if m == xr then s else nodes[m].parent;
      && nodes1[m] == nodes[m].(left := a, parent := q)
      && (a != 0 ==> nodes1[a].parent == m && a != s && a != x)
      && (b != 0 ==> nodes1[b].parent == m && b != s && b != x)
      && q != 0 && (nodes1[q].left == m || nodes1[q].right == m) && q != x
      && nodes1[0].parent != m
  {
    var z := ReplacedSentinel(nodes, x, s);
    var sp, f, xr := nodes[s].parent, nodes[s].right, nodes[x].right;
    var a := if m == sp then f else nodes[m].left;
    var b, q := nodes[m].right, if m == xr then s else nodes[m].parent;
    assert nodes1[m] == ReplacedSlot(nodes, x, s, z, m);
    assert nodes1[q] == ReplacedSlot(nodes, x, s, z, q);
    assert nodes1[0] == ReplacedSlot(nodes, x, s, z, 0);
    if a != 0 {
      assert nodes1[a] == ReplacedSlot(nodes, x, s, z, a);
    }
    if b != 0 {
      assert nodes1[b] == ReplacedSlot(nodes, x, s, z, b);
    }
  }

  lemma ReplaceAtSpineCore(nodes: seq<Node>, spans: seq<Span>, order: seq<int>, x: int, s: int,
                           nodes1: seq<Node>, m: int)
    requires TwoChild(nodes, spans, order, x, s) && |nodes1| == |nodes|
    requires nodes[s].parent != x && (m == nodes[x].right || m == nodes[s].parent)
    requires Around(nodes, spans, order, m)
    requires var sp, f, xr := nodes[s].parent, nodes[s].right, nodes[x].right;
      var a := if m == sp then f else nodes[m].left;
      var b, q := nodes[m].right, if m == xr then s else nodes[m].parent;
      && nodes1[m] == nodes[m].(left := a, parent := q)
      && (a != 0 ==> nodes1[a].parent == m && a != s && a != x)
      && (b != 0 ==> nodes1[b].parent == m && b != s && b != x)
      && q != 0 && (nodes1[q].left == m || nodes1[q].right == m) && q != x
      && nodes1[0].parent != m
    ensures NodeOk(nodes1, SpansAfterExtract(spans, x, true, s), OrderAfterExtract(order, spans[x].pos), m)
  {
    var sp, f, xr := nodes[s].parent, nodes[s].right, nodes[x].right;
    var a := if m == sp then f else nodes[m].left;
    var b, q := nodes[m].right, if m == xr then s else nodes[m].parent;
    var p := spans[x].pos;
    var spans1 := SpansAfterExtract(spans, x, true, s);
    SuccessorLive(nodes, spans, order, x, s, nodes1);
    assert spans1[m] == Span(p + 1, spans[m].pos - 1, spans[m].hi - 1);
    LiveAfterExtract(nodes1, spans, order, x, true, s, m);
    if a != 0 {
      assert spans1[a] == Span(p + 1, spans[a].pos - 1, spans[m].pos - 1);
      LiveAfterExtract(nodes1, spans, order, x, true, s, a);
    }
    if b != 0 {
      assert spans1[b] == Span(spans[b].lo - 1, spans[b].pos - 1, spans[b].hi - 1);
      LiveAfterExtract(nodes1, spans, order, x, true, s, b);
    }
    if q != s {
      LiveAfterExtract(nodes1, spans, order, x, true, s, q);
    }
  }

  lemma ReplaceAtSpine(nodes: seq<Node>, spans: seq<Span>, order: seq<int>, x: int, nodes1: seq<Node>, m: int)
    requires ReplaceStep(nodes, spans, order, x, nodes1)
    requires var s := Succ(spans, order, x);
      nodes[s].parent != x && (m == nodes[x].right || m == nodes[s].parent)
    ensures NodeOk(nodes1, SpansAfterExtract(spans, x, true, Succ(spans, order, x)),
                   OrderAfterExtract(order, spans[x].pos), m)
  {
    var s := Succ(spans, order, x);
    AroundOf(nodes, spans, order, m);
    if m != nodes[x].right {
      var q := nodes[m].parent;
      AroundOf(nodes, spans, order, q);
    }
    ReplaceAtSpineLinks(nodes, spans, order, x, s, nodes1, m);
    ReplaceAtSpineCore(nodes, spans, order, x, s, nodes1, m);
  }

  /// The successor's right subtree `f` moves up one level, to the
  /// successor's former parent (or stays below the successor when it was
  /// `x`'s right child).
  lemma ReplaceAtRestLinks(nodes: seq<Node>, spans: seq<Span>, order: seq<int>, x: int, s: int, nodes1: seq<Node>)
    requires TwoChild(nodes, spans, order, x, s) && Replaced(nodes, x, s, ReplacedSentinel(nodes, x, s), nodes1)
    requires nodes[s].right != 0 && Around(nodes, spans, order, nodes[s].right)
    ensures var sp, f := nodes[s].parent, nodes[s].right;
      var a, b, q := nodes[f].left, nodes[f].right, if sp == x then s else sp;
      && nodes1[f] == nodes[f].(parent := q)
      && (a != 0 ==> nodes1[a].parent == f && a != s && a != x)
      && (b != 0 ==> nodes1[b].parent == f && b != s && b != x)
      && (nodes1[q].left == f || nodes1[q].right == f) && q != x
      && nodes1[0].parent != f
  {
    var z := ReplacedSentinel(nodes, x, s);
    var sp, f := nodes[s].parent, nodes[s].right;
    var a, b := nodes[f].left, nodes[f].right;
    var q := if sp == x then s else sp;
    assert nodes1[f] == ReplacedSlot(nodes, x, s, z, f);
    assert nodes1[q] == ReplacedSlot(nodes, x, s, z, q);
    assert nodes1[0] == ReplacedSlot(nodes, x, s, z, 0);
    if a != 0 {
      assert nodes1[a] == ReplacedSlot(nodes, x, s, z, a);
    }
    if b != 0 {
      assert nodes1[b] == ReplacedSlot(nodes, x, s, z, b);
    }
  }

  lemma ReplaceAtRestCore(nodes: seq<Node>, spans: seq<Span>, order: seq<int>, x: int, s: int, nodes1: seq<Node>)
    requires TwoChild(nodes, spans, order, x, s) && |nodes1| == |nodes|
    requires nodes[s].right != 0 && Around(nodes, spans, order, nodes[s].right)
    requires var sp, f := nodes[s].parent, nodes[s].right;
      var a, b, q := nodes[f].left, nodes[f].right, if sp == x then s else sp;
      && nodes1[f] == nodes[f].(parent := q)
      && (a != 0 ==> nodes1[a].parent == f && a != s && a != x)
      && (b != 0 ==> nodes1[b].parent == f && b != s && b != x)
      && (nodes1[q].left == f || nodes1[q].right == f) && q != x
      && nodes1[0].parent != f
    ensures NodeOk(nodes1, SpansAfterExtract(spans, x, true, s), OrderAfterExtract(order, spans[x].pos), nodes[s].right)
  {
    var sp, f := nodes[s].parent, nodes[s].right;
    var a, b, q := nodes[f].left, nodes[f].right, if sp == x then s else sp;
    var spans1 := SpansAfterExtract(spans, x, true, s);
    SuccessorLive(nodes, spans, order, x, s, nodes1);
    assert spans1[f] == Span(spans[f].lo - 1, spans[f].pos - 1, spans[f].hi - 1);
    LiveAfterExtract(nodes1, spans, order, x, true, s, f);
    if a != 0 {
      assert spans1[a] == Span(spans[a].lo - 1, spans[a].pos - 1, spans[a].hi - 1);
      LiveAfterExtract(nodes1, spans, order, x, true, s, a);
    }
    if b != 0 {
      assert spans1[b] == Span(spans[b].lo - 1, spans[b].pos - 1, spans[b].hi - 1);
      LiveAfterExtract(nodes1, spans, order, x, true, s, b);
    }
    if q != s {
      LiveAfterExtract(nodes1, spans, order, x, true, s, q);
    }
  }

  lemma ReplaceAtRest(nodes: seq<Node>, spans: seq<Span>, order: seq<int>, x: int, nodes1: seq<Node>)
    requires ReplaceStep(nodes, spans, order, x, nodes1)
    requires nodes[Succ(spans, order, x)].right != 0
    ensures var s := Succ(spans, order, x);
      NodeOk(nodes1, SpansAfterExtract(spans, x, true, s), OrderAfterExtract(order, spans[x].pos), nodes[s].right)
  {
    var s := Succ(spans, order, x);
    AroundOf(nodes, spans, order, nodes[s].right);
    ReplaceAtRestLinks(nodes, spans, order, x, s, nodes1);
    ReplaceAtRestCore(nodes, spans, order, x, s, nodes1);
  }

  /// The sentinel still caches the minimum and maximum, which did not
  /// move, and the root, which is the successor when `x` was the root.
  lemma ReplaceSentinelOk(nodes: seq<Node>, spans: seq<Span>, order: seq<int>, x: int, nodes1: seq<Node>)
    requires ReplaceStep(nodes, spans, order, x, nodes1)
    ensures SentinelOk(nodes1, SpansAfterExtract(spans, x, true, Succ(spans, order, x)),
                       OrderAfterExtract(order, spans[x].pos))
  {
    var s, p := Succ(spans, order, x), spans[x].pos;
    var spans1, order1 := SpansAfterExtract(spans, x, true, s), OrderAfterExtract(order, p);
    var root := nodes[0].parent;
    assert nodes1[0] == ReplacedSlot(nodes, x, s, ReplacedSentinel(nodes, x, s), 0);
    if root == x {
      SuccessorLive(nodes, spans, order, x, s, nodes1);
    } else {
      NodeOkOf(nodes, spans, order, root);
      assert root != s;
      LiveAfterExtract(nodes1, spans, order, x, true, s, root);
    }
    assert nodes1[0].left == order1[0];
    assert nodes1[0].right == order1[|order1| - 1];
  }

  /// Every node live after the replacement checks out.
  lemma ReplaceEach(nodes: seq<Node>, spans: seq<Span>, order: seq<int>, x: int, nodes1: seq<Node>)
    requires ReplaceStep(nodes, spans, order, x, nodes1)
    ensures AllNodesOk(nodes1, SpansAfterExtract(spans, x, true, Succ(spans, order, x)),
                       OrderAfterExtract(order, spans[x].pos))
  {
    var s := Succ(spans, order, x);
    var spans1, order1 := SpansAfterExtract(spans, x, true, s), OrderAfterExtract(order, spans[x].pos);
    var xl, xr, par, sp, f := nodes[x].left, nodes[x].right, nodes[x].parent, nodes[s].parent, nodes[s].right;
    forall m | Live(nodes1, spans1, order1, m)
      ensures NodeOk(nodes1, spans1, order1, m)
    {
      if m == s {
        ReplaceAtSucc(nodes, spans, order, x, nodes1);
      } else {
        LiveBeforeExtract(nodes, spans, order, x, true, s, m);
        if m == par {
          ReplaceAtParent(nodes, spans, order, x, nodes1);
        } else if m == xl {
          ReplaceAtLeft(nodes, spans, order, x, nodes1);
        } else if sp != x && (m == xr || m == sp) {
          ReplaceAtSpine(nodes, spans, order, x, nodes1, m);
        } else if m == f {
          ReplaceAtRest(nodes, spans, order, x, nodes1);
        } else {
          ReplaceOther(nodes, spans, order, x, nodes1, m);
        }
      }
    }
  }

  /// The replacement moves links and colours, never values.
  lemma ReplacedValues(nodes: seq<Node>, x: int, s: int, z: Node, nodes1: seq<Node>)
    requires Replaced(nodes, x, s, z, nodes1) && z.value == nodes[0].value
    ensures forall i :: 0 <= i < |nodes| ==> nodes1[i].value == nodes[i].value
  {
    forall i | 0 <= i < |nodes|
      ensures nodes1[i].value == nodes[i].value
    {
      assert nodes1[i] == ReplacedSlot(nodes, x, s, z, i);
    }
  }

  /// Extracting a node with two children keeps the arena well formed and
  /// removes its value from the contents.
  lemma ReplaceWf(nodes: seq<Node>, spans: seq<Span>, order: seq<int>, x: int)
    requires Wf(nodes, spans, order) && Live(nodes, spans, order, x)
    requires nodes[x].left != 0 && nodes[x].right != 0
    ensures var s := Succ(spans, order, x);
      var nodes1, spans1, order1 := ExtractLinks(nodes, x, s, Pred(spans, order, x), true),
        SpansAfterExtract(spans, x, true, s), OrderAfterExtract(order, spans[x].pos);
      && Wf(nodes1, spans1, order1)
      && Contents(nodes1, order1) == RbSpec.RemoveAt(Contents(nodes, order), spans[x].pos)
  {
    var s := Succ(spans, order, x);
    var nodes1 := ExtractLinks(nodes, x, s, Pred(spans, order, x), true);
    var spans1, order1 := SpansAfterExtract(spans, x, true, s), OrderAfterExtract(order, spans[x].pos);
    assert ReplaceStep(nodes, spans, order, x, nodes1) by {
      ReplaceEffect(nodes, spans, order, x);
    }
    assert SentinelOk(nodes1, spans1, order1) && AllNodesOk(nodes1, spans1, order1) by {
      ReplaceSentinelOk(nodes, spans, order, x, nodes1);
      ReplaceEach(nodes, spans, order, x, nodes1);
    }
    ReplacedValues(nodes, x, s, ReplacedSentinel(nodes, x, s), nodes1);
    ExtractOrderOk(nodes, spans, order, x, nodes1, spans1);
    RbSpec.RemoveAtSorted(Contents(nodes, order), spans[x].pos);
  }
}
