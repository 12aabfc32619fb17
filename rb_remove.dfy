/// The removal of one node as a whole: the arena after the corrected
/// extract_node in either case, the node it hands to erase_fixup, when the
/// loop of erase_fixup has nothing to do, and runs of removals at one
/// in-order index as rbt_erase and rbt_erase_range perform them.
module RbRemove {
  import opened RbTypes
  import opened RbShape
  import opened RbErase
  import RbFixup
  import RbSpec

  ghost predicate HasTwo(nodes: seq<Node>, x: int)
    requires 0 <= x < |nodes|
  {
    nodes[x].left != 0 && nodes[x].right != 0
  }

  /// The arena after the corrected extract_node(x).
  ghost function ExtractNodes(nodes: seq<Node>, spans: seq<Span>, order: seq<int>, x: int): (r: seq<Node>)
    requires 0 < |nodes| && 0 <= x < |spans|
    ensures |r| == |nodes|
  {
    ExtractLinks(nodes, x, Succ(spans, order, x), Pred(spans, order, x), true)
  }

  /// The intervals after extract_node(x): with two children the successor
  /// takes over `x`'s interval.
  ghost function ExtractSpans(nodes: seq<Node>, spans: seq<Span>, order: seq<int>, x: int): (r: seq<Span>)
    requires 0 <= x < |nodes| && x < |spans|
    ensures |r| == |spans|
  {
    if HasTwo(nodes, x) then SpansAfterExtract(spans, x, true, Succ(spans, order, x))
    else SpansAfterExtract(spans, x, false, 0)
  }

  /// Extracting any live node keeps the arena well formed and removes
  /// exactly that node's value from the contents.
  lemma ExtractWf(nodes: seq<Node>, spans: seq<Span>, order: seq<int>, x: int)
    requires Wf(nodes, spans, order) && Live(nodes, spans, order, x)
    ensures var p := spans[x].pos;
      var nodes1, spans1, order1 := ExtractNodes(nodes, spans, order, x),
        ExtractSpans(nodes, spans, order, x), OrderAfterExtract(order, p);
      && Wf(nodes1, spans1, order1)
      && Contents(nodes1, order1) == RbSpec.RemoveAt(Contents(nodes, order), p)
  {
    if HasTwo(nodes, x) {
      ReplaceWf(nodes, spans, order, x);
    } else {
      SpliceWf(nodes, spans, order, x);
    }
  }

  /// The links extract_node follows from `x`: they stay inside the arena,
  /// a child is nil exactly when it is the sentinel, and the extreme nodes
  /// of `x`'s subtrees are its in-order neighbours.
  lemma ChildNeighbours(nodes: seq<Node>, spans: seq<Span>, order: seq<int>, x: int)
    requires Wf(nodes, spans, order) && Live(nodes, spans, order, x)
    ensures var nd := nodes[x];
      && 0 <= nd.left < |nodes| && 0 <= nd.right < |nodes| && 0 <= nd.parent < |nodes|
      && (IsNilWord(nodes[nd.left].color) <==> nd.left == 0)
      && (IsNilWord(nodes[nd.right].color) <==> nd.right == 0)
      && (nd.right != 0 ==> Live(nodes, spans, order, nd.right)
                            && SubMin(nodes, spans, order, nd.right) == Succ(spans, order, x))
      && (nd.left != 0 ==> Live(nodes, spans, order, nd.left)
                           && SubMax(nodes, spans, order, nd.left) == Pred(spans, order, x))
  {
    NodeOkOf(nodes, spans, order, x);
    NilIff(nodes, spans, order, nodes[x].left);
    NilIff(nodes, spans, order, nodes[x].right);
    if nodes[x].right != 0 {
      NodeOkOf(nodes, spans, order, nodes[x].right);
    }
    if nodes[x].left != 0 {
      NodeOkOf(nodes, spans, order, nodes[x].left);
    }
  }

  /// Once the caches announce the removal of a node `x` with two
  /// children, the arena holds what the link writes through its successor
  /// rely on.
  lemma ReplaceReady(nodes: seq<Node>, spans: seq<Span>, order: seq<int>, x: int)
    requires Wf(nodes, spans, order) && Live(nodes, spans, order, x) && HasTwo(nodes, x)
    ensures var s := Succ(spans, order, x);
      var n0 := nodes[0 := SentinelAfterExtract(nodes, x, s, Pred(spans, order, x), true)];
      ReplaceFacts(n0, x, s, n0[0])
  {
    var s, pr := Succ(spans, order, x), Pred(spans, order, x);
    ReplaceEffect(nodes, spans, order, x);
    var z := ReplacedSentinel(nodes, x, s);
    assert nodes[0].left != x && nodes[0].right != x by {
      NodeOkOf(nodes, spans, order, x);
    }
    assert SentinelAfterExtract(nodes, x, s, pr, true) == z;
    ReplaceFactsOf(nodes, spans, order, x, s, z);
  }

  /// extract_node case by case, on the arena whose caches already
  /// announce the removal: which splice runs, which node is handed on and
  /// which colour leaves.
  lemma ExtractSteps(nodes: seq<Node>, spans: seq<Span>, order: seq<int>, x: int)
    requires Wf(nodes, spans, order) && Live(nodes, spans, order, x)
    ensures var s, nd := Succ(spans, order, x), nodes[x];
      var n0 := nodes[0 := SentinelAfterExtract(nodes, x, s, Pred(spans, order, x), true)];
      var n1 := ExtractNodes(nodes, spans, order, x);
      && 0 <= nd.left < |nodes| && 0 <= nd.right < |nodes| && 0 <= nd.parent < |nodes| && n0[x] == nd
      && (IsNilWord(n0[nd.left].color) <==> nd.left == 0)
      && (IsNilWord(n0[nd.right].color) <==> nd.right == 0)
      && (nd.left == 0 ==>
            && n1 == TakeNodeLinks(n0, x, nd.right)
            && FixNode(nodes, x, s) == nd.right && RemovedColour(nodes, x, s) == ColorOf(nd.color))
      && (nd.left != 0 && nd.right == 0 ==>
            && n1 == TakeNodeLinks(n0, x, nd.left)
            && FixNode(nodes, x, s) == nd.left && RemovedColour(nodes, x, s) == ColorOf(nd.color))
      && (nd.left != 0 && nd.right != 0 ==>
            && 0 < s < |nodes| && n0[s] == nodes[s]
            && ReplaceFacts(n0, x, s, n0[0]) && n1 == ReplaceLinks(n0, x, s, true)
            && FixNode(nodes, x, s) == nodes[s].right && RemovedColour(nodes, x, s) == ColorOf(nodes[s].color))
  {
    ChildNeighbours(nodes, spans, order, x);
    if HasTwo(nodes, x) {
      ReplaceReady(nodes, spans, order, x);
    }
  }

  /// The node left where a colour leaves the tree: the only child (or the
  /// sentinel) when `x` has at most one child, otherwise the right child
  /// of the successor `s`, which moved away.
  function FixNode(nodes: seq<Node>, x: int, s: int): int
    requires |nodes| > 0
  {
    var nd := At(nodes, x);
    if IsNilWord(At(nodes, nd.left).color) then nd.right
    else if IsNilWord(At(nodes, nd.right).color) then nd.left
    else At(nodes, s).right
  }

  /// The colour that leaves the tree: `x`'s own, or the successor's when
  /// the successor takes `x`'s place and colour.
  function RemovedColour(nodes: seq<Node>, x: int, s: int): bv2
    requires |nodes| > 0
  {
    var nd := At(nodes, x);
    if IsNilWord(At(nodes, nd.left).color) || IsNilWord(At(nodes, nd.right).color) then ColorOf(nd.color)
    else ColorOf(At(nodes, s).color)
  }

  /// extract_node's result: the fix node when a black colour left, the
  /// root of the arena `nodes1` after the extraction otherwise.
  function ExtractReturn(nodes: seq<Node>, x: int, s: int, nodes1: seq<Node>): int
    requires |nodes| > 0 && |nodes1| > 0
  {
    if RemovedColour(nodes, x, s) == BLACK then FixNode(nodes, x, s) else nodes1[0].parent
  }

  /// The loop condition of erase_fixup is false on `n`: it is its parent's
  /// parent (IS_ACTUAL_ROOT) or it is red.
  ghost predicate FixupDone(ns: seq<Node>, n: int)
    requires |ns| > 0
  {
    At(ns, At(ns, n).parent).parent == n || IsRedWord(At(ns, n).color)
  }

  /// Removing `x` leaves erase_fixup nothing to rebalance.
  ghost predicate FixupIdle(nodes: seq<Node>, spans: seq<Span>, order: seq<int>, x: int)
    requires 0 < |nodes| && 0 <= x < |spans|
  {
    var nodes1 := ExtractNodes(nodes, spans, order, x);
    FixupDone(nodes1, ExtractReturn(nodes, x, Succ(spans, order, x), nodes1))
  }

  /// The fix node is the sentinel or a node still live after the
  /// extraction, with its colour unchanged.
  lemma FixNodeAfter(nodes: seq<Node>, spans: seq<Span>, order: seq<int>, x: int)
    requires Wf(nodes, spans, order) && Live(nodes, spans, order, x)
    ensures var nodes1, spans1, order1 := ExtractNodes(nodes, spans, order, x),
        ExtractSpans(nodes, spans, order, x), OrderAfterExtract(order, spans[x].pos);
      var fix := FixNode(nodes, x, Succ(spans, order, x));
      && 0 <= fix < |nodes|
      && (fix != 0 ==> Live(nodes1, spans1, order1, fix) && nodes1[fix].color == nodes[fix].color)
  {
    NodeOkOf(nodes, spans, order, x);
    NilIff(nodes, spans, order, nodes[x].left);
    NilIff(nodes, spans, order, nodes[x].right);
    if HasTwo(nodes, x) {
      FixNodeTwo(nodes, spans, order, x);
    } else {
      FixNodeOne(nodes, spans, order, x);
    }
  }

  lemma FixNodeTwo(nodes: seq<Node>, spans: seq<Span>, order: seq<int>, x: int)
    requires Wf(nodes, spans, order) && Live(nodes, spans, order, x) && HasTwo(nodes, x)
    ensures var s := Succ(spans, order, x);
      var nodes1 := ExtractNodes(nodes, spans, order, x);
      var f := nodes[s].right;
      && 0 < s < |nodes| && 0 <= f < |nodes|
      && (f != 0 ==> && Live(nodes1, SpansAfterExtract(spans, x, true, s), OrderAfterExtract(order, spans[x].pos), f)
                     && nodes1[f].color == nodes[f].color)
  {
    var s, nodes1 := Succ(spans, order, x), ExtractNodes(nodes, spans, order, x);
    ReplaceEffect(nodes, spans, order, x);
    var z := ReplacedSentinel(nodes, x, s);
    ReplaceFactsOf(nodes, spans, order, x, s, z);
    var f := nodes[s].right;
    if f != 0 {
      assert nodes1[f] == ReplacedSlot(nodes, x, s, z, f);
      NodeOkOf(nodes, spans, order, s);
      LiveAfterExtract(nodes1, spans, order, x, true, s, f);
    }
  }

  lemma FixNodeOne(nodes: seq<Node>, spans: seq<Span>, order: seq<int>, x: int)
    requires Wf(nodes, spans, order) && Live(nodes, spans, order, x) && !HasTwo(nodes, x)
    ensures var nodes1 := ExtractNodes(nodes, spans, order, x);
      var c := if nodes[x].left == 0 then nodes[x].right else nodes[x].left;
      && 0 <= c < |nodes|
      && (c != 0 ==> && Live(nodes1, SpansAfterExtract(spans, x, false, 0), OrderAfterExtract(order, spans[x].pos), c)
                     && nodes1[c].color == nodes[c].color)
  {
    var nodes1 := ExtractNodes(nodes, spans, order, x);
    NodeOkOf(nodes, spans, order, x);
    SpliceEffect(nodes, spans, order, x);
    var c := if nodes[x].left == 0 then nodes[x].right else nodes[x].left;
    if c != 0 {
      LiveAfterExtract(nodes1, spans, order, x, false, 0, c);
    }
  }

  /// erase_fixup's loop has nothing to do exactly when a red colour left,
  /// or the fix node is the sentinel, the new root, or red.
  lemma FixupIdleIff(nodes: seq<Node>, spans: seq<Span>, order: seq<int>, x: int)
    requires Wf(nodes, spans, order) && Live(nodes, spans, order, x)
    ensures var s, nodes1 := Succ(spans, order, x), ExtractNodes(nodes, spans, order, x);
      var fix := FixNode(nodes, x, s);
      && 0 <= fix < |nodes|
      && (FixupIdle(nodes, spans, order, x) <==>
            || RemovedColour(nodes, x, s) == RED || fix == 0 || fix == nodes1[0].parent
            || IsRedWord(nodes[fix].color))
  {
    ExtractWf(nodes, spans, order, x);
    FixNodeAfter(nodes, spans, order, x);
    var nodes1, spans1, order1 := ExtractNodes(nodes, spans, order, x),
      ExtractSpans(nodes, spans, order, x), OrderAfterExtract(order, spans[x].pos);
    var fix := FixNode(nodes, x, Succ(spans, order, x));
    var r := nodes1[0].parent;
    if r != 0 {
      NodeOkOf(nodes1, spans1, order1, r);
    }
    if fix != 0 {
      ActualRootIff(nodes1, spans1, order1, fix);
    }
  }

  /// The arena once rbt_erase_at has removed `x` and erase_fixup, finding
  /// nothing to do, has painted the root black.
  ghost function ErasedNodes(nodes: seq<Node>, spans: seq<Span>, order: seq<int>, x: int): (r: seq<Node>)
    requires 0 < |nodes| == |spans| && 0 <= x < |nodes|
    ensures |r| == |nodes|
  {
    var nodes1 := ExtractNodes(nodes, spans, order, x);
    if 0 <= nodes1[0].parent < |nodes1| then RbFixup.Recoloured(nodes1, nodes1[0].parent, BLACK) else nodes1
  }

  /// A removal keeps the arena well formed with a black root, and removes
  /// exactly the value at `x`'s index.
  lemma EraseWf(nodes: seq<Node>, spans: seq<Span>, order: seq<int>, x: int)
    requires Wf(nodes, spans, order) && Live(nodes, spans, order, x)
    ensures var p := spans[x].pos;
      var nodes2, spans1, order1 := ErasedNodes(nodes, spans, order, x),
        ExtractSpans(nodes, spans, order, x), OrderAfterExtract(order, p);
      && Wf(nodes2, spans1, order1) && RootBlack(nodes2)
      && Contents(nodes2, order1) == RbSpec.RemoveAt(Contents(nodes, order), p)
  {
    ExtractWf(nodes, spans, order, x);
    var nodes1, spans1, order1 := ExtractNodes(nodes, spans, order, x),
      ExtractSpans(nodes, spans, order, x), OrderAfterExtract(order, spans[x].pos);
    RecolourWf(nodes1, spans1, order1, ErasedNodes(nodes, spans, order, x));
  }

  /// Removals of the node then at index `i`, repeated until `stop` nodes
  /// remain, none of which gives erase_fixup anything to do.
  ghost predicate IdleRun(nodes: seq<Node>, spans: seq<Span>, order: seq<int>, i: int, stop: int)
    requires 0 < |nodes| == |spans|
    decreases |order| - stop, 1
  {
    |order| <= stop || IdleNext(nodes, spans, order, i, stop)
  }

  /// The next removal of such a run is idle, and so is the rest of the run.
  ghost predicate IdleNext(nodes: seq<Node>, spans: seq<Span>, order: seq<int>, i: int, stop: int)
    requires 0 < |nodes| == |spans|
    decreases |order| - stop, 0
  {
    && stop < |order| && 0 <= i < |order| && 0 <= order[i] < |nodes|
    && FixupIdle(nodes, spans, order, order[i])
    && IdleRun(ErasedNodes(nodes, spans, order, order[i]), ExtractSpans(nodes, spans, order, order[i]),
               OrderAfterExtract(order, i), i, stop)
  }

  lemma IdleRunStep(nodes: seq<Node>, spans: seq<Span>, order: seq<int>, i: int, stop: int)
    requires Wf(nodes, spans, order) && IdleRun(nodes, spans, order, i, stop) && |order| > stop
    ensures 0 <= i < |order| && Live(nodes, spans, order, order[i])
    ensures FixupIdle(nodes, spans, order, order[i])
    ensures spans[order[i]].pos == i
    ensures IdleRun(ErasedNodes(nodes, spans, order, order[i]), ExtractSpans(nodes, spans, order, order[i]),
                    OrderAfterExtract(order, i), i, stop)
  {
    assert IdleNext(nodes, spans, order, i, stop);
  }

  /// After the node at index `p` leaves, every later index moves down by
  /// one, `end` included.
  lemma NodeAtShift(order: seq<int>, p: int, j: int)
    requires 0 <= p <= j < |order|
    ensures NodeAt(OrderAfterExtract(order, p), j) == NodeAt(order, j + 1)
  {
  }

  /// Removing the value at index `lo` from a tree that holds `c` without
  /// `c[lo..mid]`: the value removed is `c[mid]`, and the tree then holds
  /// `c` without `c[lo..mid + 1]`.
  lemma EraseFromRun(nodes: seq<Node>, spans: seq<Span>, order: seq<int>, c: seq<Entry>, lo: int, mid: int, mid1: int,
                     x: int)
    requires Wf(nodes, spans, order) && Live(nodes, spans, order, x) && spans[x].pos == lo
    requires 0 <= lo <= mid < |c| && mid1 == mid + 1 && Contents(nodes, order) == c[..lo] + c[mid..]
    ensures Contents(nodes, order)[lo] == c[mid]
    ensures (EraseWf(nodes, spans, order, x);
             Contents(ErasedNodes(nodes, spans, order, x), OrderAfterExtract(order, lo)) == c[..lo] + c[mid1..])
  {
    EraseWf(nodes, spans, order, x);
    RbSpec.RemoveAtJoin(c, lo, mid - lo);
  }

  /// One round of a run erasing, from index `lo`, the nodes up to the one
  /// at index `end`, from a tree that holds `c` without `c[lo..mid]`: the
  /// node at index `lo` is live and its removal leaves the fix-up loop
  /// idle; once it is gone, the tree holds `c` without `c[lo..mid1]`, the
  /// value removed is `c[mid]`, its successor stands at index `lo`, the
  /// node ending the run moves down to index `end1`, and the rest of the
  /// run stays idle.
  lemma RunRound(nodes: seq<Node>, spans: seq<Span>, order: seq<int>, c: seq<Entry>, lo: int, mid: int, mid1: int,
                 end: int, end1: int, stop: int)
    requires Wf(nodes, spans, order) && 0 <= lo <= mid < |c| && mid1 == mid + 1 && |order| == |c| - (mid - lo)
    requires lo < end <= |order| && end1 == end - 1 && stop == |order| - (end - lo)
    requires Contents(nodes, order) == c[..lo] + c[mid..] && IdleRun(nodes, spans, order, lo, stop)
    ensures 0 <= lo < |order| && NodeAt(order, lo) == order[lo]
    ensures Live(nodes, spans, order, order[lo]) && spans[order[lo]].pos == lo
    ensures FixupIdle(nodes, spans, order, order[lo])
    ensures c[lo..mid] + [c[mid]] == c[lo..mid1]
    ensures var x := order[lo];
      (EraseWf(nodes, spans, order, x);
       var nodes1, spans1, order1 :=
         ErasedNodes(nodes, spans, order, x), ExtractSpans(nodes, spans, order, x), OrderAfterExtract(order, lo);
       && Contents(nodes1, order1) == c[..lo] + c[mid1..]
       && Contents(nodes, order)[lo] == c[mid]
       && IdleRun(nodes1, spans1, order1, lo, stop)
       && Succ(spans, order, x) == NodeAt(order, lo + 1) == NodeAt(order1, lo)
       && NodeAt(order1, end1) == NodeAt(order, end))
  {
    IdleRunStep(nodes, spans, order, lo, stop);
    var x := order[lo];
    EraseFromRun(nodes, spans, order, c, lo, mid, mid1, x);
    NodeAtShift(order, lo, lo);
    NodeAtShift(order, lo, end1);
    RbSpec.SliceGrow(c, lo, mid, mid1);
  }

  /// The values of the subtree rooted at `n`, in order; none for the
  /// sentinel.
  ghost function SubtreeValues(nodes: seq<Node>, spans: seq<Span>, order: seq<int>, n: int): seq<Entry>
    requires Wf(nodes, spans, order) && (n == 0 || Live(nodes, spans, order, n))
  {
    if n == 0 then []
    else
      NodeOkOf(nodes, spans, order, n);
      Contents(nodes, order)[spans[n].lo..spans[n].hi]
  }

  /// A subtree holds its left subtree's values, its own, then its right
  /// subtree's, and each child's subtree is smaller than its parent's.
  lemma SubtreeSplit(nodes: seq<Node>, spans: seq<Span>, order: seq<int>, n: int)
    requires Wf(nodes, spans, order) && Live(nodes, spans, order, n)
    ensures var nd, sz := nodes[n], spans[n].hi - spans[n].lo;
      && 0 < sz
      && (nd.left == 0 || (Live(nodes, spans, order, nd.left) && spans[nd.left].hi - spans[nd.left].lo < sz))
      && (nd.right == 0 || (Live(nodes, spans, order, nd.right) && spans[nd.right].hi - spans[nd.right].lo < sz))
      && nd.value.Some?
      && SubtreeValues(nodes, spans, order, n)
         == SubtreeValues(nodes, spans, order, nd.left) + [nd.value.value]
            + SubtreeValues(nodes, spans, order, nd.right)
  {
    NodeOkOf(nodes, spans, order, n);
    var nd, c := nodes[n], Contents(nodes, order);
    var lo, pos, hi := spans[n].lo, spans[n].pos, spans[n].hi;
    if nd.left != 0 {
      NodeOkOf(nodes, spans, order, nd.left);
    }
    if nd.right != 0 {
      NodeOkOf(nodes, spans, order, nd.right);
    }
    RbSpec.SplitAround(c, lo, pos, hi);
  }

  /// The root's subtree holds every value.
  lemma RootValues(nodes: seq<Node>, spans: seq<Span>, order: seq<int>)
    requires Wf(nodes, spans, order)
    ensures 0 <= nodes[0].parent < |nodes|
    ensures nodes[0].parent == 0 || Live(nodes, spans, order, nodes[0].parent)
    ensures SubtreeValues(nodes, spans, order, nodes[0].parent) == Contents(nodes, order)
  {
    var c := Contents(nodes, order);
    if nodes[0].parent != 0 {
      assert c[0..|order|] == c;
    }
  }

  /// destroy: hands every value of the subtree rooted at `n` to the
  /// destructor (`disposed` lists them in call order), both subtrees
  /// before the node itself.  Freeing is not modelled: the arena is left
  /// as it is.
  method Destroy(nodes: seq<Node>, ghost spans: seq<Span>, ghost order: seq<int>, n: int) returns (disposed: seq<Entry>)
    requires Wf(nodes, spans, order) && (n == 0 || Live(nodes, spans, order, n))
    ensures multiset(disposed) == multiset(SubtreeValues(nodes, spans, order, n))
    decreases if n == 0 then 0 else spans[n].hi - spans[n].lo
  {
    NilIff(nodes, spans, order, n);
    disposed := [];
    if !IsNilWord(nodes[n].color) {
      SubtreeSplit(nodes, spans, order, n);
      var fromLeft := Destroy(nodes, spans, order, nodes[n].left);
      var fromRight := Destroy(nodes, spans, order, nodes[n].right);
      disposed := fromLeft + fromRight + [nodes[n].value.value];
    }
  }
}
