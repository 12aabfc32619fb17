/// The read-only walks over the node graph: the leftmost and rightmost
/// descents, the in-order steps behind iterators, and the three searches.
/// Each takes the arena as it stands (the C code's node links) together
/// with the ghost in-order listing that gives it meaning.
module RbWalk {
  import opened RbTypes
  import opened RbShape
  import RbSpec

  /// The position an iterator on `n` stands for: a node's own position, or
  /// one past the last for the sentinel.
  ghost function PosOf(spans: seq<Span>, order: seq<int>, n: int): int
    requires 0 <= n < |spans|
  {
    if n == 0 then |order| else spans[n].pos
  }

  /// An iterator's node stands for a position between 0 and the size: the
  /// node at index `i` for `i`, the sentinel for the size; the first
  /// position belongs to the cached minimum.
  lemma PosOfFacts(nodes: seq<Node>, spans: seq<Span>, order: seq<int>, n: int)
    requires Wf(nodes, spans, order) && (n == 0 || Live(nodes, spans, order, n))
    ensures 0 <= PosOf(spans, order, n) <= |order|
    ensures n == NodeAt(order, PosOf(spans, order, n))
    ensures PosOf(spans, order, n) == |order| <==> n == 0
    ensures PosOf(spans, order, n) == 0 <==> n == nodes[0].left
  {
    if n != 0 {
      NodeOkOf(nodes, spans, order, n);
    }
  }

  /// The converse: the node at index `i` has position `i`.
  lemma PosOfNodeAt(nodes: seq<Node>, spans: seq<Span>, order: seq<int>, i: int)
    requires Wf(nodes, spans, order) && 0 <= i <= |order|
    ensures var n := NodeAt(order, i);
      0 <= n < |nodes| && (n == 0 || Live(nodes, spans, order, n)) && PosOf(spans, order, n) == i
  {
    NodeAtFacts(nodes, spans, order, i);
  }

  /// What a descent learns at a live node: it is well formed and not nil,
  /// it holds the value at its position, and its children are nil exactly
  /// when absent.
  lemma Visit(nodes: seq<Node>, spans: seq<Span>, order: seq<int>, n: int)
    requires Wf(nodes, spans, order) && Live(nodes, spans, order, n)
    ensures NodeOk(nodes, spans, order, n) && !IsNilWord(nodes[n].color)
    ensures nodes[n].value == Some(Contents(nodes, order)[spans[n].pos])
    ensures IsNilWord(nodes[nodes[n].left].color) <==> nodes[n].left == 0
    ensures IsNilWord(nodes[nodes[n].right].color) <==> nodes[n].right == 0
    ensures nodes[n].left != 0 ==> NodeOk(nodes, spans, order, nodes[n].left)
    ensures nodes[n].right != 0 ==> NodeOk(nodes, spans, order, nodes[n].right)
  {
    assert NodeOk(nodes, spans, order, n);
    NilIff(nodes, spans, order, n);
    NilIff(nodes, spans, order, nodes[n].left);
    NilIff(nodes, spans, order, nodes[n].right);
    if nodes[n].left != 0 {
      assert NodeOk(nodes, spans, order, nodes[n].left);
    }
    if nodes[n].right != 0 {
      assert NodeOk(nodes, spans, order, nodes[n].right);
    }
  }

  /// leftmost: the first node of `n0`'s subtree.
  method Leftmost(nodes: seq<Node>, ghost spans: seq<Span>, ghost order: seq<int>, n0: int) returns (n: int)
    requires Wf(nodes, spans, order) && Live(nodes, spans, order, n0)
    ensures n == SubMin(nodes, spans, order, n0) && Live(nodes, spans, order, n)
  {
    n := n0;
    assert NodeOk(nodes, spans, order, n0);
    while !IsNilWord(nodes[nodes[n].left].color)
      invariant Live(nodes, spans, order, n) && NodeOk(nodes, spans, order, n)
      invariant spans[n].lo == spans[n0].lo
      decreases spans[n].pos - spans[n].lo
    {
      NilIff(nodes, spans, order, nodes[n].left);
      assert NodeOk(nodes, spans, order, nodes[n].left);
      n := nodes[n].left;
    }
    NilIff(nodes, spans, order, nodes[n].left);
  }

  /// rightmost: the last node of `n0`'s subtree.
  method Rightmost(nodes: seq<Node>, ghost spans: seq<Span>, ghost order: seq<int>, n0: int) returns (n: int)
    requires Wf(nodes, spans, order) && Live(nodes, spans, order, n0)
    ensures n == SubMax(nodes, spans, order, n0) && Live(nodes, spans, order, n)
  {
    n := n0;
    assert NodeOk(nodes, spans, order, n0);
    while !IsNilWord(nodes[nodes[n].right].color)
      invariant Live(nodes, spans, order, n) && NodeOk(nodes, spans, order, n)
      invariant spans[n].hi == spans[n0].hi
      decreases spans[n].hi - spans[n].pos
    {
      NilIff(nodes, spans, order, nodes[n].right);
      assert NodeOk(nodes, spans, order, nodes[n].right);
      n := nodes[n].right;
    }
    NilIff(nodes, spans, order, nodes[n].right);
  }

  /// inorder_successor: the next node in order, or the sentinel after the
  /// last.  From the sentinel it descends from the cached maximum, so it
  /// lands on the first node of the maximum's subtree.
  method InorderSuccessor(nodes: seq<Node>, ghost spans: seq<Span>, ghost order: seq<int>, n0: int) returns (r: int)
    requires Wf(nodes, spans, order) && (n0 == 0 || Live(nodes, spans, order, n0))
    ensures n0 != 0 ==> r == NodeAt(order, spans[n0].pos + 1)
    ensures n0 == 0 ==> r == (if |order| == 0 then 0 else SubMin(nodes, spans, order, nodes[0].right))
  {
    var n := n0;
    if n != 0 {
      assert NodeOk(nodes, spans, order, n);
    }
    NilIff(nodes, spans, order, nodes[n].right);
    if !IsNilWord(nodes[nodes[n].right].color) {
      r := Leftmost(nodes, spans, order, nodes[n].right);
      return;
    }
    while !IsNilWord(nodes[nodes[n].parent].color) && n == nodes[nodes[n].parent].right
      invariant n == 0 ==> n0 == 0 && |order| == 0
      invariant n != 0 ==> Live(nodes, spans, order, n) && spans[n].hi == spans[n0].pos + 1 && n0 != 0
      invariant 0 <= nodes[n].parent < |nodes|
      decreases if n == 0 then 0 else |order| - (spans[n].hi - spans[n].lo)
    {
      assert NodeOk(nodes, spans, order, n);
      NilIff(nodes, spans, order, nodes[n].parent);
      n := nodes[n].parent;
      assert NodeOk(nodes, spans, order, n);
    }
    if n != 0 {
      assert NodeOk(nodes, spans, order, n);
      NilIff(nodes, spans, order, nodes[n].parent);
      if nodes[n].parent != 0 {
        assert NodeOk(nodes, spans, order, nodes[n].parent);
      }
    }
    r := nodes[n].parent;
  }

  /// inorder_predecessor: the previous node in order, or the sentinel before
  /// the first.
  method InorderPredecessor(nodes: seq<Node>, ghost spans: seq<Span>, ghost order: seq<int>, n0: int) returns (r: int)
    requires Wf(nodes, spans, order) && (n0 == 0 || Live(nodes, spans, order, n0))
    ensures n0 != 0 ==> r == NodeAt(order, spans[n0].pos - 1)
    ensures n0 == 0 ==> r == (if |order| == 0 then 0 else SubMax(nodes, spans, order, nodes[0].left))
  {
    var n := n0;
    if n != 0 {
      assert NodeOk(nodes, spans, order, n);
    }
    NilIff(nodes, spans, order, nodes[n].left);
    if !IsNilWord(nodes[nodes[n].left].color) {
      r := Rightmost(nodes, spans, order, nodes[n].left);
      return;
    }
    var parent := nodes[n].parent;
    while !IsNilWord(nodes[parent].color) && n == nodes[parent].left
      invariant n == 0 ==> n0 == 0 && |order| == 0 && parent == 0
      invariant n != 0 ==> Live(nodes, spans, order, n) && spans[n].lo == spans[n0].pos && n0 != 0
      invariant 0 <= parent < |nodes| && parent == nodes[n].parent
      decreases if n == 0 then 0 else |order| - (spans[n].hi - spans[n].lo)
    {
      assert NodeOk(nodes, spans, order, n);
      NilIff(nodes, spans, order, parent);
      n := parent;
      assert NodeOk(nodes, spans, order, n);
      parent := nodes[n].parent;
    }
    if n != 0 {
      assert NodeOk(nodes, spans, order, n);
      NilIff(nodes, spans, order, parent);
      if parent != 0 {
        assert NodeOk(nodes, spans, order, parent);
      }
    }
    NilIff(nodes, spans, order, n);
    if !IsNilWord(nodes[n].color) {
      n := parent;
    }
    r := n;
  }

  /// The place where a new node lands so that it stands at in-order
  /// position `idx`: the sentinel's root slot of an empty tree, the empty
  /// left slot of the node now at `idx`, or the empty right slot of the node
  /// now at `idx - 1`.
  ghost predicate SlotAt(nodes: seq<Node>, spans: seq<Span>, order: seq<int>, pack: InsPack, idx: int)
  {
    if |order| == 0 then pack.parent == 0
    else
      && Live(nodes, spans, order, pack.parent)
      && (pack.pos == Left ==> nodes[pack.parent].left == 0 && spans[pack.parent].pos == idx)
      && (pack.pos == Right ==> nodes[pack.parent].right == 0 && spans[pack.parent].pos + 1 == idx)
  }

  /// A descent that has reached `curr` (the sentinel once it falls off
  /// the tree) still has in-order positions `lo..hi` ahead of it.
  ghost predicate Window(nodes: seq<Node>, spans: seq<Span>, order: seq<int>, curr: int, lo: int, hi: int)
  {
    && 0 <= curr < |nodes| && 0 <= lo <= hi <= |order|
    && (curr == 0 <==> lo == hi)
    && (curr != 0 ==> Live(nodes, spans, order, curr) && spans[curr].lo == lo && spans[curr].hi == hi)
  }

  /// One step of a descent: a non-nil node of a window holds the value at
  /// its position inside the window, and its children's windows split the
  /// window there.
  lemma WindowStep(nodes: seq<Node>, spans: seq<Span>, order: seq<int>, curr: int, lo: int, hi: int)
    requires Wf(nodes, spans, order) && Window(nodes, spans, order, curr, lo, hi)
    requires !IsNilWord(nodes[curr].color)
    ensures var p := spans[curr].pos;
      && curr != 0 && Live(nodes, spans, order, curr) && NodeOk(nodes, spans, order, curr)
      && lo <= p < hi && curr == NodeAt(order, p)
      && nodes[curr].value == Some(Contents(nodes, order)[p])
      && Window(nodes, spans, order, nodes[curr].left, lo, p)
      && Window(nodes, spans, order, nodes[curr].right, p + 1, hi)
  {
    NilIff(nodes, spans, order, curr);
    Visit(nodes, spans, order, curr);
    PosOfFacts(nodes, spans, order, curr);
  }

  /// lower_bound: the first node whose value is not less than `k` (the
  /// sentinel when there is none), and the slot where a value equal to `k`
  /// goes in front of all its equals.
  method LowerBound(nodes: seq<Node>, ghost spans: seq<Span>, ghost order: seq<int>, k: Entry) returns (res: FindResult)
    requires Wf(nodes, spans, order)
    ensures res.curr == NodeAt(order, RbSpec.FirstAtLeast(Contents(nodes, order), k))
    ensures SlotAt(nodes, spans, order, res.pack, RbSpec.FirstAtLeast(Contents(nodes, order), k))
  {
    ghost var s := Contents(nodes, order);
    ghost var idx := RbSpec.FirstAtLeast(s, k);
    var curr := nodes[0].parent;
    res := FindResult(InsPack(nodes[0].parent, Left), 0);
    ghost var lo, hi, stepped := 0, |order|, false;
    while !IsNilWord(nodes[curr].color)
      invariant Window(nodes, spans, order, curr, lo, hi) && lo <= idx <= hi
      invariant res.curr == NodeAt(order, hi)
      invariant !stepped ==> curr == nodes[0].parent && res.pack.parent == curr && lo == 0 && hi == |order|
      invariant stepped ==> Live(nodes, spans, order, res.pack.parent)
      invariant stepped && res.pack.pos == Left ==> nodes[res.pack.parent].left == curr && spans[res.pack.parent].pos == hi
      invariant stepped && res.pack.pos == Right ==> nodes[res.pack.parent].right == curr && spans[res.pack.parent].pos + 1 == lo
      decreases hi - lo
    {
      Visit(nodes, spans, order, curr);
      var p := spans[curr].pos;
      RbSpec.BoundsAt(s, k, p);
      res := res.(pack := res.pack.(parent := curr));
      if Compare(nodes[curr].value.value, k) >= 0 {
        res := FindResult(res.pack.(pos := Left), curr);
        hi := p;
        curr := nodes[curr].left;
      } else {
        res := res.(pack := res.pack.(pos := Right));
        lo := p + 1;
        curr := nodes[curr].right;
      }
      stepped := true;
    }
    NilIff(nodes, spans, order, curr);
  }
  /// upper_bound: the first node whose value is greater than `k` (the
  /// sentinel when there is none), and the slot where a value equal to `k`
  /// goes behind all its equals.
  method UpperBound(nodes: seq<Node>, ghost spans: seq<Span>, ghost order: seq<int>, k: Entry) returns (res: FindResult)
    requires Wf(nodes, spans, order)
    ensures res.curr == NodeAt(order, RbSpec.FirstAbove(Contents(nodes, order), k))
    ensures SlotAt(nodes, spans, order, res.pack, RbSpec.FirstAbove(Contents(nodes, order), k))
  {
    ghost var s := Contents(nodes, order);
    ghost var idx := RbSpec.FirstAbove(s, k);
    var curr := nodes[0].parent;
    res := FindResult(InsPack(nodes[0].parent, Left), 0);
    ghost var lo, hi, stepped := 0, |order|, false;
    while !IsNilWord(nodes[curr].color)
      invariant Window(nodes, spans, order, curr, lo, hi) && lo <= idx <= hi
      invariant res.curr == NodeAt(order, hi)
      invariant !stepped ==> curr == nodes[0].parent && res.pack.parent == curr && lo == 0 && hi == |order|
      invariant stepped ==> Live(nodes, spans, order, res.pack.parent)
      invariant stepped && res.pack.pos == Left ==> nodes[res.pack.parent].left == curr && spans[res.pack.parent].pos == hi
      invariant stepped && res.pack.pos == Right ==> nodes[res.pack.parent].right == curr && spans[res.pack.parent].pos + 1 == lo
      decreases hi - lo
    {
      Visit(nodes, spans, order, curr);
      var p := spans[curr].pos;
      RbSpec.BoundsAt(s, k, p);
      res := res.(pack := res.pack.(parent := curr));
      if Compare(nodes[curr].value.value, k) > 0 {
        res := FindResult(res.pack.(pos := Left), curr);
        hi := p;
        curr := nodes[curr].left;
      } else {
        res := res.(pack := res.pack.(pos := Right));
        lo := p + 1;
        curr := nodes[curr].right;
      }
      stepped := true;
    }
    NilIff(nodes, spans, order, curr);
  }

  /// equal_range: the first node not less than `k` and the first node
  /// greater than `k`.  The first descent finds the former and notes the
  /// first node on its path above `k`; the second descent continues below
  /// that node (or from the root) to find the latter.
  method EqualRange(nodes: seq<Node>, ghost spans: seq<Span>, ghost order: seq<int>, k: Entry) returns (res: NodePair)
    requires Wf(nodes, spans, order)
    ensures res.first == NodeAt(order, RbSpec.FirstAtLeast(Contents(nodes, order), k))
    ensures res.second == NodeAt(order, RbSpec.FirstAbove(Contents(nodes, order), k))
  {
    var first, second := DescendAtLeast(nodes, spans, order, k);
    if IsNilWord(nodes[second].color) {
      second := DescendAbove(nodes, spans, order, k, nodes[0].parent, 0, 0, |order|);
    } else {
      second := DescendAbove(nodes, spans, order, k, nodes[second].left, second, spans[second].lo, spans[second].pos);
    }
    res := NodePair(first, second);
  }

  /// The first descent of equal_range: it finds the first node not less
  /// than `k` and notes the first node on its path above `k`, nil when
  /// there is none, whose left subtree then still holds the first node
  /// above `k`.
  method DescendAtLeast(nodes: seq<Node>, ghost spans: seq<Span>, ghost order: seq<int>, k: Entry)
    returns (first: int, second: int)
    requires Wf(nodes, spans, order)
    ensures first == NodeAt(order, RbSpec.FirstAtLeast(Contents(nodes, order), k))
    ensures 0 <= second < |nodes| && (IsNilWord(nodes[second].color) <==> second == 0)
    ensures second != 0 ==> && Live(nodes, spans, order, second) && NodeOk(nodes, spans, order, second)
                            && spans[second].lo <= RbSpec.FirstAbove(Contents(nodes, order), k) <= spans[second].pos
  {
    ghost var s := Contents(nodes, order);
    ghost var idx1, idx2 := RbSpec.FirstAtLeast(s, k), RbSpec.FirstAbove(s, k);
    first, second := 0, 0;
    var curr := nodes[0].parent;
    ghost var lo, hi := 0, |order|;
    while !IsNilWord(nodes[curr].color)
      invariant Window(nodes, spans, order, curr, lo, hi) && lo <= idx1 <= hi
      invariant first == NodeAt(order, hi)
      invariant 0 <= second < |nodes| && (IsNilWord(nodes[second].color) <==> second == 0)
      invariant second != 0 ==> Live(nodes, spans, order, second) && NodeOk(nodes, spans, order, second)
      invariant second != 0 ==> spans[second].lo <= idx2 <= spans[second].pos
      decreases hi - lo
    {
      WindowStep(nodes, spans, order, curr, lo, hi);
      var p := spans[curr].pos;
      RbSpec.BoundsAt(s, k, p);
      if Compare(nodes[curr].value.value, k) < 0 {
        lo := p + 1;
        curr := nodes[curr].right;
      } else {
        if IsNilWord(nodes[second].color) && Compare(k, nodes[curr].value.value) < 0 {
          second := curr;
        }
        first := curr;
        hi := p;
        curr := nodes[curr].left;
      }
    }
    NilIff(nodes, spans, order, curr);
  }

  /// The second descent of equal_range: below `start`, whose subtree covers
  /// positions `lo0..hi0` with `hi0` holding `second0`, find the first node
  /// greater than `k`.
  method DescendAbove(nodes: seq<Node>, ghost spans: seq<Span>, ghost order: seq<int>, k: Entry,
                      start: int, second0: int, ghost lo0: int, ghost hi0: int) returns (second: int)
    requires Wf(nodes, spans, order)
    requires Window(nodes, spans, order, start, lo0, hi0)
    requires lo0 <= RbSpec.FirstAbove(Contents(nodes, order), k) <= hi0
    requires second0 == NodeAt(order, hi0)
    ensures second == NodeAt(order, RbSpec.FirstAbove(Contents(nodes, order), k))
  {
    ghost var s := Contents(nodes, order);
    ghost var idx := RbSpec.FirstAbove(s, k);
    ghost var lo, hi := lo0, hi0;
    var curr := start;
    second := second0;
    while !IsNilWord(nodes[curr].color)
      invariant Window(nodes, spans, order, curr, lo, hi)
      invariant lo <= idx <= hi && second == NodeAt(order, hi)
      decreases hi - lo
    {
      Visit(nodes, spans, order, curr);
      var p := spans[curr].pos;
      RbSpec.BoundsAt(s, k, p);
      if Compare(k, nodes[curr].value.value) < 0 {
        second := curr;
        hi := p;
        curr := nodes[curr].left;
      } else {
        lo := p + 1;
        curr := nodes[curr].right;
      }
    }
    NilIff(nodes, spans, order, curr);
  }
}
