/// The meaning of a tree as the sequence of its values in order, and the
/// sequence-level effect of each operation.  The tree engine's methods are
/// proved against these functions.
module RbSpec {
  import opened RbTypes

  /// In-order values never decrease under the comparator.
  ghost predicate Sorted(s: seq<Entry>)
  {
    forall i, j :: 0 <= i < j < |s| ==> s[i].key <= s[j].key
  }

  /// Index of the first value that does not compare less than `k`, found by
  /// a front-to-back scan: the reference for `lower_bound`.
  function FirstAtLeast(s: seq<Entry>, k: Entry): (r: nat)
    ensures r <= |s|
    ensures forall i :: 0 <= i < r ==> s[i].key < k.key
    ensures r < |s| ==> k.key <= s[r].key
  {
    if s == [] || Compare(s[0], k) >= 0 then 0 else 1 + FirstAtLeast(s[1..], k)
  }

  /// Index of the first value that compares greater than `k`: the reference
  /// for `upper_bound`.
  function FirstAbove(s: seq<Entry>, k: Entry): (r: nat)
    ensures r <= |s|
    ensures forall i :: 0 <= i < r ==> s[i].key <= k.key
    ensures r < |s| ==> k.key < s[r].key
  {
    if s == [] || Compare(s[0], k) > 0 then 0 else 1 + FirstAbove(s[1..], k)
  }

  /// On a sorted sequence the two scans split it into "less", "equal" and
  /// "greater" parts.
  lemma SortedBounds(s: seq<Entry>, k: Entry)
    requires Sorted(s)
    ensures FirstAtLeast(s, k) <= FirstAbove(s, k)
    ensures forall i :: FirstAtLeast(s, k) <= i < |s| ==> k.key <= s[i].key
    ensures forall i :: FirstAbove(s, k) <= i < |s| ==> k.key < s[i].key
    ensures forall i :: 0 <= i < |s| ==> (s[i].key == k.key <==> FirstAtLeast(s, k) <= i < FirstAbove(s, k))
  {
  }

  /// Where one position stands against the two bounds of `k`.
  lemma BoundsAt(s: seq<Entry>, k: Entry, p: int)
    requires Sorted(s) && 0 <= p < |s|
    ensures k.key <= s[p].key <==> FirstAtLeast(s, k) <= p
    ensures k.key < s[p].key <==> FirstAbove(s, k) <= p
    ensures FirstAtLeast(s, k) <= FirstAbove(s, k)
  {
    SortedBounds(s, k);
  }

  /// The values of `s` that compare equal to `k`, in their order in `s`.
  function EqualTo(s: seq<Entry>, k: Entry): (r: seq<Entry>)
    ensures |r| <= |s|
    ensures forall x :: x in r ==> x in s && x.key == k.key
  {
    if s == [] then []
    else if Compare(s[0], k) == 0 then [s[0]] + EqualTo(s[1..], k)
    else EqualTo(s[1..], k)
  }

  lemma {:induction false} EqualToConcat(a: seq<Entry>, b: seq<Entry>, k: Entry)
    ensures EqualTo(a + b, k) == EqualTo(a, k) + EqualTo(b, k)
  {
    if a == [] {
      assert a + b == b;
    } else {
      assert (a + b)[0] == a[0];
      assert (a + b)[1..] == a[1..] + b;
      EqualToConcat(a[1..], b, k);
    }
  }

  lemma EqualToSingle(v: Entry, k: Entry)
    ensures EqualTo([v], k) == if v.key == k.key then [v] else []
  {
    assert [v][1..] == [];
  }

  lemma {:induction false} EqualToNone(s: seq<Entry>, k: Entry)
    requires forall i :: 0 <= i < |s| ==> s[i].key != k.key
    ensures EqualTo(s, k) == []
  {
    if s != [] {
      EqualToNone(s[1..], k);
    }
  }

  lemma {:induction false} EqualToAll(s: seq<Entry>, k: Entry)
    requires forall i :: 0 <= i < |s| ==> s[i].key == k.key
    ensures EqualTo(s, k) == s
  {
    if s != [] {
      EqualToAll(s[1..], k);
    }
  }

  /// The equal range of a sorted sequence is exactly its values equal to
  /// `k`, so its length is their number.
  lemma EqualRangeIsEqualTo(s: seq<Entry>, k: Entry)
    requires Sorted(s)
    ensures s[FirstAtLeast(s, k)..FirstAbove(s, k)] == EqualTo(s, k)
    ensures FirstAbove(s, k) - FirstAtLeast(s, k) == |EqualTo(s, k)|
  {
    SortedBounds(s, k);
    EqualRangeAt(s, k, FirstAtLeast(s, k), FirstAbove(s, k));
  }

  /// A stretch of `s` holding exactly the matches of `k` is their EqualTo.
  lemma EqualRangeAt(s: seq<Entry>, k: Entry, lo: int, hi: int)
    requires 0 <= lo <= hi <= |s|
    requires forall i :: 0 <= i < |s| ==> (s[i].key == k.key <==> lo <= i < hi)
    ensures s[lo..hi] == EqualTo(s, k)
  {
    EqualToThree(s[..lo], s[lo..hi], s[hi..], k);
    assert s == s[..lo] + s[lo..hi] + s[hi..];
  }

  /// EqualTo of a three-part sequence whose outer parts hold no match and
  /// whose middle part holds only matches.
  lemma EqualToThree(less: seq<Entry>, same: seq<Entry>, more: seq<Entry>, k: Entry)
    requires forall i :: 0 <= i < |less| ==> less[i].key != k.key
    requires forall i :: 0 <= i < |same| ==> same[i].key == k.key
    requires forall i :: 0 <= i < |more| ==> more[i].key != k.key
    ensures EqualTo(less + same + more, k) == same
  {
    EqualToNone(less, k);
    EqualToAll(same, k);
    EqualToNone(more, k);
    EqualToConcat(less + same, more, k);
    EqualToConcat(less, same, k);
  }

  /// The first value not below `k` compares equal to it exactly when some
  /// value does: the test insert_unique and find make.
  lemma LowerBoundHit(s: seq<Entry>, k: Entry)
    requires Sorted(s)
    ensures (FirstAtLeast(s, k) < |s| && s[FirstAtLeast(s, k)].key == k.key) <==> EqualTo(s, k) != []
  {
    EqualRangeIsEqualTo(s, k);
    SortedBounds(s, k);
  }

  /// `rbt_insert`: the new value goes after every value equal to it.
  function InsertMulti(s: seq<Entry>, v: Entry): seq<Entry>
  {
    s[..FirstAbove(s, v)] + [v] + s[FirstAbove(s, v)..]
  }

  /// `rbt_insert_unique` and the inserting case of `rbt_insert_or_assign`:
  /// the new value goes before every value greater than it.
  function InsertBefore(s: seq<Entry>, v: Entry): seq<Entry>
  {
    s[..FirstAtLeast(s, v)] + [v] + s[FirstAtLeast(s, v)..]
  }

  /// Inserting keeps a sequence sorted and adds exactly the new value.
  lemma InsertMultiSorted(s: seq<Entry>, v: Entry)
    requires Sorted(s)
    ensures Sorted(InsertMulti(s, v))
    ensures multiset(InsertMulti(s, v)) == multiset(s) + multiset{v}
    ensures |InsertMulti(s, v)| == |s| + 1
  {
    SortedBounds(s, v);
    InsertBetween(s, FirstAbove(s, v), v);
  }

  /// Placing `v` at an index where it fits between its neighbours.
  lemma InsertBetween(s: seq<Entry>, u: int, v: Entry)
    requires Sorted(s) && 0 <= u <= |s|
    requires forall i :: 0 <= i < u ==> s[i].key <= v.key
    requires forall i :: u <= i < |s| ==> v.key <= s[i].key
    ensures Sorted(s[..u] + [v] + s[u..])
    ensures multiset(s[..u] + [v] + s[u..]) == multiset(s) + multiset{v}
  {
    var t := s[..u] + [v] + s[u..];
    assert s == s[..u] + s[u..];
    assert forall i :: 0 <= i < u ==> t[i] == s[i];
    assert t[u] == v;
    assert forall i :: u < i < |t| ==> t[i] == s[i - 1];
    forall i, j | 0 <= i < j < |t| ensures t[i].key <= t[j].key {
      if j < u {
      } else if j == u {
      } else if i < u {
        assert s[i].key <= s[j - 1].key;
      } else if i == u {
      } else {
        assert s[i - 1].key <= s[j - 1].key;
      }
    }
  }

  /// No value from the first one above `k` on equals `k`, so the values
  /// equal to `k` all lie before it.
  lemma AboveSplit(s: seq<Entry>, k: Entry)
    requires Sorted(s)
    ensures EqualTo(s[FirstAbove(s, k)..], k) == []
    ensures EqualTo(s[..FirstAbove(s, k)], k) == EqualTo(s, k)
  {
    var u := FirstAbove(s, k);
    var back := s[u..];
    forall i | 0 <= i < |back|
      ensures back[i].key != k.key
    {
      BoundsAt(s, k, u + i);
      assert back[i] == s[u + i];
    }
    EqualToNone(back, k);
    SplitAt(s, u);
    EqualToConcat(s[..u], back, k);
  }

  /// Duplicates keep insertion order: the new value comes after all the
  /// values equal to it that were already there.
  lemma InsertMultiKeepsArrivalOrder(s: seq<Entry>, v: Entry)
    requires Sorted(s)
    ensures EqualTo(InsertMulti(s, v), v) == EqualTo(s, v) + [v]
  {
    var u := FirstAbove(s, v);
    var front, back := s[..u], s[u..];
    AboveSplit(s, v);
    EqualToSingle(v, v);
    EqualToConcat(front, [v], v);
    EqualToConcat(front + [v], back, v);
    calc {
      EqualTo(InsertMulti(s, v), v);
      EqualTo(front + [v], v) + EqualTo(back, v);
      EqualTo(front, v) + [v];
      EqualTo(s, v) + [v];
    }
  }

  /// Inserting before the greater values keeps a sequence sorted and adds
  /// exactly the new value; when no equal value was present the result
  /// holds exactly one.
  lemma InsertBeforeSorted(s: seq<Entry>, v: Entry)
    requires Sorted(s)
    ensures Sorted(InsertBefore(s, v))
    ensures multiset(InsertBefore(s, v)) == multiset(s) + multiset{v}
    ensures |InsertBefore(s, v)| == |s| + 1
    ensures EqualTo(s, v) == [] ==> EqualTo(InsertBefore(s, v), v) == [v]
  {
    SortedBounds(s, v);
    InsertBetween(s, FirstAtLeast(s, v), v);
    if EqualTo(s, v) == [] {
      InsertBeforeFresh(s, v);
    }
  }

  lemma InsertBeforeFresh(s: seq<Entry>, v: Entry)
    requires EqualTo(s, v) == []
    ensures EqualTo(InsertBefore(s, v), v) == [v]
  {
    EqualToEmpty(s, v);
    var u, t := FirstAtLeast(s, v), InsertBefore(s, v);
    assert forall i :: 0 <= i < |t| ==> t[i] == if i < u then s[i] else if i == u then v else s[i - 1];
    EqualRangeAt(t, v, u, u + 1);
  }

  lemma {:induction false} EqualToEmpty(s: seq<Entry>, k: Entry)
    requires EqualTo(s, k) == []
    ensures forall i :: 0 <= i < |s| ==> s[i].key != k.key
  {
    if s != [] {
      EqualToEmpty(s[1..], k);
      assert forall i :: 1 <= i < |s| ==> s[i] == s[1..][i - 1];
    }
  }

  /// Removing the value at index `i`.
  function RemoveAt(s: seq<Entry>, i: nat): seq<Entry>
    requires i < |s|
  {
    s[..i] + s[i + 1..]
  }

  lemma RemoveAtSorted(s: seq<Entry>, i: nat)
    requires Sorted(s) && i < |s|
    ensures Sorted(RemoveAt(s, i))
    ensures multiset(RemoveAt(s, i)) == multiset(s) - multiset{s[i]}
    ensures |RemoveAt(s, i)| == |s| - 1
  {
    var t := RemoveAt(s, i);
    assert s == s[..i] + [s[i]] + s[i + 1..];
    forall a, b | 0 <= a < b < |t| ensures t[a].key <= t[b].key {
      if a < i && b >= i { assert t[a] == s[a] && t[b] == s[b + 1]; }
    }
  }

  /// A slice is its part before `pos`, the element at `pos`, and its part
  /// after it.
  lemma SplitAround(s: seq<Entry>, lo: int, pos: int, hi: int)
    requires 0 <= lo <= pos < hi <= |s|
    ensures s[lo..hi] == s[lo..pos] + [s[pos]] + s[pos + 1..hi]
  {
  }

  /// A slice grows by the element at its end.
  lemma SliceGrow(s: seq<Entry>, lo: int, mid: int, mid1: int)
    requires 0 <= lo <= mid < |s| && mid1 == mid + 1
    ensures s[lo..mid] + [s[mid]] == s[lo..mid1]
  {
  }

  /// A sequence is its prefix and suffix at `i`.
  lemma SplitAt(s: seq<Entry>, i: int)
    requires 0 <= i <= |s|
    ensures s[..i] + s[i..] == s
  {
  }

  /// Removing the values at indices `lo` to `lo + n - 1` one by one, each
  /// at index `lo`: one more removal takes the value at `lo + n`.
  lemma RemoveAtJoin(s: seq<Entry>, lo: nat, n: nat)
    requires lo + n < |s|
    ensures lo < |s[..lo] + s[lo + n..]| && (s[..lo] + s[lo + n..])[lo] == s[lo + n]
    ensures RemoveAt(s[..lo] + s[lo + n..], lo) == s[..lo] + s[lo + n + 1..]
  {
    var t := s[..lo] + s[lo + n..];
    assert t[..lo] == s[..lo];
    assert t[lo + 1..] == s[lo + n + 1..];
  }

  /// `rbt_erase`: every value equal to `k` goes, nothing else changes.
  function RemoveEqual(s: seq<Entry>, k: Entry): seq<Entry>
  {
    s[..FirstAtLeast(s, k)] + s[FirstAbove(s, k)..]
  }

  /// After `rbt_erase` the key is absent, the rest keeps its order, and
  /// erasing it again removes nothing.
  lemma RemoveEqualSpec(s: seq<Entry>, k: Entry)
    requires Sorted(s)
    ensures Sorted(RemoveEqual(s, k))
    ensures |RemoveEqual(s, k)| == |s| - |EqualTo(s, k)|
    ensures EqualTo(RemoveEqual(s, k), k) == []
    ensures FirstAtLeast(RemoveEqual(s, k), k) == FirstAbove(RemoveEqual(s, k), k)
    ensures RemoveEqual(RemoveEqual(s, k), k) == RemoveEqual(s, k)
  {
    var t := RemoveEqual(s, k);
    RemoveEqualNoMatch(s, k);
    EqualRangeIsEqualTo(s, k);
    EqualToNone(t, k);
    TrivialRange(t, k);
  }

  lemma RemoveEqualNoMatch(s: seq<Entry>, k: Entry)
    requires Sorted(s)
    ensures Sorted(RemoveEqual(s, k))
    ensures forall i :: 0 <= i < |RemoveEqual(s, k)| ==> RemoveEqual(s, k)[i].key != k.key
  {
    SortedBounds(s, k);
    var lo, hi := FirstAtLeast(s, k), FirstAbove(s, k);
    var t := RemoveEqual(s, k);
    forall a, b | 0 <= a < b < |t| ensures t[a].key <= t[b].key {
      if a < lo && b >= lo { assert t[a] == s[a] && t[b] == s[b + hi - lo]; }
    }
    forall i | 0 <= i < |t| ensures t[i].key != k.key {
      if i >= lo { assert t[i] == s[i + hi - lo]; }
    }
  }

  lemma TrivialRange(t: seq<Entry>, k: Entry)
    requires Sorted(t)
    requires forall i :: 0 <= i < |t| ==> t[i].key != k.key
    ensures FirstAtLeast(t, k) == FirstAbove(t, k)
    ensures RemoveEqual(t, k) == t
  {
    var lo := FirstAtLeast(t, k);
    if lo < |t| {
      BoundsAt(t, k, lo);
    }
    SplitAt(t, lo);
  }

  /// The values of `s` back to front.
  function Reversed(s: seq<Entry>): (r: seq<Entry>)
    ensures |r| == |s|
  {
    if s == [] then [] else Reversed(s[1..]) + [s[0]]
  }

  lemma {:induction false} ReversedAt(s: seq<Entry>, i: nat)
    requires i < |s|
    ensures Reversed(s)[i] == s[|s| - 1 - i]
  {
    if i < |s| - 1 {
      ReversedAt(s[1..], i);
    }
  }
}
