/// The test driver test.c on a concrete arena: five insertions
/// (10, 1, 5, 15, 2), then rbt_erase of 5 and of 10, after which
/// rbt_for_each_val visits 1, 2, 15.  Neither removal enters the loop of
/// erase_fixup, so both are covered by RbRemove.EraseWf and by the
/// precondition of RbTree.Tree.Erase.
module RbScenario {
  import opened RbTypes
  import opened RbShape
  import opened RbErase
  import opened RbRemove
  import RbSpec

  function E(k: int): Option<Entry> { Some(Entry(k, 0)) }

  /// The tree the five insertions build, slot `i` holding the `i`-th value
  /// inserted.  Inserting 5 under the red 1 finds the red sentinel as
  /// uncle, so insert_fixup recolours (the sentinel becomes black too);
  /// inserting 2 under the red 5 then finds a black nil uncle and rotates
  /// right at 5, then left at 1, which puts 2 between 1 and 5.
  function TestArena(): seq<Node>
  {
    [Node(None, NIL_BIT | BLACK, 2, 4, 1),
     Node(E(10), BLACK, 5, 4, 0),
     Node(E(1), RED, 0, 0, 5),
     Node(E(5), RED, 0, 0, 5),
     Node(E(15), RED, 0, 0, 1),
     Node(E(2), BLACK, 2, 3, 1)]
  }

  function TestOrder(): seq<int> { [2, 5, 3, 1, 4] }

  function TestSpans(): seq<Span>
  {
    [Span(0, 0, 0), Span(0, 3, 5), Span(0, 0, 1), Span(2, 2, 3), Span(4, 4, 5), Span(0, 1, 3)]
  }

  lemma TestArenaWf()
    ensures Wf(TestArena(), TestSpans(), TestOrder())
    ensures Contents(TestArena(), TestOrder()) == [Entry(1, 0), Entry(2, 0), Entry(5, 0), Entry(10, 0), Entry(15, 0)]
  {
    var ns, sp, o := TestArena(), TestSpans(), TestOrder();
    forall n | Live(ns, sp, o, n)
      ensures NodeOk(ns, sp, o, n)
    {
      assert n in {1, 2, 3, 4, 5};
    }
  }

  /// rbt_erase of 5: the red leaf 5 leaves, erase_fixup gets the root and
  /// does nothing, and the run of equal values rbt_erase walks (from index
  /// 2 until 4 values are left) is idle, as RbTree.Tree.Erase requires.
  lemma EraseFive()
    ensures var ns, sp, o := TestArena(), TestSpans(), TestOrder();
      var c := Contents(ns, o);
      && RbSpec.FirstAtLeast(c, Entry(5, 0)) == 2 && |o| - |RbSpec.EqualTo(c, Entry(5, 0))| == 4
      && FixupIdle(ns, sp, o, 3) && IdleRun(ns, sp, o, 2, 4)
      && ErasedNodes(ns, sp, o, 3) == AfterFive()
      && ExtractSpans(ns, sp, o, 3) == AfterFiveSpans()
      && OrderAfterExtract(o, 2) == [2, 5, 1, 4]
      && Wf(AfterFive(), AfterFiveSpans(), [2, 5, 1, 4])
      && Contents(AfterFive(), [2, 5, 1, 4]) == [Entry(1, 0), Entry(2, 0), Entry(10, 0), Entry(15, 0)]
  {
    EraseFiveKey();
    EraseFiveArena();
    EraseFiveWf();
  }

  /// Where rbt_erase's run for 5 starts, and how many values it keeps.
  lemma EraseFiveKey()
    ensures var c := Contents(TestArena(), TestOrder());
      RbSpec.FirstAtLeast(c, Entry(5, 0)) == 2 && |TestOrder()| - |RbSpec.EqualTo(c, Entry(5, 0))| == 4
  {
    TestArenaWf();
  }

  /// Removing 5 keeps the arena well formed and leaves 1, 2, 10, 15.
  lemma EraseFiveWf()
    ensures Wf(AfterFive(), AfterFiveSpans(), [2, 5, 1, 4])
    ensures Contents(AfterFive(), [2, 5, 1, 4]) == [Entry(1, 0), Entry(2, 0), Entry(10, 0), Entry(15, 0)]
  {
    TestArenaWf();
    EraseFiveArena();
    EraseWf(TestArena(), TestSpans(), TestOrder(), 3);
  }

  /// The arena, intervals and order that removing 5 leaves.
  lemma EraseFiveArena()
    ensures var ns, sp, o := TestArena(), TestSpans(), TestOrder();
      && FixupIdle(ns, sp, o, 3) && IdleRun(ns, sp, o, 2, 4)
      && ErasedNodes(ns, sp, o, 3) == AfterFive()
      && ExtractSpans(ns, sp, o, 3) == AfterFiveSpans()
      && OrderAfterExtract(o, 2) == [2, 5, 1, 4]
  {
    var ns, sp, o := TestArena(), TestSpans(), TestOrder();
    assert ExtractNodes(ns, sp, o, 3) == AfterFive();
    assert ExtractSpans(ns, sp, o, 3) == AfterFiveSpans();
    assert OrderAfterExtract(o, 2) == [2, 5, 1, 4];
  }

  /// The arena after erasing 5: only the right link of 2 changes.
  function AfterFive(): seq<Node>
  {
    [Node(None, NIL_BIT | BLACK, 2, 4, 1),
     Node(E(10), BLACK, 5, 4, 0),
     Node(E(1), RED, 0, 0, 5),
     Node(E(5), RED, 0, 0, 5),
     Node(E(15), RED, 0, 0, 1),
     Node(E(2), BLACK, 2, 0, 1)]
  }

  function AfterFiveSpans(): seq<Span>
  {
    [Span(0, 0, 0), Span(0, 2, 4), Span(0, 0, 1), Span(2, 2, 2), Span(3, 3, 4), Span(0, 1, 2)]
  }

  /// rbt_erase of 10, the root with two children: its successor 15 is red,
  /// so erase_fixup again gets the root and does nothing; 15 becomes the
  /// black root over 2, and the tree holds 1, 2, 15, the values
  /// rbt_for_each_val then visits.
  lemma EraseTen()
    ensures var ns, sp, o := AfterFive(), AfterFiveSpans(), [2, 5, 1, 4];
      var c := Contents(ns, o);
      && RbSpec.FirstAtLeast(c, Entry(10, 0)) == 2 && |o| - |RbSpec.EqualTo(c, Entry(10, 0))| == 3
      && FixupIdle(ns, sp, o, 1) && IdleRun(ns, sp, o, 2, 3)
      && ErasedNodes(ns, sp, o, 1) == AfterTen()
      && OrderAfterExtract(o, 2) == [2, 5, 4]
      && Wf(AfterTen(), ExtractSpans(ns, sp, o, 1), [2, 5, 4])
      && Contents(AfterTen(), [2, 5, 4]) == [Entry(1, 0), Entry(2, 0), Entry(15, 0)]
  {
    EraseTenKey();
    EraseTenArena();
    EraseTenWf();
  }

  /// Where rbt_erase's run for 10 starts, and how many values it keeps.
  lemma EraseTenKey()
    ensures var c := Contents(AfterFive(), [2, 5, 1, 4]);
      RbSpec.FirstAtLeast(c, Entry(10, 0)) == 2 && 4 - |RbSpec.EqualTo(c, Entry(10, 0))| == 3
  {
    EraseFiveWf();
  }

  /// Removing 10 keeps the arena well formed and leaves 1, 2, 15.
  lemma EraseTenWf()
    ensures Wf(AfterTen(), ExtractSpans(AfterFive(), AfterFiveSpans(), [2, 5, 1, 4], 1), [2, 5, 4])
    ensures Contents(AfterTen(), [2, 5, 4]) == [Entry(1, 0), Entry(2, 0), Entry(15, 0)]
  {
    EraseFiveWf();
    EraseTenArena();
    EraseWf(AfterFive(), AfterFiveSpans(), [2, 5, 1, 4], 1);
  }

  /// The arena and order that removing 10 leaves.
  lemma EraseTenArena()
    ensures var ns, sp, o := AfterFive(), AfterFiveSpans(), [2, 5, 1, 4];
      && FixupIdle(ns, sp, o, 1) && IdleRun(ns, sp, o, 2, 3)
      && ErasedNodes(ns, sp, o, 1) == AfterTen()
      && OrderAfterExtract(o, 2) == [2, 5, 4]
  {
    var ns, sp, o := AfterFive(), AfterFiveSpans(), [2, 5, 1, 4];
    assert ExtractNodes(ns, sp, o, 1) == AfterTen();
    assert OrderAfterExtract(o, 2) == [2, 5, 4];
  }

  /// The arena after erasing 10: the root link and the maximum cache name
  /// 15, which now has 2 as its left child.
  function AfterTen(): seq<Node>
  {
    [Node(None, NIL_BIT | BLACK, 2, 4, 4),
     Node(E(10), BLACK, 5, 4, 0),
     Node(E(1), RED, 0, 0, 5),
     Node(E(5), RED, 0, 0, 5),
     Node(E(15), BLACK, 5, 0, 0),
     Node(E(2), BLACK, 2, 0, 4)]
  }
}
