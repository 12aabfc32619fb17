/// Two places where extract_node, as written, leaves the sentinel's root
/// link naming a node that is not the root.  Each is shown on a concrete,
/// well-formed arena: the code as written (`fixed == false` in
/// ExtractLinks) yields an arena that no interval assignment makes well
/// formed, while the corrected code (`fixed == true`, the form every
/// operation of the model uses) keeps the root; RbRemove.ExtractWf proves
/// the corrected code right on every well-formed arena.
module RbFindings {
  import opened RbTypes
  import opened RbShape
  import opened RbErase

  function E(k: int): Option<Entry> { Some(Entry(k, 0)) }

  /// The tree that inserting 4, 2, 6, 1, 3, 5, 7 builds: slot `i` holds
  /// the `i`-th value inserted, the root 4 and its children are black.
  function Balanced(): seq<Node>
  {
    [Node(None, NIL_BIT, 4, 7, 1),
     Node(E(4), BLACK, 2, 3, 0),
     Node(E(2), BLACK, 4, 5, 1),
     Node(E(6), BLACK, 6, 7, 1),
     Node(E(1), RED, 0, 0, 2),
     Node(E(3), RED, 0, 0, 2),
     Node(E(5), RED, 0, 0, 3),
     Node(E(7), RED, 0, 0, 3)]
  }

  function BalancedOrder(): seq<int> { [4, 2, 5, 1, 6, 3, 7] }

  function BalancedSpans(): seq<Span>
  {
    [Span(0, 0, 0), Span(0, 3, 7), Span(0, 1, 3), Span(4, 5, 7),
     Span(0, 0, 1), Span(2, 2, 3), Span(4, 4, 5), Span(6, 6, 7)]
  }

  lemma BalancedWf()
    ensures Wf(Balanced(), BalancedSpans(), BalancedOrder())
    ensures Contents(Balanced(), BalancedOrder()) == [Entry(1, 0), Entry(2, 0), Entry(3, 0), Entry(4, 0),
                                                      Entry(5, 0), Entry(6, 0), Entry(7, 0)]
  {
    BalancedNodesOk();
  }

  lemma BalancedNodesOk()
    ensures AllNodesOk(Balanced(), BalancedSpans(), BalancedOrder())
  {
    var ns, sp, o := Balanced(), BalancedSpans(), BalancedOrder();
    forall n | Live(ns, sp, o, n)
      ensures NodeOk(ns, sp, o, n)
    {
      assert n in {1, 2, 3, 4, 5, 6, 7};
    }
  }

  /// Line 436 as written: erasing 2, whose successor 3 is its right child
  /// with no right child, stores the successor in the sentinel's root link
  /// (`fixnode` is the sentinel), though 4 stays the root.
  lemma RootLinkLostAtSplice(spans: seq<Span>, order: seq<int>)
    ensures var r := ExtractLinks(Balanced(), 2, 5, 4, false);
      && r[0].parent == 5 && r[5].parent == 1 && r[1].parent == 0
      && !Wf(r, spans, order)
  {
    var r := ExtractLinks(Balanced(), 2, 5, 4, false);
    assert r == [Node(None, NIL_BIT, 4, 7, 5),
                 Node(E(4), BLACK, 5, 3, 0),
                 Node(E(2), BLACK, 4, 5, 1),
                 Node(E(6), BLACK, 6, 7, 1),
                 Node(E(1), RED, 0, 0, 5),
                 Node(E(3), BLACK, 4, 0, 1),
                 Node(E(5), RED, 0, 0, 3),
                 Node(E(7), RED, 0, 0, 3)];
    if Wf(r, spans, order) {
      NotTheRoot(r, spans, order, 5);
    }
  }

  /// The corrected splice on the same erase keeps 4 as the root.
  lemma RootLinkKeptAtSplice()
    ensures var r := ExtractLinks(Balanced(), 2, 5, 4, true);
      r[0].parent == 1 && r[5].parent == 1 && r[1].left == 5
  {
  }

  /// The tree that inserting 1, 3, 2 builds: the sentinel counts as a red
  /// uncle of 2, so insert_fixup recolours (the sentinel too) instead of
  /// rotating, and the root 1 keeps a right child 3 whose left child is 2.
  function Leaning(): seq<Node>
  {
    [Node(None, NIL_BIT | BLACK, 1, 2, 1),
     Node(E(1), BLACK, 0, 2, 0),
     Node(E(3), BLACK, 3, 0, 1),
     Node(E(2), RED, 0, 0, 2)]
  }

  function LeaningOrder(): seq<int> { [1, 3, 2] }

  function LeaningSpans(): seq<Span> { [Span(0, 0, 0), Span(0, 0, 3), Span(1, 2, 3), Span(1, 1, 2)] }

  lemma LeaningWf()
    ensures Wf(Leaning(), LeaningSpans(), LeaningOrder())
  {
    var ns, sp, o := Leaning(), LeaningSpans(), LeaningOrder();
    forall n | Live(ns, sp, o, n)
      ensures NodeOk(ns, sp, o, n)
    {
      assert n in {1, 2, 3};
    }
  }

  /// Lines 418-419 as written: erasing the root 1, which is also the
  /// minimum, gives the root link the new minimum 2 (leftmost of the right
  /// subtree), though the node that takes 1's place is its child 3.
  lemma RootLinkLostAtCaches(spans: seq<Span>, order: seq<int>)
    ensures var r := ExtractLinks(Leaning(), 1, 3, 0, false);
      && r[0].parent == 3 && r[3].parent == 2 && r[2].parent == 0
      && !Wf(r, spans, order)
  {
    var r := ExtractLinks(Leaning(), 1, 3, 0, false);
    assert r == [Node(None, NIL_BIT | BLACK, 3, 2, 3),
                 Node(E(1), BLACK, 0, 2, 0),
                 Node(E(3), BLACK, 3, 0, 0),
                 Node(E(2), RED, 0, 0, 2)];
    if Wf(r, spans, order) {
      NotTheRoot(r, spans, order, 3);
    }
  }

  /// The corrected caches on the same erase name 3, the node that takes
  /// the root's place.
  lemma RootLinkKeptAtCaches()
    ensures var r := ExtractLinks(Leaning(), 1, 3, 0, true);
      r[0].parent == 2 && r[2].parent == 0 && r[0].left == 3
  {
  }

  /// In a well-formed arena the node the root link names has no parent.
  lemma NotTheRoot(nodes: seq<Node>, spans: seq<Span>, order: seq<int>, n: int)
    requires Wf(nodes, spans, order) && 0 < n < |nodes| && nodes[0].parent == n
    ensures nodes[n].parent == 0
  {
    if |order| == 0 {
      assert nodes[0].parent == 0;
    } else {
      assert NodeOk(nodes, spans, order, n);
    }
  }
}
