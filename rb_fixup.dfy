/// The steps of insert_fixup on the arena as a value: each case of the loop
/// body is a recolouring and at most two rotations, and each keeps the
/// arena well formed, the contents as they were and the root black unless
/// the walk has reached it.
module RbFixup {
  import opened RbTypes
  import opened RbShape
  import opened RbRotate

  /// The arena after set_color(n, c).
  ghost function Recoloured(nodes: seq<Node>, n: int, c: bv2): (r: seq<Node>)
    requires 0 <= n < |nodes|
    ensures SameLinks(nodes, r)
  {
    RecolourSameLinks(nodes, n, c);
    nodes[n := nodes[n].(color := SetColorWord(nodes[n].color, c))]
  }

  /// The red-uncle case: the uncle and the parent turn black and the
  /// grandparent red; the root stays black unless it is the grandparent.
  lemma RedUncleStep(nodes: seq<Node>, spans: seq<Span>, order: seq<int>, node: int, uncle: int)
    requires Wf(nodes, spans, order) && RootBlack(nodes) && Live(nodes, spans, order, node)
    requires var p := nodes[node].parent;
      0 < p < |nodes| && Live(nodes, spans, order, p) && p != nodes[0].parent
    requires var g := nodes[nodes[node].parent].parent;
      0 < g < |nodes| && Live(nodes, spans, order, g) && (uncle == nodes[g].left || uncle == nodes[g].right)
    requires 0 <= uncle < |nodes|
    ensures var p := nodes[node].parent; var g := nodes[p].parent;
      var nodes1 := Recoloured(Recoloured(Recoloured(nodes, uncle, BLACK), p, BLACK), g, RED);
      && Wf(nodes1, spans, order) && Contents(nodes1, order) == Contents(nodes, order)
      && (RootBlack(nodes1) || g == nodes1[0].parent)
      && spans[g].hi - spans[g].lo > spans[node].hi - spans[node].lo
  {
    var p := nodes[node].parent;
    var g := nodes[p].parent;
    BelowParent(nodes, spans, order, node);
    BelowParent(nodes, spans, order, p);
    NodeOkOf(nodes, spans, order, g);
    if uncle != 0 {
      NodeOkOf(nodes, spans, order, uncle);
    }
    var nodes1 := Recoloured(nodes, uncle, BLACK);
    var nodes2 := Recoloured(nodes1, p, BLACK);
    var nodes3 := Recoloured(nodes2, g, RED);
    SameLinksTrans(nodes, nodes1, nodes2);
    SameLinksTrans(nodes, nodes2, nodes3);
    RecolourWf(nodes, spans, order, nodes3);
    var r := nodes[0].parent;
    if g != r {
      assert nodes3[r] == nodes[r];
      RootColourKept(nodes, nodes3);
    }
  }

  /// Inside the insert_fixup loop the node is not the root and its parent
  /// is red; since the root is black, the parent is not the root either,
  /// so the grandparent is a live node with the parent as a child.
  lemma RedParentFacts(nodes: seq<Node>, spans: seq<Span>, order: seq<int>, node: int)
    requires Wf(nodes, spans, order) && RootBlack(nodes) && Live(nodes, spans, order, node)
    requires node != nodes[0].parent
    requires 0 <= nodes[node].parent < |nodes| && IsRedWord(nodes[nodes[node].parent].color)
    ensures var p := nodes[node].parent;
      0 < p < |nodes| && Live(nodes, spans, order, p) && p != nodes[0].parent
    ensures var g := nodes[nodes[node].parent].parent;
      && 0 < g < |nodes| && Live(nodes, spans, order, g)
      && 0 <= nodes[g].left < |nodes| && 0 <= nodes[g].right < |nodes|
      && (nodes[g].left == nodes[node].parent || nodes[g].right == nodes[node].parent)
      && spans[g].hi - spans[g].lo <= |order|
  {
    NodeOkOf(nodes, spans, order, node);
    var p := nodes[node].parent;
    NodeOkOf(nodes, spans, order, p);
    NodeOkOf(nodes, spans, order, nodes[p].parent);
  }

  /// rotate_left keeps every colour word.
  lemma RotatedLeftColours(nodes: seq<Node>, x: int, nodes1: seq<Node>)
    requires RotatedLeft(nodes, x, nodes1)
    ensures forall i :: 0 <= i < |nodes| ==> nodes1[i].color == nodes[i].color
  {
  }

  /// rotate_right keeps every colour word.
  lemma RotatedRightColours(nodes: seq<Node>, x: int, nodes1: seq<Node>)
    requires RotatedRight(nodes, x, nodes1)
    ensures forall i :: 0 <= i < |nodes| ==> nodes1[i].color == nodes[i].color
  {
  }

  /// The black-uncle case with the node an inner (right) grandchild of a
  /// left parent: rotate_left at the parent lifts the node into the
  /// parent's place, with the old parent as its left child, and keeps the
  /// root black.
  lemma InnerLeftRotate(nodes: seq<Node>, spans: seq<Span>, order: seq<int>, node: int)
    requires Wf(nodes, spans, order) && RootBlack(nodes) && Live(nodes, spans, order, node)
    requires var p := nodes[node].parent;
      0 < p < |nodes| && Live(nodes, spans, order, p) && nodes[p].right == node
    requires var g := nodes[nodes[node].parent].parent;
      0 < g < |nodes| && Live(nodes, spans, order, g) && nodes[g].left == nodes[node].parent
    ensures var p := nodes[node].parent;
      0 <= nodes[node].left < |nodes| && |spans| == |nodes|
    ensures var p, g := nodes[node].parent, nodes[nodes[node].parent].parent;
      var nodes1, spans1 := RotateLeftLinks(nodes, p), SpansAfterLeft(spans, p, node);
      && RootBlack(nodes1)
      && Live(nodes1, spans1, order, p) && nodes1[p].parent == node
      && Live(nodes1, spans1, order, node) && nodes1[node].parent == g && nodes1[node].left == p
      && Live(nodes1, spans1, order, g) && nodes1[g].left == node
  {
    var p := nodes[node].parent;
    var g := nodes[p].parent;
    BelowParent(nodes, spans, order, node);
    BelowParent(nodes, spans, order, p);
    RotateLeftApplies(nodes, spans, order, p);
    var nodes1 := RotateLeftLinks(nodes, p);
    RotatedLeftColours(nodes, p, nodes1);
  }

  /// The mirror of InnerLeftRotate: the node is the left child of a right
  /// parent, and rotate_right at the parent lifts it.
  lemma InnerRightRotate(nodes: seq<Node>, spans: seq<Span>, order: seq<int>, node: int)
    requires Wf(nodes, spans, order) && RootBlack(nodes) && Live(nodes, spans, order, node)
    requires var p := nodes[node].parent;
      0 < p < |nodes| && Live(nodes, spans, order, p) && nodes[p].left == node
    requires var g := nodes[nodes[node].parent].parent;
      0 < g < |nodes| && Live(nodes, spans, order, g) && nodes[g].right == nodes[node].parent
    ensures var p := nodes[node].parent;
      0 <= nodes[node].right < |nodes| && |spans| == |nodes|
    ensures var p, g := nodes[node].parent, nodes[nodes[node].parent].parent;
      var nodes1, spans1 := RotateRightLinks(nodes, p), SpansAfterRight(spans, p, node);
      && RootBlack(nodes1)
      && Live(nodes1, spans1, order, p) && nodes1[p].parent == node
      && Live(nodes1, spans1, order, node) && nodes1[node].parent == g && nodes1[node].right == p
      && Live(nodes1, spans1, order, g) && nodes1[g].right == node
  {
    var p := nodes[node].parent;
    var g := nodes[p].parent;
    BelowParent(nodes, spans, order, node);
    BelowParent(nodes, spans, order, p);
    RotateRightApplies(nodes, spans, order, p);
    var nodes1 := RotateRightLinks(nodes, p);
    RotatedRightColours(nodes, p, nodes1);
  }

  /// The black-uncle case with the node an outer (left) grandchild of a
  /// left parent: the parent turns black, the grandparent red, and
  /// rotate_right at the grandparent lifts the parent into its place.  The
  /// node keeps its now black parent and is not the root, and the root is
  /// black again whether or not it was the grandparent.
  lemma OuterRightStep(nodes: seq<Node>, spans: seq<Span>, order: seq<int>, node: int)
    requires Wf(nodes, spans, order) && RootBlack(nodes) && Live(nodes, spans, order, node)
    requires var p := nodes[node].parent;
      0 < p < |nodes| && Live(nodes, spans, order, p) && nodes[p].left == node
    requires var g := nodes[nodes[node].parent].parent;
      0 < g < |nodes| && Live(nodes, spans, order, g) && nodes[g].left == nodes[node].parent
    ensures var p, g := nodes[node].parent, nodes[nodes[node].parent].parent;
      var nodes2 := Recoloured(Recoloured(nodes, p, BLACK), g, RED);
      && Wf(nodes2, spans, order) && Contents(nodes2, order) == Contents(nodes, order)
      && Live(nodes2, spans, order, g) && nodes2[g].left == p && p != 0
      && nodes2[p].parent == g && nodes2[node].parent == p
      && 0 <= nodes2[p].right < |nodes2| && 0 <= nodes2[g].parent < |nodes2|
    ensures var p, g := nodes[node].parent, nodes[nodes[node].parent].parent;
      var nodes2 := Recoloured(Recoloured(nodes, p, BLACK), g, RED);
      0 <= p < |nodes2| && 0 < g < |nodes2| && 0 <= nodes2[g].left < |nodes2| &&
      var nodes3, spans3 := RotateRightLinks(nodes2, g), SpansAfterRight(spans, g, p);
      && RootBlack(nodes3)
      && Live(nodes3, spans3, order, node) && node != nodes3[0].parent
      && nodes3[node].parent == p && ColorOf(nodes3[p].color) == BLACK
  {
    var p := nodes[node].parent;
    var g := nodes[p].parent;
    BelowParent(nodes, spans, order, node);
    BelowParent(nodes, spans, order, p);
    var nodes1 := Recoloured(nodes, p, BLACK);
    var nodes2 := Recoloured(nodes1, g, RED);
    SameLinksTrans(nodes, nodes1, nodes2);
    RecolourWf(nodes, spans, order, nodes2);
    assert nodes2[p].color == SetColorWord(nodes[p].color, BLACK);
    RotateRightApplies(nodes2, spans, order, g);
    var nodes3 := RotateRightLinks(nodes2, g);
    RotatedRightColours(nodes2, g, nodes3);
    RotateRightKeepsOuter(nodes2, spans, order, g, nodes3);
    NodeOkOf(nodes, spans, order, g);
    var r := nodes[0].parent;
    if g == r {
      assert nodes3[0].parent == p;
    } else {
      assert nodes2[r] == nodes[r] && nodes2[0] == nodes[0];
      assert nodes3[0] == nodes2[0];
    }
  }

  /// The mirror of OuterRightStep, for a right child of a right parent.
  lemma OuterLeftStep(nodes: seq<Node>, spans: seq<Span>, order: seq<int>, node: int)
    requires Wf(nodes, spans, order) && RootBlack(nodes) && Live(nodes, spans, order, node)
    requires var p := nodes[node].parent;
      0 < p < |nodes| && Live(nodes, spans, order, p) && nodes[p].right == node
    requires var g := nodes[nodes[node].parent].parent;
      0 < g < |nodes| && Live(nodes, spans, order, g) && nodes[g].right == nodes[node].parent
    ensures var p, g := nodes[node].parent, nodes[nodes[node].parent].parent;
      var nodes2 := Recoloured(Recoloured(nodes, p, BLACK), g, RED);
      && Wf(nodes2, spans, order) && Contents(nodes2, order) == Contents(nodes, order)
      && Live(nodes2, spans, order, g) && nodes2[g].right == p && p != 0
      && nodes2[p].parent == g && nodes2[node].parent == p
      && 0 <= nodes2[p].left < |nodes2| && 0 <= nodes2[g].parent < |nodes2|
    ensures var p, g := nodes[node].parent, nodes[nodes[node].parent].parent;
      var nodes2 := Recoloured(Recoloured(nodes, p, BLACK), g, RED);
      0 <= p < |nodes2| && 0 < g < |nodes2| && 0 <= nodes2[g].right < |nodes2| &&
      var nodes3, spans3 := RotateLeftLinks(nodes2, g), SpansAfterLeft(spans, g, p);
      && RootBlack(nodes3)
      && Live(nodes3, spans3, order, node) && node != nodes3[0].parent
      && nodes3[node].parent == p && ColorOf(nodes3[p].color) == BLACK
  {
    var p := nodes[node].parent;
    var g := nodes[p].parent;
    BelowParent(nodes, spans, order, node);
    BelowParent(nodes, spans, order, p);
    var nodes1 := Recoloured(nodes, p, BLACK);
    var nodes2 := Recoloured(nodes1, g, RED);
    SameLinksTrans(nodes, nodes1, nodes2);
    RecolourWf(nodes, spans, order, nodes2);
    assert nodes2[p].color == SetColorWord(nodes[p].color, BLACK);
    RotateLeftApplies(nodes2, spans, order, g);
    var nodes3 := RotateLeftLinks(nodes2, g);
    RotatedLeftColours(nodes2, g, nodes3);
    RotateLeftKeepsOuter(nodes2, spans, order, g, nodes3);
    NodeOkOf(nodes, spans, order, g);
    var r := nodes[0].parent;
    if g == r {
      assert nodes3[0].parent == p;
    } else {
      assert nodes2[r] == nodes[r] && nodes2[0] == nodes[0];
      assert nodes3[0] == nodes2[0];
    }
  }
}
