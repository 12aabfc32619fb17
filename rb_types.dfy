/// Value types of the red-black tree's public interface: the stored values
/// and their comparator, the colour word of a node, iterators and the result
/// records returned by the insert and range operations.
module RbTypes {

  datatype Option<+T> = None | Some(value: T)

  /// A stored value.  The tree only ever looks at a value through the
  /// comparator, which orders values by `key`; `payload` stands for the rest
  /// of the caller's object, so that replacing a value in place is visible.
  datatype Entry = Entry(key: int, payload: int)

  /// The comparator: negative for less, zero for equal, positive for greater.
  function Compare(a: Entry, b: Entry): (r: int)
    ensures r < 0 <==> a.key < b.key
    ensures r == 0 <==> a.key == b.key
    ensures r > 0 <==> b.key < a.key
  {
    if a.key < b.key then -1 else if a.key == b.key then 0 else 1
  }

  /// Bit 0 of a node's colour word is red (0) or black (1); bit 1 marks the
  /// sentinel.
  type ColorWord = bv2

  const RED: bv2 := 0
  const BLACK: bv2 := 1
  const NIL_BIT: bv2 := 2

  function ColorOf(c: ColorWord): bv2 { c & 1 }
  predicate IsBlackWord(c: ColorWord) { ColorOf(c) == BLACK }
  predicate IsRedWord(c: ColorWord) { !IsBlackWord(c) }
  predicate IsNilWord(c: ColorWord) { c & NIL_BIT != 0 }

  /// set_color: clears or sets bit 0 and keeps the sentinel bit.
  function SetColorWord(c: ColorWord, color: bv2): (r: ColorWord)
    ensures ColorOf(r) == (if color == RED then RED else BLACK)
    ensures IsNilWord(r) == IsNilWord(c)
  {
    if color == RED then c & !1 else c | BLACK
  }

  /// An iterator: a node of the tree (0 is the sentinel, which is `end`) and
  /// the direction flag.
  datatype Iterator = Iterator(node: int, isReverse: bool)

  function MakeIter(node: int): Iterator { Iterator(node, false) }
  function MakeRIter(node: int): Iterator { Iterator(node, true) }

  /// Comparing iterators of different directions is a usage error.
  function IterEq(lhs: Iterator, rhs: Iterator): (r: bool)
    requires lhs.isReverse == rhs.isReverse
    ensures r <==> lhs.node == rhs.node
  {
    lhs.node == rhs.node
  }

  /// Error codes carried by the result records.
  const OK: int := 0
  const DUPLICATE: int := -1
  /// ENOMEM as defined by Linux's errno.h.
  const ENOMEM: int := 12

  datatype InsertResult = InsertResult(err: int, pos: Iterator)
  datatype InsertOrAssignResult = InsertOrAssignResult(err: int, pos: Iterator, previous: Option<Entry>)
  datatype EqRangeResult = EqRangeResult(first: Iterator, last: Iterator)

  /// The child slot of `parent` that a search ends in.
  datatype Side = Left | Right
  datatype InsPack = InsPack(parent: int, pos: Side)
  datatype FindResult = FindResult(pack: InsPack, curr: int)
  datatype NodePair = NodePair(first: int, second: int)
}
