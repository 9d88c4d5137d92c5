/**
 * Row keys and regions. A key is an unsigned byte string ordered the way the
 * store's `Bytes.compareTo` orders them: byte by byte, a proper prefix first.
 * A region covers the half-open key range [startKey, endKey), where an empty
 * end key means "no upper bound" (the store's `HRegionInfo.containsRow`).
 */
module Keys {

  type Byte = b: int | 0 <= b < 256

  type Key = seq<Byte>

  /** Lexicographic unsigned order on byte strings. */
  predicate Less(a: Key, b: Key)
  {
    if a == [] then b != []
    else if b == [] then false
    else if a[0] != b[0] then a[0] < b[0]
    else Less(a[1..], b[1..])
  }

  lemma {:induction false} LessTransitive(a: Key, b: Key, c: Key)
    requires Less(a, b) && Less(b, c)
    ensures Less(a, c)
  {
    if a != [] && a[0] == b[0] && b[0] == c[0] {
      LessTransitive(a[1..], b[1..], c[1..]);
    }
  }

  /** Any two different keys are ordered one way or the other. */
  lemma {:induction false} LessTotal(a: Key, b: Key)
    requires a != b
    ensures Less(a, b) || Less(b, a)
  {
    if a != [] && b != [] && a[0] == b[0] {
      assert a == [a[0]] + a[1..] && b == [b[0]] + b[1..];
      LessTotal(a[1..], b[1..]);
    }
  }

  /** A key below c is below every key b that is not below c. */
  lemma LessBelow(a: Key, b: Key, c: Key)
    requires Less(a, c) && !Less(b, c)
    ensures Less(a, b)
  {
    if b != c {
      LessTotal(b, c);
      LessTransitive(a, c, b);
    }
  }

  /** A region as the planner sees it: its name (the size-map key) and its key range. */
  datatype Region = Region(name: Key, startKey: Key, endKey: Key)

  /** `HRegionInfo.containsRow`: startKey <= row, and row < endKey unless endKey is empty. */
  predicate Contains(r: Region, row: Key)
  {
    !Less(row, r.startKey) && (r.endKey == [] || Less(row, r.endKey))
  }

  /** The larger and the smaller of two keys. */
  function KeyMax(a: Key, b: Key): Key
  {
    if Less(a, b) then b else a
  }

  function KeyMin(a: Key, b: Key): Key
  {
    if Less(a, b) then a else b
  }
}
