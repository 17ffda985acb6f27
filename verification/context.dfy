/** The read interface the renderers use of an exception: its type name, the
    source location captured at construction, and its key/value entries in
    iteration order, which is ascending key order with no key twice. */
module Context {
  import opened ExceptionValue

  /** `source_location::line()` is a 32-bit unsigned value. */
  type UInt32 = n: int | 0 <= n < 0x1_0000_0000

  datatype SourceLocation = SourceLocation(file: string, line: UInt32)

  /** `std::string`'s `<`: byte-wise lexicographic order, a proper prefix first. */
  predicate KeyLess(a: string, b: string)
  {
    if b == [] then false
    else if a == [] then true
    else if a[0] != b[0] then a[0] < b[0]
    else KeyLess(a[1..], b[1..])
  }

  predicate Ascending(entries: seq<(string, Value)>)
  {
    forall i, j :: 0 <= i < j < |entries| ==> KeyLess(entries[i].0, entries[j].0)
  }

  type Entries = es: seq<(string, Value)> | Ascending(es) witness []

  datatype Exception = Exception(typeName: string, location: SourceLocation, entries: Entries)
  {
    function Size(): nat { |entries| }
  }

  lemma {:induction false} KeyLessIrreflexive(a: string)
    ensures !KeyLess(a, a)
  {
    if a != [] {
      KeyLessIrreflexive(a[1..]);
    }
  }

  /** Ascending entries hold each key at most once. */
  lemma KeysDistinct(entries: Entries, i: nat, j: nat)
    requires i < j < |entries|
    ensures entries[i].0 != entries[j].0
  {
    KeyLessIrreflexive(entries[i].0);
  }
}
