/** The variable catalogue the tools load from the exported JSON file, and the
    reverse page map (page -> address low byte -> {name, bytes}) built from it. */
module Catalog {
  import opened Util

  /** One exported variable. The JSON holds every field as text; `bytes` and the
      two scale limits are held here as the numbers that text denotes. */
  datatype VarRecord = VarRecord(
    name: string,
    page: string,
    address: string,
    bytes: nat,
    scaleMinimum: real,
    scaleMaximum: real,
    shortDesc: string,
    units: string)

  /** A Python dict as json.load builds it: its keys in file order, and the values. */
  datatype Catalog = Catalog(keys: seq<string>, vars: map<string, VarRecord>) {
    ghost predicate Valid() {
      && (forall i, j | 0 <= i < j < |keys| :: keys[i] != keys[j])
      && (forall k :: k in vars <==> k in keys)
    }

    function At(i: nat): VarRecord
      requires Valid() && i < |keys|
    {
      vars[keys[i]]
    }
  }

  /** The address low byte as the tools take it: address[-2:]. */
  function Lsb(address: string): string {
    LastTwo(address)
  }

  /** What the reverse map stores per (page, low byte). */
  datatype MapEntry = MapEntry(name: string, bytes: nat)

  type ReverseMap = map<string, map<string, MapEntry>>

  /** mapping[page][lsb], or None where Python's lookup raises KeyError. */
  function Lookup(m: ReverseMap, page: string, lsb: string): Option<MapEntry> {
    if page in m && lsb in m[page] then Some(m[page][lsb]) else None
  }

  /** One iteration of create_page_reverse_mapping: the page dict is created if
      absent, then the low byte's slot is (over)written. */
  function Record(m: ReverseMap, v: VarRecord): ReverseMap {
    var inner := if v.page in m then m[v.page] else map[];
    m[v.page := inner[Lsb(v.address) := MapEntry(v.name, v.bytes)]]
  }

  /** The reverse map after the first n catalogue entries. */
  function MappingOf(cat: Catalog, n: nat): ReverseMap
    requires cat.Valid() && n <= |cat.keys|
  {
    if n == 0 then map[] else Record(MappingOf(cat, n - 1), cat.At(n - 1))
  }

  /** Entry i of the catalogue sits at (page, lsb). */
  ghost predicate At(cat: Catalog, i: nat, page: string, lsb: string)
    requires cat.Valid()
  {
    i < |cat.keys| && cat.At(i).page == page && Lsb(cat.At(i).address) == lsb
  }

  /** Entry i is the last of the first n entries that sits at (page, lsb). */
  ghost predicate LastAt(cat: Catalog, n: nat, i: nat, page: string, lsb: string)
    requires cat.Valid() && n <= |cat.keys|
  {
    i < n && At(cat, i, page, lsb) && forall j | i < j < n :: !At(cat, j, page, lsb)
  }

  /** An entry not at (page, lsb) keeps the last one there the last. */
  lemma LastAtExtend(cat: Catalog, n: nat, i: nat, page: string, lsb: string)
    requires cat.Valid() && 0 < n <= |cat.keys|
    requires LastAt(cat, n - 1, i, page, lsb) && !At(cat, n - 1, page, lsb)
    ensures LastAt(cat, n, i, page, lsb)
  {
  }

  /** Every variable of the first n has a slot at its page and low byte. */
  lemma {:induction false} MappingCovers(cat: Catalog, n: nat, i: nat)
    requires cat.Valid() && i < n <= |cat.keys|
    ensures Lookup(MappingOf(cat, n), cat.At(i).page, Lsb(cat.At(i).address)).Some?
  {
    if i < n - 1 {
      MappingCovers(cat, n - 1, i);
    }
  }

  /** Recording a variable fills its own slot and leaves every other slot alone. */
  lemma RecordLookup(m: ReverseMap, v: VarRecord, page: string, lsb: string)
    ensures Lookup(Record(m, v), page, lsb) ==
            if page == v.page && lsb == Lsb(v.address) then Some(MapEntry(v.name, v.bytes)) else Lookup(m, page, lsb)
  {
  }

  /** A slot of the reverse map holds the name and width of the LAST variable
      sitting at that page and low byte: a later variable with the same page
      and low byte overwrites an earlier one. */
  lemma {:induction false} MappingLastWriterWins(cat: Catalog, n: nat, page: string, lsb: string)
    requires cat.Valid() && n <= |cat.keys|
    requires Lookup(MappingOf(cat, n), page, lsb).Some?
    ensures exists i :: (LastAt(cat, n, i, page, lsb) &&
                         Lookup(MappingOf(cat, n), page, lsb) == Some(MapEntry(cat.At(i).name, cat.At(i).bytes)))
  {
    var m, v := MappingOf(cat, n - 1), cat.At(n - 1);
    assert MappingOf(cat, n) == Record(m, v);
    RecordLookup(m, v, page, lsb);
    if page == v.page && lsb == Lsb(v.address) {
      assert LastAt(cat, n, n - 1, page, lsb);
    } else {
      MappingLastWriterWins(cat, n - 1, page, lsb);
      var i :| LastAt(cat, n - 1, i, page, lsb) &&
        Lookup(m, page, lsb) == Some(MapEntry(cat.At(i).name, cat.At(i).bytes));
      LastAtExtend(cat, n, i, page, lsb);
    }
  }

  /** create_page_reverse_mapping (mbe.py and both capture tools): walks the
      catalogue in key order, filling the page dict of each variable. */
  method CreatePageReverseMapping(cat: Catalog) returns (mapping: ReverseMap)
    requires cat.Valid()
    ensures mapping == MappingOf(cat, |cat.keys|)
    ensures forall i | 0 <= i < |cat.keys| ::
      Lookup(mapping, cat.At(i).page, Lsb(cat.At(i).address)).Some?
  {
    mapping := map[];
    var n := 0;
    while n < |cat.keys|
      invariant n <= |cat.keys|
      invariant mapping == MappingOf(cat, n)
    {
      var v := cat.vars[cat.keys[n]];
      var lsbString := Lsb(v.address);
      if v.page !in mapping {
        mapping := mapping[v.page := map[]];
      }
      mapping := mapping[v.page := mapping[v.page][lsbString := MapEntry(v.name, v.bytes)]];
      n := n + 1;
    }
    forall i | 0 <= i < |cat.keys|
      ensures Lookup(mapping, cat.At(i).page, Lsb(cat.At(i).address)).Some?
    {
      MappingCovers(cat, |cat.keys|, i);
    }
  }
}
