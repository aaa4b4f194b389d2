/** Class `mbe` of mbe.py: the per-page follow lists, the compound read request
    built from one page's list, the decoder of the controller's reply, and the
    poll over every followed page that merges decoded values into the caller's
    result dict. */
module Mbe {
  import opened Util
  import opened Catalog
  import opened Scaling

  /** The `name` argument of add_variable_to_follow: any Python value. */
  datatype PyName = PyNone | PyStr(s: string) | PyOther

  /** One element of a page's follow list: {name, bytes, lsb, frequency}. */
  datatype FollowEntry = FollowEntry(name: string, bytes: nat, lsb: string, frequency: Option<int>)

  /** add_variable_to_follow returns True or False, or raises. */
  datatype AddOutcome = Added | Refused | AddRaised(fault: Fault)

  /** ecu_vars_to_follow: a dict page -> list of entries, with its key order. */
  datatype FollowState = FollowState(pages: seq<string>, lists: map<string, seq<FollowEntry>>)

  // ------------------------------------------------------- the follow list

  /** int(lsb, 16) succeeds for the entry's low byte. */
  predicate Parses(e: FollowEntry) {
    ParseHex(e.lsb).Some?
  }

  function Val(e: FollowEntry): nat
    requires Parses(e)
  {
    ParseHex(e.lsb).value
  }

  predicate AllParse(list: seq<FollowEntry>) {
    forall k | 0 <= k < |list| :: Parses(list[k])
  }

  /** Ascending by int(lsb, 16). Any two entries of the list have hex low bytes,
      so a low byte that is not hex can only be alone in its list. */
  ghost predicate Ordered(list: seq<FollowEntry>) {
    forall i, j | 0 <= i < j < |list| :: Parses(list[i]) && Parses(list[j]) && Val(list[i]) <= Val(list[j])
  }

  lemma OrderedPair(list: seq<FollowEntry>, i: nat, j: nat)
    requires Ordered(list) && i < j < |list|
    ensures Parses(list[i]) && Parses(list[j]) && Val(list[i]) <= Val(list[j])
  {
    var a, b := list[i], list[j];
    assert Parses(a) && Parses(b) && Val(a) <= Val(b);
  }

  ghost predicate DistinctLsbs(list: seq<FollowEntry>) {
    forall i, j | 0 <= i < j < |list| :: list[i].lsb != list[j].lsb
  }

  predicate HasLsb(list: seq<FollowEntry>, lsb: string) {
    exists k | 0 <= k < |list| :: list[k].lsb == lsb
  }

  /** The entry was made from the catalogue variable of its name, on that page. */
  ghost predicate FromCatalog(cat: Catalog, page: string, e: FollowEntry) {
    && e.name in cat.vars
    && cat.vars[e.name].page == page
    && Lsb(cat.vars[e.name].address) == e.lsb
    && cat.vars[e.name].bytes == e.bytes
  }

  ghost predicate PageListOk(cat: Catalog, page: string, list: seq<FollowEntry>) {
    && list != []
    && Ordered(list)
    && DistinctLsbs(list)
    && forall k | 0 <= k < |list| :: FromCatalog(cat, page, list[k])
  }

  /** The invariant add_variable_to_follow keeps for ecu_vars_to_follow. */
  ghost predicate StateOk(cat: Catalog, st: FollowState) {
    && (forall i, j | 0 <= i < j < |st.pages| :: st.pages[i] != st.pages[j])
    && (forall p :: p in st.lists <==> p in st.pages)
    && (forall p | p in st.lists :: PageListOk(cat, p, st.lists[p]))
  }

  /** How many entries have a low byte of value at most v. */
  function CountNotAbove(list: seq<FollowEntry>, v: nat): (r: nat)
    requires AllParse(list)
    ensures r <= |list|
  {
    if list == [] then 0 else (if Val(list[0]) <= v then 1 else 0) + CountNotAbove(list[1..], v)
  }

  /** What add_variable_to_follow does: its return value and the new follow state.
      A name that is not a string or has no catalogue entry, or whose low byte is
      already in its page's list, is refused; a low byte that is not hex raises
      as soon as it has to be compared; otherwise the entry goes before the
      first entry with a strictly greater low byte, or at the end. */
  ghost function AddSpec(cat: Catalog, st: FollowState, name: PyName, frequency: Option<int>): (AddOutcome, FollowState)
  {
    if !name.PyStr? || name.s !in cat.vars then (Refused, st)
    else
      var v := cat.vars[name.s];
      var lsb := Lsb(v.address);
      var list := PageList(st, v.page);
      if HasLsb(list, lsb) then (Refused, st)
      else if list != [] && !(AllParse(list) && ParseHex(lsb).Some?) then (AddRaised(ValueError), st)
      else (Added, Inserted(st, v.page, InsertPosition(list, lsb), FollowEntry(name.s, v.bytes, lsb, frequency)))
  }

  /** ecu_vars_to_follow[page], or the empty list that is created for it. */
  function PageList(st: FollowState, page: string): seq<FollowEntry> {
    if page in st.lists then st.lists[page] else []
  }

  /** Where the position loop stops: before the first greater low byte. */
  function InsertPosition(list: seq<FollowEntry>, lsb: string): (p: nat)
    requires list != [] ==> AllParse(list) && ParseHex(lsb).Some?
    ensures p <= |list|
  {
    if list == [] then 0 else CountNotAbove(list, ParseHex(lsb).value)
  }

  /** The follow state with e inserted at position p of the page's list. */
  function Inserted(st: FollowState, page: string, p: nat, e: FollowEntry): FollowState
    requires p <= |PageList(st, page)|
  {
    FollowState(if page in st.lists then st.pages else st.pages + [page],
                st.lists[page := Insert(PageList(st, page), p, e)])
  }

  /** list.insert(p, e) */
  function Insert(list: seq<FollowEntry>, p: nat, e: FollowEntry): (r: seq<FollowEntry>)
    requires p <= |list|
    ensures |r| == |list| + 1
    ensures forall i | 0 <= i < |r| :: r[i] == if i < p then list[i] else if i == p then e else list[i - 1]
  {
    list[..p] + [e] + list[p..]
  }

  /** The position CountNotAbove gives splits an ordered list into the entries
      at most v and the entries above v. */
  lemma {:induction false} CountNotAboveSplits(list: seq<FollowEntry>, v: nat)
    requires Ordered(list) && AllParse(list)
    ensures CountNotAbove(list, v) <= |list|
    ensures forall k | 0 <= k < CountNotAbove(list, v) :: Val(list[k]) <= v
    ensures forall k | CountNotAbove(list, v) <= k < |list| :: Val(list[k]) > v
  {
    if list != [] {
      var tail := list[1..];
      assert Ordered(tail);
      CountNotAboveSplits(tail, v);
      if Val(list[0]) > v {
        CountNotAboveAt(tail, v, 0);
      } else {
        forall k | 1 <= k < |list| ensures list[k] == tail[k - 1] { }
      }
    }
  }

  /** A split position is the one CountNotAbove computes. */
  lemma {:induction false} CountNotAboveAt(list: seq<FollowEntry>, v: nat, p: nat)
    requires AllParse(list) && p <= |list|
    requires forall k | 0 <= k < p :: Val(list[k]) <= v
    requires forall k | p <= k < |list| :: Val(list[k]) > v
    ensures CountNotAbove(list, v) == p
  {
    if list != [] {
      var tail := list[1..];
      assert forall k | 0 <= k < |tail| :: tail[k] == list[k + 1];
      CountNotAboveAt(tail, v, if p == 0 then 0 else p - 1);
    }
  }

  /** Inserting at the split position keeps the list ordered. */
  lemma InsertOrdered(list: seq<FollowEntry>, p: nat, e: FollowEntry)
    requires Ordered(list) && AllParse(list) && Parses(e) && p <= |list|
    requires forall k | 0 <= k < p :: Val(list[k]) <= Val(e)
    requires forall k | p <= k < |list| :: Val(list[k]) > Val(e)
    ensures Ordered(Insert(list, p, e))
  {
  }

  /** Inserting a low byte the list does not hold keeps the low bytes distinct. */
  lemma InsertDistinct(list: seq<FollowEntry>, p: nat, e: FollowEntry)
    requires DistinctLsbs(list) && !HasLsb(list, e.lsb) && p <= |list|
    ensures DistinctLsbs(Insert(list, p, e))
  {
  }

  /** Inserting a new catalogue entry of the page at its split position keeps
      the page list well formed. */
  lemma InsertKeepsPageList(cat: Catalog, page: string, list: seq<FollowEntry>, p: nat, e: FollowEntry)
    requires list == [] || PageListOk(cat, page, list)
    requires FromCatalog(cat, page, e) && !HasLsb(list, e.lsb) && p <= |list|
    requires list != [] ==> AllParse(list) && Parses(e)
    requires forall k | 0 <= k < p :: Parses(list[k]) && Parses(e) && Val(list[k]) <= Val(e)
    requires forall k | p <= k < |list| :: Parses(list[k]) && Parses(e) && Val(list[k]) > Val(e)
    ensures PageListOk(cat, page, Insert(list, p, e))
  {
    if list != [] {
      InsertOrdered(list, p, e);
    }
    InsertDistinct(list, p, e);
  }

  /** The follow state after a successful add, spelled out. */
  lemma AddedState(cat: Catalog, st: FollowState, name: PyName, frequency: Option<int>)
    requires AddSpec(cat, st, name, frequency).0 == Added
    ensures name.PyStr? && name.s in cat.vars
    ensures var v := cat.vars[name.s];
            var list := PageList(st, v.page);
            var e := FollowEntry(name.s, v.bytes, Lsb(v.address), frequency);
            && !HasLsb(list, e.lsb)
            && (list != [] ==> AllParse(list) && Parses(e))
            && AddSpec(cat, st, name, frequency).1 == Inserted(st, v.page, InsertPosition(list, e.lsb), e)
  {
  }

  /** Once the position loop has found p, AddSpec inserts at p. */
  lemma AddSpecInserts(cat: Catalog, st: FollowState, name: string, frequency: Option<int>, p: nat)
    requires name in cat.vars
    requires var v := cat.vars[name];
             var list := PageList(st, v.page);
             var lsb := Lsb(v.address);
             && Ordered(list) && p <= |list| && (list != [] ==> ParseHex(lsb).Some?)
             && (forall k | 0 <= k < p :: list[k].lsb != lsb && Parses(list[k]) && Val(list[k]) <= ParseHex(lsb).value)
             && (p < |list| ==> Parses(list[p]) && Val(list[p]) > ParseHex(lsb).value)
    ensures var v := cat.vars[name];
            AddSpec(cat, st, PyStr(name), frequency) ==
              (Added, Inserted(st, v.page, p, FollowEntry(name, v.bytes, Lsb(v.address), frequency)))
  {
    var v := cat.vars[name];
    var list := PageList(st, v.page);
    var lsb := Lsb(v.address);
    if list != [] {
      var x := ParseHex(lsb).value;
      forall k | p <= k < |list| ensures Parses(list[k]) && Val(list[k]) > x {
        if k > p {
          OrderedPair(list, p, k);
        }
      }
      CountNotAboveAt(list, x, p);
    }
  }

  /** When the loop meets a low byte it cannot compare, AddSpec raises. */
  lemma AddSpecRaises(cat: Catalog, st: FollowState, name: string, frequency: Option<int>, i: nat)
    requires name in cat.vars
    requires var v := cat.vars[name];
             var list := PageList(st, v.page);
             var lsb := Lsb(v.address);
             && Ordered(list) && i < |list|
             && (forall k | 0 <= k <= i :: list[k].lsb != lsb)
             && !(ParseHex(lsb).Some? && Parses(list[i]))
    ensures AddSpec(cat, st, PyStr(name), frequency) == (AddRaised(ValueError), st)
  {
    var v := cat.vars[name];
    var list := PageList(st, v.page);
    var lsb := Lsb(v.address);
    forall k | i < k < |list| ensures list[k].lsb != lsb {
      OrderedPair(list, i, k);
    }
  }

  /** add_variable_to_follow keeps every page list non-empty, ascending by
      int(lsb, 16), free of repeated low bytes, and made of catalogue entries
      of that page. */
  lemma AddPreservesInvariant(cat: Catalog, st: FollowState, name: PyName, frequency: Option<int>)
    requires StateOk(cat, st)
    ensures StateOk(cat, AddSpec(cat, st, name, frequency).1)
  {
    if AddSpec(cat, st, name, frequency).0 == Added {
      AddedState(cat, st, name, frequency);
      var v := cat.vars[name.s];
      var list := PageList(st, v.page);
      var e := FollowEntry(name.s, v.bytes, Lsb(v.address), frequency);
      var p := InsertPosition(list, e.lsb);
      if list != [] {
        CountNotAboveSplits(list, Val(e));
      }
      InsertKeepsPageList(cat, v.page, list, p, e);
    }
  }

  /** A successful add inserts exactly one {name, bytes, lsb, frequency} entry
      into the variable's page only, before every entry with a greater low
      byte and after every other one; the page's list is created if absent. */
  lemma AddInsertsOneEntry(cat: Catalog, st: FollowState, name: PyName, frequency: Option<int>)
    requires StateOk(cat, st)
    requires AddSpec(cat, st, name, frequency).0 == Added
    ensures name.PyStr? && name.s in cat.vars
    ensures var v := cat.vars[name.s];
            var old_ := PageList(st, v.page);
            var new_ := AddSpec(cat, st, name, frequency).1.lists[v.page];
            var e := FollowEntry(name.s, v.bytes, Lsb(v.address), frequency);
            exists p | 0 <= p <= |old_| ::
                 && new_ == old_[..p] + [e] + old_[p..]
                 && (forall k | 0 <= k < p :: Parses(old_[k]) && Parses(e) && Val(old_[k]) <= Val(e))
                 && (forall k | p <= k < |old_| :: Parses(old_[k]) && Parses(e) && Val(old_[k]) > Val(e))
  {
    AddedState(cat, st, name, frequency);
    var v := cat.vars[name.s];
    var list := PageList(st, v.page);
    var e := FollowEntry(name.s, v.bytes, Lsb(v.address), frequency);
    var p := InsertPosition(list, e.lsb);
    var new_ := AddSpec(cat, st, name, frequency).1.lists[v.page];
    InsertSplits(list, e);
    assert new_ == list[..p] + [e] + list[p..];
  }

  /** A successful add adds the new entry to its page's entries and drops none. */
  lemma AddAddsToMultiset(cat: Catalog, st: FollowState, name: PyName, frequency: Option<int>)
    requires AddSpec(cat, st, name, frequency).0 == Added
    ensures name.PyStr? && name.s in cat.vars
    ensures var v := cat.vars[name.s];
            multiset(AddSpec(cat, st, name, frequency).1.lists[v.page]) ==
              multiset(PageList(st, v.page)) + multiset{FollowEntry(name.s, v.bytes, Lsb(v.address), frequency)}
  {
    AddedState(cat, st, name, frequency);
    var v := cat.vars[name.s];
    var e := FollowEntry(name.s, v.bytes, Lsb(v.address), frequency);
    InsertMultiset(PageList(st, v.page), InsertPosition(PageList(st, v.page), e.lsb), e);
  }

  /** A successful add leaves every other page's list as it was, and the page
      order gains the variable's page at the end when it is new. */
  lemma AddTouchesOnlyItsPage(cat: Catalog, st: FollowState, name: PyName, frequency: Option<int>)
    requires AddSpec(cat, st, name, frequency).0 == Added
    ensures name.PyStr? && name.s in cat.vars
    ensures var v := cat.vars[name.s];
            var st' := AddSpec(cat, st, name, frequency).1;
            && (forall q | q in st.lists && q != v.page :: q in st'.lists && st'.lists[q] == st.lists[q])
            && st'.lists.Keys == st.lists.Keys + {v.page}
            && st'.pages == if v.page in st.lists then st.pages else st.pages + [v.page]
  {
    AddedState(cat, st, name, frequency);
  }

  /** The position the loop finds splits the list around the new low byte. */
  lemma InsertSplits(list: seq<FollowEntry>, e: FollowEntry)
    requires Ordered(list)
    requires list != [] ==> AllParse(list) && Parses(e)
    ensures var p := InsertPosition(list, e.lsb);
            && (forall k | 0 <= k < p :: Parses(list[k]) && Parses(e) && Val(list[k]) <= Val(e))
            && (forall k | p <= k < |list| :: Parses(list[k]) && Parses(e) && Val(list[k]) > Val(e))
  {
    if list != [] {
      CountNotAboveSplits(list, Val(e));
    }
  }

  lemma InsertMultiset(list: seq<FollowEntry>, p: nat, e: FollowEntry)
    requires p <= |list|
    ensures multiset(Insert(list, p, e)) == multiset(list) + multiset{e}
  {
    assert list == list[..p] + list[p..];
  }

  /** A name that is not a string, or has no catalogue entry, or whose low byte
      is already followed on its page, is refused and nothing changes; those
      are the only refusals. */
  lemma AddRefusals(cat: Catalog, st: FollowState, name: PyName, frequency: Option<int>)
    requires StateOk(cat, st)
    ensures var r := AddSpec(cat, st, name, frequency);
            r.0 == Refused <==>
              || !name.PyStr?
              || name.s !in cat.vars
              || (var v := cat.vars[name.s];
                  v.page in st.lists && HasLsb(st.lists[v.page], Lsb(v.address)))
    ensures AddSpec(cat, st, name, frequency).0 != Added ==> AddSpec(cat, st, name, frequency).1 == st
  {
  }

  /** Low bytes written as two lower-case hex digits (as the exported catalogue
      writes them) make every page list STRICTLY ascending. */
  lemma CanonicalListsStrictlyAscend(cat: Catalog, st: FollowState, page: string)
    requires StateOk(cat, st) && page in st.lists
    requires forall e | e in st.lists[page] :: |e.lsb| == 2 && IsLowerHex(e.lsb)
    ensures var list := st.lists[page];
            forall i, j | 0 <= i < j < |list| :: Parses(list[i]) && Parses(list[j]) && Val(list[i]) < Val(list[j])
  {
    var list := st.lists[page];
    forall i, j | 0 <= i < j < |list| ensures Parses(list[i]) && Parses(list[j]) && Val(list[i]) < Val(list[j]) {
      assert list[i] in st.lists[page] && list[j] in st.lists[page];
      Hex02OfValue(list[i].lsb);
      Hex02OfValue(list[j].lsb);
    }
  }

  /** add_variable_list_to_follow returns len(name_list) or raises. */
  datatype ListOutcome = Counted(count: nat) | ListRaised(fault: Fault)

  /** add_variable_list_to_follow: each name in turn, without its frequency;
      the count goes up after every attempt, since the `if` tests a tuple. */
  ghost function AddListSpec(cat: Catalog, st: FollowState, names: seq<PyName>, count: nat): (ListOutcome, FollowState)
    decreases |names|
  {
    if names == [] then (Counted(count), st)
    else
      var (o, st') := AddSpec(cat, st, names[0], None);
      if o.AddRaised? then (ListRaised(o.fault), st')
      else AddListSpec(cat, st', names[1..], count + 1)
  }

  /** The returned count is the number of names tried, whatever their outcome,
      and the follow-state invariant holds after the whole list. */
  lemma {:induction false} AddListCountsEveryName(cat: Catalog, st: FollowState, names: seq<PyName>, count: nat)
    requires StateOk(cat, st)
    decreases |names|
    ensures StateOk(cat, AddListSpec(cat, st, names, count).1)
    ensures AddListSpec(cat, st, names, count).0.Counted? ==>
              AddListSpec(cat, st, names, count).0.count == count + |names|
  {
    if names != [] {
      AddPreservesInvariant(cat, st, names[0], None);
      var (o, st') := AddSpec(cat, st, names[0], None);
      if !o.AddRaised? {
        AddListCountsEveryName(cat, st', names[1..], count + 1);
      }
    }
  }

  /** One resolvable and one unknown name: the count is 2, not 1, and only the
      resolvable name is followed. */
  lemma AddListUnknownNameStillCounted(cat: Catalog, known: string, unknown: string)
    requires cat.Valid() && known in cat.vars && unknown !in cat.vars
    ensures var r := AddListSpec(cat, FollowState([], map[]), [PyStr(known), PyStr(unknown)], 0);
            var v := cat.vars[known];
            && r.0 == Counted(2)
            && r.1.lists == map[v.page := [FollowEntry(known, v.bytes, Lsb(v.address), None)]]
  {
    var v := cat.vars[known];
    var e := FollowEntry(known, v.bytes, Lsb(v.address), None);
    var st1 := FollowState([v.page], map[v.page := [e]]);
    var empty: seq<FollowEntry> := [];
    assert Insert(empty, 0, e) == [e];
    assert [] + [v.page] == [v.page];
    assert map[][v.page := [e]] == map[v.page := [e]];
    assert AddSpec(cat, FollowState([], map[]), PyStr(known), None) == (Added, st1);
    assert AddSpec(cat, st1, PyStr(unknown), None) == (Refused, st1);
    var names := [PyStr(known), PyStr(unknown)];
    assert names[1..] == [PyStr(unknown)] && names[1..][1..] == [];
    assert AddListSpec(cat, st1, [PyStr(unknown)], 1) == (Counted(2), st1);
    assert AddListSpec(cat, FollowState([], map[]), names, 0) == AddListSpec(cat, st1, names[1..], 1);
  }

  // ------------------------------------------------------- the read request

  /** lsb, lsb+1, ..., lsb+count-1 */
  function Range(start: nat, count: nat): (r: seq<nat>)
    ensures |r| == count && forall k | 0 <= k < count :: r[k] == start + k
  {
    if count == 0 then [] else Range(start, count - 1) + [start + count - 1]
  }

  lemma RangeSnoc(prefix: seq<nat>, start: nat, count: nat)
    ensures prefix + Range(start, 0) == prefix
    ensures prefix + Range(start, count + 1) == prefix + Range(start, count) + [start + count]
  {
    assert prefix + [] == prefix;
  }

  /** The address offsets a page's request asks for, entry by entry in list
      order; None where int(lsb, 16) raises. */
  function WireOffsets(page: seq<FollowEntry>): Option<seq<nat>> {
    if page == [] then Some([])
    else match (ParseHex(page[0].lsb), WireOffsets(page[1..]))
      case (Some(v), Some(rest)) => Some(Range(v, page[0].bytes) + rest)
      case _ => None
  }

  /** The sum of the entries' widths. */
  function TotalBytes(page: seq<FollowEntry>): nat {
    if page == [] then 0 else page[0].bytes + TotalBytes(page[1..])
  }

  /** '{:02x}' of each offset, concatenated. */
  function HexText(offsets: seq<nat>): string {
    if offsets == [] then [] else Hex02(offsets[0]) + HexText(offsets[1..])
  }

  /** The request string before unhexlify: the fixed prefix, page_name[2:], the offsets. */
  function RequestText(pageName: string, page: seq<FollowEntry>): Result<string> {
    match WireOffsets(page)
    case None => Err(ValueError)
    case Some(offsets) => Ok("0100000000" + Slice(pageName, 2, |pageName|) + HexText(offsets))
  }

  /** What create_data_request returns; binascii.Error is a ValueError. */
  function RequestBytes(pageName: string, page: seq<FollowEntry>): Result<seq<byte>> {
    match RequestText(pageName, page)
    case Err(f) => Err(f)
    case Ok(text) => match Unhexlify(text) case None => Err(ValueError) case Some(b) => Ok(b)
  }

  lemma {:induction false} WireOffsetsAppend(a: seq<FollowEntry>, b: seq<FollowEntry>)
    ensures WireOffsets(a + b) ==
      if WireOffsets(a).Some? && WireOffsets(b).Some? then Some(WireOffsets(a).value + WireOffsets(b).value) else None
  {
    if a == [] {
      assert a + b == b;
      if WireOffsets(b).Some? {
        assert [] + WireOffsets(b).value == WireOffsets(b).value;
      }
    } else {
      assert (a + b)[0] == a[0] && (a + b)[1..] == a[1..] + b;
      WireOffsetsAppend(a[1..], b);
      if ParseHex(a[0].lsb).Some? && WireOffsets(a[1..]).Some? && WireOffsets(b).Some? {
        var r := Range(ParseHex(a[0].lsb).value, a[0].bytes);
        assert r + (WireOffsets(a[1..]).value + WireOffsets(b).value)
            == (r + WireOffsets(a[1..]).value) + WireOffsets(b).value;
      }
    }
  }

  /** A page whose k-th low byte is not hex has no request: int() raises. */
  lemma {:induction false} WireOffsetsNoneAt(page: seq<FollowEntry>, k: nat)
    requires k < |page| && !Parses(page[k])
    ensures WireOffsets(page) == None
  {
    if k > 0 {
      WireOffsetsNoneAt(page[1..], k - 1);
    }
  }

  lemma WireOffsetsSnoc(a: seq<FollowEntry>, e: FollowEntry)
    requires WireOffsets(a).Some? && Parses(e)
    ensures WireOffsets(a + [e]) == Some(WireOffsets(a).value + Range(Val(e), e.bytes))
  {
    WireOffsetsAppend(a, [e]);
    WireOffsetsSingle(e);
  }

  /** One more entry of the page extends the offsets by that entry's range. */
  lemma WireOffsetsPrefix(page: seq<FollowEntry>, k: nat)
    requires k < |page| && WireOffsets(page[..k]).Some? && Parses(page[k])
    ensures WireOffsets(page[..k + 1]) == Some(WireOffsets(page[..k]).value + Range(Val(page[k]), page[k].bytes))
  {
    assert page[..k + 1] == page[..k] + [page[k]];
    WireOffsetsSnoc(page[..k], page[k]);
  }

  lemma HexTextSnoc(offsets: seq<nat>, x: nat)
    ensures HexText(offsets + [x]) == HexText(offsets) + Hex02(x)
  {
    HexTextAppend(offsets, [x]);
    assert [x][1..] == [];
  }

  lemma {:induction false} HexTextAppend(a: seq<nat>, b: seq<nat>)
    ensures HexText(a + b) == HexText(a) + HexText(b)
  {
    if a == [] {
      assert a + b == b;
    } else {
      assert (a + b)[0] == a[0] && (a + b)[1..] == a[1..] + b;
      HexTextAppend(a[1..], b);
    }
  }

  /** For offsets below 256, the offsets' hex text unhexlifies back to them. */
  lemma {:induction false} HexTextBytes(offsets: seq<nat>)
    requires forall k | 0 <= k < |offsets| :: offsets[k] < 256
    ensures |HexText(offsets)| == 2 * |offsets|
    ensures Unhexlify(HexText(offsets)) == Some(offsets)
    ensures IsLowerHex(HexText(offsets))
  {
    if offsets != [] {
      var o := offsets[0];
      HexTextBytes(offsets[1..]);
      var h := Hex02(o);
      assert Unhexlify(h) == Some([o]) by {
        assert h[2..] == [];
        assert DigitValue(h[0]) * 16 + DigitValue(h[1]) == o;
        assert Unhexlify(h[2..]) == Some([]);
        assert [o] + [] == [o];
      }
      UnhexlifyAppend(h, HexText(offsets[1..]));
      assert [o] + offsets[1..] == offsets;
      var t := HexText(offsets);
      assert t == h + HexText(offsets[1..]);
      forall i | 0 <= i < |t| ensures IsLowerHexDigit(t[i]) {
        if i >= 2 {
          assert t[i] == HexText(offsets[1..])[i - 2];
        }
      }
    }
  }

  lemma {:induction false} WireOffsetsLength(page: seq<FollowEntry>)
    requires WireOffsets(page).Some?
    ensures |WireOffsets(page).value| == TotalBytes(page)
  {
    if page != [] {
      WireOffsetsLength(page[1..]);
    }
  }

  /** The request is 01 00 00 00 00, the page byte, then for each entry in list
      order the offsets lsb .. lsb+bytes-1: 6 + (sum of widths) bytes, when the
      page is written "0x" and two hex digits and no offset passes 0xff. */
  lemma RequestLayout(pageName: string, page: seq<FollowEntry>)
    requires |pageName| == 4 && pageName[..2] == "0x" && IsHex(pageName[2..])
    requires WireOffsets(page).Some?
    requires forall k | 0 <= k < |WireOffsets(page).value| :: WireOffsets(page).value[k] < 256
    ensures RequestBytes(pageName, page) == Ok([1, 0, 0, 0, 0, HexValue(pageName[2..])] + WireOffsets(page).value)
    ensures |RequestBytes(pageName, page).value| == 6 + TotalBytes(page)
  {
    var offsets := WireOffsets(page).value;
    var hh := pageName[2..];
    RequestTextLayout(pageName, page);
    PrefixBytes();
    PageByte(hh);
    HexTextBytes(offsets);
    UnhexlifyThree("0100000000", hh, HexText(offsets), [1, 0, 0, 0, 0], [HexValue(hh)], offsets);
    assert [1, 0, 0, 0, 0] + [HexValue(hh)] + offsets == [1, 0, 0, 0, 0, HexValue(hh)] + offsets;
    WireOffsetsLength(page);
  }

  lemma UnhexlifyThree(a: string, b: string, c: string, x: seq<byte>, y: seq<byte>, z: seq<byte>)
    requires |a| % 2 == 0 && |b| % 2 == 0
    requires Unhexlify(a) == Some(x) && Unhexlify(b) == Some(y) && Unhexlify(c) == Some(z)
    ensures Unhexlify(a + b + c) == Some(x + y + z)
  {
    UnhexlifyAppend(a, b);
    UnhexlifyAppend(a + b, c);
  }

  lemma RequestTextLayout(pageName: string, page: seq<FollowEntry>)
    requires |pageName| == 4 && WireOffsets(page).Some?
    ensures RequestText(pageName, page) == Ok("0100000000" + pageName[2..] + HexText(WireOffsets(page).value))
  {
    assert Slice(pageName, 2, |pageName|) == pageName[2..];
  }

  /** The fixed part of the request text is the bytes 01 00 00 00 00. */
  lemma PrefixBytes()
    ensures Unhexlify("0100000000") == Some([1, 0, 0, 0, 0])
  {
    var zero: seq<byte> := [];
    HexlifyCons(0, zero);
    HexlifyCons(0, [0]);
    HexlifyCons(0, [0, 0]);
    HexlifyCons(0, [0, 0, 0]);
    HexlifyCons(1, [0, 0, 0, 0]);
    assert Hexlify([1, 0, 0, 0, 0]) == "0100000000";
    UnhexlifyHexlify([1, 0, 0, 0, 0]);
  }

  /** Two hex digits unhexlify to the one byte they spell. */
  lemma PageByte(hh: string)
    requires |hh| == 2 && IsHex(hh)
    ensures Unhexlify(hh) == Some([HexValue(hh)])
  {
    HexValueTwo(hh);
    assert hh[2..] == [];
    assert [HexValue(hh)] + [] == [HexValue(hh)];
  }

  lemma HexlifyCons(b: byte, bs: seq<byte>)
    ensures Hexlify([b] + bs) == Hex02(b) + Hexlify(bs)
  {
    assert ([b] + bs)[1..] == bs;
  }

  lemma WireOffsetsSingle(e: FollowEntry)
    requires Parses(e)
    ensures WireOffsets([e]) == Some(Range(Val(e), e.bytes))
  {
    assert [e][1..] == [];
    assert Range(Val(e), e.bytes) + [] == Range(Val(e), e.bytes);
  }

  /** The sample request of mbe.py: page 0x12 following low bytes 66 and a8,
      two bytes each, gives 0100000000126667a8a9. */
  lemma RequestSample(a: string, b: string)
    ensures var page := [FollowEntry(a, 2, "66", None), FollowEntry(b, 2, "a8", None)];
            RequestBytes("0x12", page) == Ok([0x01, 0x00, 0x00, 0x00, 0x00, 0x12, 0x66, 0x67, 0xa8, 0xa9])
  {
    var page := [FollowEntry(a, 2, "66", None), FollowEntry(b, 2, "a8", None)];
    SampleOffsets(a, b);
    SamplePage();
    RequestLayout("0x12", page);
    assert [1, 0, 0, 0, 0, 0x12] + [0x66, 0x67, 0xa8, 0xa9] == [0x01, 0x00, 0x00, 0x00, 0x00, 0x12, 0x66, 0x67, 0xa8, 0xa9];
  }

  lemma SamplePage()
    ensures "0x12"[..2] == "0x" && IsHex("0x12"[2..]) && HexValue("0x12"[2..]) == 0x12
  {
    assert "0x12"[2..] == "12";
    HexValueTwo("12");
  }

  /** The same sample as request text before unhexlify. */
  lemma RequestSampleText(a: string, b: string)
    ensures var page := [FollowEntry(a, 2, "66", None), FollowEntry(b, 2, "a8", None)];
            RequestText("0x12", page) == Ok("0100000000126667a8a9")
  {
    SampleOffsets(a, b);
    SampleHexText();
    assert Slice("0x12", 2, 4) == "12";
    assert "0100000000" + "12" + "6667a8a9" == "0100000000126667a8a9";
  }

  lemma SampleOffsets(a: string, b: string)
    ensures WireOffsets([FollowEntry(a, 2, "66", None), FollowEntry(b, 2, "a8", None)]) == Some([0x66, 0x67, 0xa8, 0xa9])
  {
    var e0, e1 := FollowEntry(a, 2, "66", None), FollowEntry(b, 2, "a8", None);
    assert ParseHex("66") == Some(0x66) by { HexValueTwo("66"); }
    assert ParseHex("a8") == Some(0xa8) by { HexValueTwo("a8"); }
    WireOffsetsSingle(e0);
    WireOffsetsSingle(e1);
    assert Range(0x66, 2) == [0x66, 0x67];
    assert Range(0xa8, 2) == [0xa8, 0xa9];
    WireOffsetsAppend([e0], [e1]);
    assert [e0] + [e1] == [e0, e1];
    assert [0x66, 0x67] + [0xa8, 0xa9] == [0x66, 0x67, 0xa8, 0xa9];
  }

  lemma SampleHexText()
    ensures HexText([0x66, 0x67, 0xa8, 0xa9]) == "6667a8a9"
  {
    HexTextFour(0x66, 0x67, 0xa8, 0xa9);
    assert Hex02(0x66) == "66" && Hex02(0x67) == "67";
    assert Hex02(0xa8) == "a8" && Hex02(0xa9) == "a9";
  }

  lemma HexTextFour(a: nat, b: nat, c: nat, d: nat)
    ensures HexText([a, b, c, d]) == Hex02(a) + Hex02(b) + Hex02(c) + Hex02(d)
  {
    assert [a, b, c, d][1..] == [b, c, d] && [b, c, d][1..] == [c, d] && [c, d][1..] == [d] && [d][1..] == [];
    assert HexText([d]) == Hex02(d);
    assert HexText([c, d]) == Hex02(c) + Hex02(d);
    assert HexText([b, c, d]) == Hex02(b) + (Hex02(c) + Hex02(d));
  }

  // ------------------------------------------------------- the reply decoder

  /** One decoded variable: {name, value, short_desc, units}. */
  datatype DecodedValue = DecodedValue(name: string, value: real, shortDesc: string, units: string)

  /** process_data_response returns None, a results dict, or raises. */
  datatype PageDecode = NoData | Decoded(results: map<string, DecodedValue>) | DecodeRaised(fault: Fault)

  /** The bytes a followed variable is read from. The cursor i is set to 1 and
      never advanced, so every variable reads response[1 .. 1+bytes). */
  function FieldBytes(response: seq<byte>, bytes: nat): seq<byte>
    requires bytes < |response|
  {
    response[1..1 + bytes]
  }

  /** One followed variable: IndexError if the reply has no byte 1+bytes-1;
      KeyError for a name missing from the catalogue; ZeroDivisionError for a
      zero-byte field; otherwise the little-endian raw value rescaled. */
  function DecodeEntry(cat: Catalog, response: seq<byte>, e: FollowEntry): Result<DecodedValue> {
    if e.bytes >= |response| then Err(IndexError)
    else if e.name !in cat.vars then Err(KeyError(e.name))
    else
      var v := cat.vars[e.name];
      match Scale(LittleEndian(FieldBytes(response, e.bytes)), e.bytes, v.scaleMinimum, v.scaleMaximum)
      case None => Err(ZeroDivisionError)
      case Some(x) => Ok(DecodedValue(e.name, x, v.shortDesc, v.units))
  }

  function DecodeAll(cat: Catalog, response: seq<byte>, vars: seq<FollowEntry>, acc: map<string, DecodedValue>): PageDecode
    decreases |vars|
  {
    if vars == [] then Decoded(acc)
    else match DecodeEntry(cat, response, vars[0])
      case Err(f) => DecodeRaised(f)
      case Ok(d) => DecodeAll(cat, response, vars[1..], acc[vars[0].name := d])
  }

  /** What process_data_response returns. */
  function DecodePage(cat: Catalog, response: seq<byte>, vars: seq<FollowEntry>): PageDecode {
    if |response| < 2 || response[0] != 0x81 then NoData
    else DecodeAll(cat, response, vars, map[])
  }

  /** The names of a list of entries. */
  function Names(vars: seq<FollowEntry>): (r: set<string>)
    ensures forall k | 0 <= k < |vars| :: vars[k].name in r
    ensures forall n | n in r :: exists k | 0 <= k < |vars| :: vars[k].name == n
  {
    if vars == [] then {} else {vars[0].name} + Names(vars[1..])
  }

  ghost predicate DistinctNames(vars: seq<FollowEntry>) {
    forall i, j | 0 <= i < j < |vars| :: vars[i].name != vars[j].name
  }

  /** The decoder's verdicts: None exactly for a reply shorter than 2 bytes or
      not starting 0x81; an exception exactly when some variable's field fails;
      otherwise one result per variable name, each decoded from the bytes right
      after the marker. */
  lemma {:induction false} DecodeAllFails(cat: Catalog, response: seq<byte>, vars: seq<FollowEntry>, acc: map<string, DecodedValue>)
    ensures !DecodeAll(cat, response, vars, acc).NoData?
    ensures DecodeAll(cat, response, vars, acc).DecodeRaised? <==>
              exists k | 0 <= k < |vars| :: DecodeEntry(cat, response, vars[k]).Err?
  {
    if vars != [] {
      var tail := vars[1..];
      match DecodeEntry(cat, response, vars[0])
      case Err(f) =>
      case Ok(d) =>
        DecodeAllFails(cat, response, tail, acc[vars[0].name := d]);
        if exists k | 0 <= k < |vars| :: DecodeEntry(cat, response, vars[k]).Err? {
          var k :| 0 <= k < |vars| && DecodeEntry(cat, response, vars[k]).Err?;
          assert tail[k - 1] == vars[k];
        }
        if exists k | 0 <= k < |tail| :: DecodeEntry(cat, response, tail[k]).Err? {
          var k :| 0 <= k < |tail| && DecodeEntry(cat, response, tail[k]).Err?;
          assert tail[k] == vars[k + 1];
        }
    }
  }

  lemma DecodeAllResults(cat: Catalog, response: seq<byte>, vars: seq<FollowEntry>, acc: map<string, DecodedValue>)
    requires DistinctNames(vars)
    requires DecodeAll(cat, response, vars, acc).Decoded?
    ensures var m := DecodeAll(cat, response, vars, acc).results;
            && m.Keys == acc.Keys + Names(vars)
            && (forall k | 0 <= k < |vars| :: DecodeEntry(cat, response, vars[k]).Ok? && m[vars[k].name] == DecodeEntry(cat, response, vars[k]).value)
            && (forall n | n in acc && n !in Names(vars) :: m[n] == acc[n])
  {
    DecodeAllKeys(cat, response, vars, acc);
    DecodeAllKeeps(cat, response, vars, acc);
    DecodeAllValues(cat, response, vars, acc);
  }

  /** One successful step of the decoder. */
  lemma DecodeAllStep(cat: Catalog, response: seq<byte>, vars: seq<FollowEntry>, acc: map<string, DecodedValue>)
    requires vars != [] && DecodeAll(cat, response, vars, acc).Decoded?
    ensures DecodeEntry(cat, response, vars[0]).Ok?
    ensures DecodeAll(cat, response, vars, acc) ==
            DecodeAll(cat, response, vars[1..], acc[vars[0].name := DecodeEntry(cat, response, vars[0]).value])
  {
  }

  lemma {:induction false} DecodeAllKeys(cat: Catalog, response: seq<byte>, vars: seq<FollowEntry>, acc: map<string, DecodedValue>)
    requires DecodeAll(cat, response, vars, acc).Decoded?
    ensures DecodeAll(cat, response, vars, acc).results.Keys == acc.Keys + Names(vars)
  {
    if vars != [] {
      DecodeAllStep(cat, response, vars, acc);
      DecodeAllKeys(cat, response, vars[1..], acc[vars[0].name := DecodeEntry(cat, response, vars[0]).value]);
    }
  }

  lemma {:induction false} DecodeAllKeeps(cat: Catalog, response: seq<byte>, vars: seq<FollowEntry>, acc: map<string, DecodedValue>)
    requires DecodeAll(cat, response, vars, acc).Decoded?
    ensures var m := DecodeAll(cat, response, vars, acc).results;
            forall n | n in acc && n !in Names(vars) :: n in m && m[n] == acc[n]
  {
    if vars != [] {
      DecodeAllStep(cat, response, vars, acc);
      DecodeAllKeeps(cat, response, vars[1..], acc[vars[0].name := DecodeEntry(cat, response, vars[0]).value]);
      DecodeAllKeys(cat, response, vars, acc);
    }
  }

  lemma {:induction false} DecodeAllValues(cat: Catalog, response: seq<byte>, vars: seq<FollowEntry>, acc: map<string, DecodedValue>)
    requires DistinctNames(vars)
    requires DecodeAll(cat, response, vars, acc).Decoded?
    ensures var m := DecodeAll(cat, response, vars, acc).results;
            forall k | 0 <= k < |vars| ::
              DecodeEntry(cat, response, vars[k]).Ok? && vars[k].name in m && m[vars[k].name] == DecodeEntry(cat, response, vars[k]).value
  {
    if vars != [] {
      var tail := vars[1..];
      assert DistinctNames(tail);
      DecodeAllStep(cat, response, vars, acc);
      var d := DecodeEntry(cat, response, vars[0]).value;
      var acc' := acc[vars[0].name := d];
      var m := DecodeAll(cat, response, tail, acc').results;
      DecodeAllValues(cat, response, tail, acc');
      DecodeAllKeeps(cat, response, tail, acc');
      FirstNameFresh(vars);
      assert vars[0].name in m && m[vars[0].name] == d;
      forall k | 1 <= k < |vars|
        ensures DecodeEntry(cat, response, vars[k]).Ok? && vars[k].name in m && m[vars[k].name] == DecodeEntry(cat, response, vars[k]).value
      {
        assert vars[k] == tail[k - 1];
      }
    }
  }

  /** With distinct names, the first name is not among the others. */
  lemma FirstNameFresh(vars: seq<FollowEntry>)
    requires vars != [] && DistinctNames(vars)
    ensures vars[0].name !in Names(vars[1..])
  {
    forall k | 0 <= k < |vars| - 1 ensures vars[1..][k].name != vars[0].name {
      assert vars[1..][k] == vars[k + 1];
    }
  }

  lemma DecodePageVerdicts(cat: Catalog, response: seq<byte>, vars: seq<FollowEntry>)
    ensures DecodePage(cat, response, vars).NoData? <==> |response| < 2 || response[0] != 0x81
    ensures DecodePage(cat, response, vars).DecodeRaised? <==>
              && !(|response| < 2 || response[0] != 0x81)
              && exists k | 0 <= k < |vars| :: DecodeEntry(cat, response, vars[k]).Err?
  {
    if !(|response| < 2 || response[0] != 0x81) {
      DecodeAllFails(cat, response, vars, map[]);
    }
  }

  /** A decoded page holds one result per followed name, and the k-th
      variable's value is read from response[1 .. 1+bytes), the same bytes
      whatever k is, since the cursor never moves. */
  lemma DecodePageValues(cat: Catalog, response: seq<byte>, vars: seq<FollowEntry>, k: nat)
    requires DistinctNames(vars) && k < |vars|
    requires DecodePage(cat, response, vars).Decoded?
    ensures DecodePage(cat, response, vars).results.Keys == Names(vars)
    ensures vars[k].name in cat.vars && 0 < vars[k].bytes < |response|
    ensures var v := cat.vars[vars[k].name];
            DecodePage(cat, response, vars).results[vars[k].name] ==
              DecodedValue(vars[k].name,
                Scale(LittleEndian(response[1..1 + vars[k].bytes]), vars[k].bytes, v.scaleMinimum, v.scaleMaximum).value,
                v.shortDesc, v.units)
  {
    DecodeAllResults(cat, response, vars, map[]);
    DecodeEntryValue(cat, response, vars[k]);
  }

  lemma DecodeEntryValue(cat: Catalog, response: seq<byte>, e: FollowEntry)
    requires DecodeEntry(cat, response, e).Ok?
    ensures e.name in cat.vars && 0 < e.bytes < |response|
    ensures var v := cat.vars[e.name];
            DecodeEntry(cat, response, e).value ==
              DecodedValue(e.name, Scale(LittleEndian(response[1..1 + e.bytes]), e.bytes, v.scaleMinimum, v.scaleMaximum).value,
                           v.shortDesc, v.units)
  {
  }

  /** The canned reply 81 34 12 decodes a two-byte variable scaled 0..65535 to
      0x1234 = 4660: the first received byte is the least significant. */
  lemma CannedReplyDecodes(cat: Catalog, name: string)
    requires name in cat.vars && cat.vars[name].scaleMinimum == 0.0 && cat.vars[name].scaleMaximum == 65535.0
    ensures var e := FollowEntry(name, 2, Lsb(cat.vars[name].address), None);
            var v := cat.vars[name];
            DecodePage(cat, [0x81, 0x34, 0x12], [e]) ==
              Decoded(map[name := DecodedValue(name, 4660.0, v.shortDesc, v.units)])
  {
    var response: seq<byte> := [0x81, 0x34, 0x12];
    var v := cat.vars[name];
    assert response[1..3] == [0x34, 0x12];
    assert LittleEndian([0x34, 0x12]) == 0x1234 by {
      assert [0x34, 0x12][1..] == [0x12];
      assert [0x12][1..] == [];
    }
    assert FullScale(2) == 65535 by {
      PowAdd(2, 8, 8);
      assert Pow(2, 8) == 256;
    }
    var e := FollowEntry(name, 2, Lsb(cat.vars[name].address), None);
    assert [e][1..] == [];
    assert Rescale(4660.0, 65535.0, 0.0, 65535.0) == 4660.0;
    var d := DecodedValue(name, 4660.0, v.shortDesc, v.units);
    assert DecodeEntry(cat, response, e) == Ok(d);
    assert map[][name := d] == map[name := d];
    assert DecodeAll(cat, response, [e], map[]) == DecodeAll(cat, response, [], map[][name := d]);
  }

  /** Whenever the lower scale limit is at most the upper one, each decoded
      value lies between them. */
  lemma DecodedWithinLimits(cat: Catalog, response: seq<byte>, e: FollowEntry)
    requires DecodeEntry(cat, response, e).Ok?
    requires cat.vars[e.name].scaleMinimum <= cat.vars[e.name].scaleMaximum
    ensures var v := cat.vars[e.name];
            v.scaleMinimum <= DecodeEntry(cat, response, e).value.value <= v.scaleMaximum
  {
    var v := cat.vars[e.name];
    var raw := LittleEndian(FieldBytes(response, e.bytes));
    assert Scale(raw, e.bytes, v.scaleMinimum, v.scaleMaximum).Some?;
    LittleEndianBound(FieldBytes(response, e.bytes));
    PowBytes(e.bytes);
    assert raw <= FullScale(e.bytes);
    ScaleWithinLimits(raw, e.bytes, cat.vars[e.name].scaleMinimum, cat.vars[e.name].scaleMaximum);
  }

  lemma {:induction false} PowBytes(n: nat)
    ensures Pow(256, n) == Pow(2, 8 * n)
  {
    if n > 0 {
      PowBytes(n - 1);
      PowAdd(2, 8, 8 * (n - 1));
      assert Pow(2, 8) == 256;
      assert 8 + 8 * (n - 1) == 8 * n;
    }
  }

  // ------------------------------------------------------- the poll

  /** results[name]['value'] = value for names already present, the full
      record for new ones. */
  function Merge(results: map<string, DecodedValue>, page: map<string, DecodedValue>): (r: map<string, DecodedValue>)
    ensures r.Keys == results.Keys + page.Keys
  {
    map n | n in results.Keys + page.Keys ::
      if n !in page then results[n]
      else if n in results then results[n].(value := page[n].value)
      else page[n]
  }

  /** process_all_pages returns False for a non-dict, the dict, or raises. */
  datatype PollOutcome = NotADict | Polled | PollRaised(fault: Fault)

  /** process_all_pages from the k-th page on: build the request, take the
      reply, decode it, merge. A None from the decoder raises AttributeError
      at `.items()`. */
  ghost function PollFrom(cat: Catalog, st: FollowState, response: seq<byte>, k: nat, results: map<string, DecodedValue>): (PollOutcome, map<string, DecodedValue>)
    requires StateOk(cat, st)
    decreases |st.pages| - k
  {
    if k >= |st.pages| then (Polled, results)
    else
      var list := st.lists[st.pages[k]];
      match RequestBytes(st.pages[k], list)
      case Err(f) => (PollRaised(f), results)
      case Ok(_) =>
        match DecodePage(cat, response, list)
        case NoData => (PollRaised(AttributeError), results)
        case DecodeRaised(f) => (PollRaised(f), results)
        case Decoded(m) => PollFrom(cat, st, response, k + 1, Merge(results, m))
  }

  /** A poll only ever changes the `value` of a name already in the results:
      its name, short description and units keep their first-seen copy. */
  lemma {:induction false} PollKeepsMetadata(cat: Catalog, st: FollowState, response: seq<byte>, k: nat, results: map<string, DecodedValue>)
    requires StateOk(cat, st)
    decreases |st.pages| - k
    ensures KeepsMetadata(results, PollFrom(cat, st, response, k, results).1)
  {
    if k < |st.pages| {
      var list := st.lists[st.pages[k]];
      var decoded := DecodePage(cat, response, list);
      PollStep(cat, st, response, k, results);
      if RequestBytes(st.pages[k], list).Ok? && decoded.Decoded? {
        var merged := Merge(results, decoded.results);
        var rest := PollFrom(cat, st, response, k + 1, merged).1;
        MergeKeepsMetadata(results, decoded.results);
        PollKeepsMetadata(cat, st, response, k + 1, merged);
        KeepsMetadataChain(results, merged, rest);
        assert PollFrom(cat, st, response, k, results).1 == rest;
      }
    }
  }

  /** Every name of a is in b with the same name, short description and units. */
  ghost predicate KeepsMetadata(a: map<string, DecodedValue>, b: map<string, DecodedValue>) {
    && a.Keys <= b.Keys
    && forall n | n in a :: b[n].name == a[n].name && b[n].shortDesc == a[n].shortDesc && b[n].units == a[n].units
  }

  lemma KeepsMetadataChain(a: map<string, DecodedValue>, b: map<string, DecodedValue>, c: map<string, DecodedValue>)
    requires KeepsMetadata(a, b) && KeepsMetadata(b, c)
    ensures KeepsMetadata(a, c)
  {
  }

  /** One page of the poll: a decoded page is merged and the poll goes on;
      anything else stops it with the results as they are. */
  lemma PollStep(cat: Catalog, st: FollowState, response: seq<byte>, k: nat, results: map<string, DecodedValue>)
    requires StateOk(cat, st) && k < |st.pages|
    ensures var list := st.lists[st.pages[k]];
            var decoded := DecodePage(cat, response, list);
            if RequestBytes(st.pages[k], list).Ok? && decoded.Decoded? then
              PollFrom(cat, st, response, k, results) == PollFrom(cat, st, response, k + 1, Merge(results, decoded.results))
            else
              PollFrom(cat, st, response, k, results).1 == results
  {
  }

  /** One merge keeps every name of the results and its metadata. */
  lemma MergeKeepsMetadata(results: map<string, DecodedValue>, page: map<string, DecodedValue>)
    ensures KeepsMetadata(results, Merge(results, page))
  {
  }

  /** Every variable of a page that is polled ends up in the results, with the
      value decoded from the reply: no other page follows the same name, so no
      later merge replaces it. */
  lemma {:induction false} PollRecordsEveryVariable(cat: Catalog, st: FollowState, response: seq<byte>, k: nat, results: map<string, DecodedValue>, j: nat)
    requires StateOk(cat, st) && k <= j < |st.pages|
    requires PollFrom(cat, st, response, k, results).0 == Polled
    decreases |st.pages| - k
    ensures Names(st.lists[st.pages[j]]) <= PollFrom(cat, st, response, k, results).1.Keys
    ensures var r := PollFrom(cat, st, response, k, results).1;
            forall i | 0 <= i < |st.lists[st.pages[j]]| ::
              && DecodeEntry(cat, response, st.lists[st.pages[j]][i]).Ok?
              && st.lists[st.pages[j]][i].name in r
              && r[st.lists[st.pages[j]][i].name].value == DecodeEntry(cat, response, st.lists[st.pages[j]][i]).value.value
  {
    var list := st.lists[st.pages[k]];
    var m := DecodePage(cat, response, list).results;
    PollStep(cat, st, response, k, results);
    if j > k {
      PollRecordsEveryVariable(cat, st, response, k + 1, Merge(results, m), j);
    } else {
      PollKeepsMetadata(cat, st, response, k + 1, Merge(results, m));
      PageNamesDistinct(cat, st.pages[k], list);
      DecodeAllResults(cat, response, list, map[]);
      forall i | 0 <= i < |list|
        ensures var r := PollFrom(cat, st, response, k, results).1;
                && DecodeEntry(cat, response, list[i]).Ok?
                && list[i].name in r
                && r[list[i].name].value == DecodeEntry(cat, response, list[i]).value.value
      {
        PollSetsValue(cat, st, response, k, results, i);
      }
    }
  }

  /** The page polled at k sets the value of its i-th variable for good. */
  lemma PollSetsValue(cat: Catalog, st: FollowState, response: seq<byte>, k: nat, results: map<string, DecodedValue>, i: nat)
    requires StateOk(cat, st) && k < |st.pages|
    requires PollFrom(cat, st, response, k, results).0 == Polled
    requires i < |st.lists[st.pages[k]]|
    ensures var e := st.lists[st.pages[k]][i];
            var r := PollFrom(cat, st, response, k, results).1;
            DecodeEntry(cat, response, e).Ok? && e.name in r && r[e.name].value == DecodeEntry(cat, response, e).value.value
  {
    var list := st.lists[st.pages[k]];
    var e := list[i];
    var m := DecodePage(cat, response, list).results;
    PollStep(cat, st, response, k, results);
    PageNamesDistinct(cat, st.pages[k], list);
    DecodeAllValues(cat, response, list, map[]);
    var merged := Merge(results, m);
    assert merged[e.name].value == m[e.name].value;
    assert e.name in Names(list);
    forall i2 | k + 1 <= i2 < |st.pages| ensures e.name !in Names(st.lists[st.pages[i2]]) {
      NameOnOnePage(cat, st, k, i2, e.name);
    }
    PollLeaves(cat, st, response, k + 1, merged, e.name);
  }

  /** A merge leaves a name the page does not hold as it was. */
  lemma MergeLeaves(results: map<string, DecodedValue>, page: map<string, DecodedValue>, n: string)
    requires n in results && n !in page
    ensures n in Merge(results, page) && Merge(results, page)[n] == results[n]
  {
  }

  /** A name followed on one page is followed on no other: its catalogue
      entry fixes its page. */
  lemma NameOnOnePage(cat: Catalog, st: FollowState, i: nat, i2: nat, n: string)
    requires StateOk(cat, st) && i < |st.pages| && i2 < |st.pages| && i != i2
    requires n in Names(st.lists[st.pages[i]])
    ensures n !in Names(st.lists[st.pages[i2]])
  {
    var p, p2 := st.pages[i], st.pages[i2];
    assert p in st.pages && p2 in st.pages;
    assert p != p2 by {
      if i < i2 {
        assert st.pages[i] != st.pages[i2];
      } else {
        assert st.pages[i2] != st.pages[i];
      }
    }
    var a :| 0 <= a < |st.lists[p]| && st.lists[p][a].name == n;
    assert FromCatalog(cat, p, st.lists[p][a]);
    forall b | 0 <= b < |st.lists[p2]| ensures st.lists[p2][b].name != n {
      assert FromCatalog(cat, p2, st.lists[p2][b]);
    }
  }

  /** A name no page from k on follows keeps its record through the poll. */
  lemma {:induction false} PollLeaves(cat: Catalog, st: FollowState, response: seq<byte>, k: nat, results: map<string, DecodedValue>, n: string)
    requires StateOk(cat, st) && n in results
    requires forall i | k <= i < |st.pages| :: n !in Names(st.lists[st.pages[i]])
    decreases |st.pages| - k
    ensures n in PollFrom(cat, st, response, k, results).1
    ensures PollFrom(cat, st, response, k, results).1[n] == results[n]
  {
    if k < |st.pages| {
      var list := st.lists[st.pages[k]];
      var decoded := DecodePage(cat, response, list);
      PollStep(cat, st, response, k, results);
      if RequestBytes(st.pages[k], list).Ok? && decoded.Decoded? {
        DecodeAllKeys(cat, response, list, map[]);
        MergeLeaves(results, decoded.results, n);
        PollLeaves(cat, st, response, k + 1, Merge(results, decoded.results), n);
      }
    }
  }

  /** Entries of one page list have distinct names (their low bytes differ,
      and a name determines its low byte). */
  lemma PageNamesDistinct(cat: Catalog, page: string, list: seq<FollowEntry>)
    requires PageListOk(cat, page, list)
    ensures DistinctNames(list)
  {
    forall i, j | 0 <= i < j < |list| ensures list[i].name != list[j].name {
      assert FromCatalog(cat, page, list[i]) && FromCatalog(cat, page, list[j]);
    }
  }

  // ------------------------------------------------------- the object

  /** The results dict the caller passes to process_all_pages. */
  class ResultTable {
    var entries: map<string, DecodedValue>

    constructor ()
      ensures entries == map[]
    {
      entries := map[];
    }
  }

  /** An instance of class `mbe`. The catalogue is what the constructor loads
      from its JSON file; the follow lists start empty. */
  class Ecu {
    const variables: Catalog
    const mappings: ReverseMap
    var pages: seq<string>
    var follow: map<string, seq<FollowEntry>>

    ghost predicate Valid()
      reads this
    {
      variables.Valid() && StateOk(variables, FollowState(pages, follow))
    }

    function State(): FollowState
      reads this
    {
      FollowState(pages, follow)
    }

    constructor (variables: Catalog)
      requires variables.Valid()
      ensures Valid() && this.variables == variables && State() == FollowState([], map[])
      ensures mappings == MappingOf(variables, |variables.keys|)
    {
      this.variables := variables;
      var m := CreatePageReverseMapping(variables);
      mappings := m;
      pages, follow := [], map[];
    }

    /** add_variable_to_follow: a position-finding loop, then list.insert. */
    method AddVariableToFollow(name: PyName, frequency: Option<int>) returns (outcome: AddOutcome)
      requires Valid()
      modifies this
      ensures Valid()
      ensures (outcome, State()) == AddSpec(variables, old(State()), name, frequency)
    {
      if name.PyNone? {
        return Refused;
      }
      if !name.PyStr? {
        return Refused;
      }
      if name.s !in variables.vars {
        return Refused;
      }
      var page := variables.vars[name.s].page;
      var lsb := Lsb(variables.vars[name.s].address);
      var bytes := variables.vars[name.s].bytes;
      var list := if page in follow then follow[page] else [];
      assert list == PageList(State(), page);
      assert Ordered(list);
      var mine := ParseHex(lsb);
      var insertPosition := 0;
      var i := 0;
      while i < |list|
        invariant 0 <= i <= |list| && insertPosition == i
        invariant i > 0 ==> mine.Some?
        invariant forall k | 0 <= k < i :: list[k].lsb != lsb && Parses(list[k]) && mine.Some? && Val(list[k]) <= mine.value
      {
        if list[i].lsb == lsb {
          return Refused;
        }
        var theirs := ParseHex(list[i].lsb);
        if mine.None? || theirs.None? {
          AddSpecRaises(variables, State(), name.s, frequency, i);
          return AddRaised(ValueError);
        }
        insertPosition := i + 1;
        if theirs.value > mine.value {
          insertPosition := i;
          break;
        }
        i := i + 1;
      }
      AddSpecInserts(variables, State(), name.s, frequency, insertPosition);
      AddPreservesInvariant(variables, State(), name, frequency);
      if page !in follow {
        pages := pages + [page];
      }
      follow := follow[page := Insert(list, insertPosition, FollowEntry(name.s, bytes, lsb, frequency))];
      return Added;
    }

    /** add_variable_list_to_follow. */
    method AddVariableListToFollow(nameList: seq<PyName>, frequency: Option<int>) returns (outcome: ListOutcome)
      requires Valid()
      modifies this
      ensures Valid()
      ensures (outcome, State()) == AddListSpec(variables, old(State()), nameList, 0)
    {
      var count := 0;
      for k := 0 to |nameList|
        invariant Valid()
        invariant AddListSpec(variables, old(State()), nameList, 0) == AddListSpec(variables, State(), nameList[k..], count)
      {
        assert nameList[k..][1..] == nameList[k + 1..];
        var added := AddVariableToFollow(nameList[k], None);
        if added.AddRaised? {
          return ListRaised(added.fault);
        }
        count := count + 1;
      }
      return Counted(count);
    }

    /** create_data_request: offsets in nested loops, then unhexlify. */
    method CreateDataRequest(pageName: string, page: seq<FollowEntry>) returns (r: Result<seq<byte>>)
      ensures r == RequestBytes(pageName, page)
    {
      var requestString := "";
      ghost var offsets: seq<nat> := [];
      for k := 0 to |page|
        invariant WireOffsets(page[..k]) == Some(offsets)
        invariant requestString == HexText(offsets)
      {
        var item := page[k];
        var lsbInt := ParseHex(item.lsb);
        if lsbInt.None? {
          WireOffsetsNoneAt(page, k);
          return Err(ValueError);
        }
        var text := OffsetsHex(lsbInt.value, item.bytes);
        HexTextAppend(offsets, Range(lsbInt.value, item.bytes));
        requestString := requestString + text;
        WireOffsetsPrefix(page, k);
        offsets := offsets + Range(lsbInt.value, item.bytes);
      }
      assert page[..|page|] == page;
      requestString := "0100000000" + Slice(pageName, 2, |pageName|) + requestString;
      var bytes := Unhexlify(requestString);
      if bytes.None? {
        return Err(ValueError);
      }
      return Ok(bytes.value);
    }

    /** The inner loop of create_data_request: '{:02x}' of lsb+i for each i
        below the entry's width. */
    static method OffsetsHex(start: nat, count: nat) returns (text: string)
      ensures text == HexText(Range(start, count))
    {
      text := "";
      ghost var done: seq<nat> := [];
      for i := 0 to count
        invariant done == Range(start, i)
        invariant text == HexText(done)
      {
        HexTextSnoc(done, start + i);
        text := text + Hex02(start + i);
        done := done + [start + i];
      }
    }

    /** process_data_response: each variable's bytes, prepended one by one into
        a bytearray read big-endian, then rescaled. */
    method ProcessDataResponse(response: seq<byte>, varsToFollow: seq<FollowEntry>) returns (r: PageDecode)
      ensures r == DecodePage(variables, response, varsToFollow)
    {
      var dataLength := |response|;
      if dataLength < 2 {
        return NoData;
      }
      if response[0] != 0x81 {
        return NoData;
      }
      var i := 1;
      var results: map<string, DecodedValue> := map[];
      for k := 0 to |varsToFollow|
        invariant DecodePage(variables, response, varsToFollow) == DecodeAll(variables, response, varsToFollow[k..], results)
      {
        assert varsToFollow[k..][1..] == varsToFollow[k + 1..];
        var name := varsToFollow[k].name;
        var bytes := varsToFollow[k].bytes;
        var value: seq<byte> := [];
        for j := 0 to bytes
          invariant i + j <= |response|
          invariant value == Reverse(response[i..i + j])
        {
          if i + j >= |response| {
            return DecodeRaised(IndexError);
          }
          assert response[i..i + j + 1] == response[i..i + j] + [response[i + j]];
          ReverseSnoc(response[i..i + j], response[i + j]);
          value := [response[i + j]] + value;
        }
        if name !in variables.vars {
          return DecodeRaised(KeyError(name));
        }
        var variable := variables.vars[name];
        var responseInt := BigEndian(value);
        BigEndianOfReverse(response[i..i + bytes]);
        var scaled := Scale(responseInt, bytes, variable.scaleMinimum, variable.scaleMaximum);
        if scaled.None? {
          return DecodeRaised(ZeroDivisionError);
        }
        results := results[name := DecodedValue(name, scaled.value, variable.shortDesc, variable.units)];
      }
      return Decoded(results);
    }

    /** process_all_pages, with the reply the transport would return as a
        parameter (mbe.py uses the same canned reply for every page). */
    method ProcessAllPages(results: ResultTable?, response: seq<byte>) returns (outcome: PollOutcome)
      requires Valid()
      modifies results
      ensures results == null ==> outcome == NotADict
      ensures results != null ==>
        (outcome, results.entries) == PollFrom(variables, State(), response, 0, old(results.entries))
    {
      if results == null {
        return NotADict;
      }
      for k := 0 to |pages|
        invariant PollFrom(variables, State(), response, 0, old(results.entries))
               == PollFrom(variables, State(), response, k, results.entries)
      {
        var page := pages[k];
        var command := CreateDataRequest(page, follow[page]);
        if command.Err? {
          return PollRaised(command.fault);
        }
        var pageResults := ProcessDataResponse(response, follow[page]);
        if pageResults.NoData? {
          return PollRaised(AttributeError);
        }
        if pageResults.DecodeRaised? {
          return PollRaised(pageResults.fault);
        }
        MergeInto(results, pageResults.results);
      }
      return Polled;
    }
  }

  /** The merge loop of process_all_pages over page_results.items(). */
  method MergeInto(results: ResultTable, pageResults: map<string, DecodedValue>)
    modifies results
    ensures results.entries == Merge(old(results.entries), pageResults)
  {
    var remaining := pageResults.Keys;
    ghost var done: map<string, DecodedValue> := map[];
    while remaining != {}
      invariant remaining <= pageResults.Keys
      invariant done.Keys == pageResults.Keys - remaining
      invariant forall n | n in done :: done[n] == pageResults[n]
      invariant results.entries == Merge(old(results.entries), done)
      decreases remaining
    {
      var name :| name in remaining;
      var result := pageResults[name];
      MergeStep(old(results.entries), done, name, result);
      if name in results.entries {
        results.entries := results.entries[name := results.entries[name].(value := result.value)];
      } else {
        results.entries := results.entries[name := result];
      }
      done := done[name := result];
      remaining := remaining - {name};
    }
    assert done == pageResults;
  }

  /** Merging one more page result is one more dict assignment. */
  lemma MergeStep(start: map<string, DecodedValue>, done: map<string, DecodedValue>, name: string, result: DecodedValue)
    requires name !in done
    ensures name in Merge(start, done) <==> name in start
    ensures name in start ==> Merge(start, done)[name] == start[name]
    ensures Merge(start, done[name := result]) ==
              Merge(start, done)[name := if name in start then start[name].(value := result.value) else result]
  {
  }

  function Reverse(s: seq<byte>): (r: seq<byte>)
    ensures |r| == |s|
  {
    if s == [] then [] else Reverse(s[1..]) + [s[0]]
  }

  lemma {:induction false} ReverseSnoc(s: seq<byte>, x: byte)
    ensures Reverse(s + [x]) == [x] + Reverse(s)
  {
    if s != [] {
      assert (s + [x])[1..] == s[1..] + [x];
      ReverseSnoc(s[1..], x);
    }
  }

  /** int.from_bytes(value, 'big') */
  function BigEndian(bs: seq<byte>): nat {
    if bs == [] then 0 else BigEndian(bs[..|bs| - 1]) * 256 + bs[|bs| - 1]
  }

  /** Reading the reversed bytes big-endian is reading the bytes little-endian. */
  lemma {:induction false} BigEndianOfReverse(s: seq<byte>)
    ensures BigEndian(Reverse(s)) == LittleEndian(s)
  {
    if s != [] {
      BigEndianOfReverse(s[1..]);
      var r := Reverse(s);
      assert r[..|r| - 1] == Reverse(s[1..]);
    }
  }
}
