/** The capture-side decoders of tools/mbepcap2txt.py and tools/mbepcap2ble.py:
    recovering the variable list of a data request from its hex text through
    the page reverse map, decoding the matching hex response with a cursor
    that advances by each field's width, and the per-packet loop of `main`
    that classifies frames and pairs each response with the latest request.
    The two tools share the first two verbatim; `main` differs in how it
    labels and when it displays frames. */
module Pcap {
  import opened Util
  import opened Catalog
  import opened Scaling
  import Mbe

  // ------------------------------------------------------- the request walk

  /** One element of command_structure: a {name, bytes} record. */
  datatype Command = Command(name: string, bytes: nat)

  /** What an unmapped low byte becomes: {'name': "UNKNOWN", 'bytes': "1"}. */
  const Unknown := Command("UNKNOWN", 1)

  /** mapping["0x" + page][byte], or the UNKNOWN record where that raises. */
  function Classify(mapping: ReverseMap, key: string, lsb: string): Command {
    match Lookup(mapping, key, lsb)
    case Some(e) => Command(e.name, e.bytes)
    case None => Unknown
  }

  /** s[i:] */
  function Drop(s: string, i: nat): (r: string)
    ensures |r| <= |s|
    ensures i > 0 && s != [] ==> |r| < |s|
    ensures i <= |s| ==> r == s[i..]
  {
    if i >= |s| then [] else s[i..]
  }

  /** The loop either finishes with its list or spins forever on a zero width. */
  datatype Walk = Walked(commands: seq<Command>) | Spins

  /** The request walk over the text from the cursor on. */
  function WalkRest(mapping: ReverseMap, key: string, rest: string): Walk
    decreases |rest|
  {
    if rest == [] then Walked([])
    else
      var c := Classify(mapping, key, Slice(rest, 0, 2));
      if c.bytes == 0 then Spins
      else match WalkRest(mapping, key, Drop(rest, 2 * c.bytes))
        case Spins => Spins
        case Walked(cs) => Walked([c] + cs)
  }

  function PrefixWalk(done: seq<Command>, w: Walk): Walk {
    match w
    case Spins => Spins
    case Walked(cs) => Walked(done + cs)
  }

  /** process_data_request_command returns None, a list, or never returns. */
  datatype RequestStructure = NotARequest | Structure(commands: seq<Command>) | Hangs

  /** What process_data_request_command computes: None under 12 characters,
      otherwise the walk from character 12 with the page from characters 10-11. */
  function RequestSpec(data: string, mapping: ReverseMap): RequestStructure {
    if |data| < 12 then NotARequest
    else match WalkRest(mapping, "0x" + data[10..12], data[12..])
      case Spins => Hangs
      case Walked(cs) => Structure(cs)
  }

  /** A zero width at cursor i: the loop never leaves that position. */
  lemma WalkSpins(mapping: ReverseMap, key: string, data: string, i: nat)
    requires i < |data| && Classify(mapping, key, Slice(data, i, i + 2)).bytes == 0
    ensures WalkRest(mapping, key, Drop(data, i)) == Spins
  {
    DropSlice(data, i);
    WalkRestStep(mapping, key, Drop(data, i));
  }

  /** One pass of the request loop at cursor i: the command is recorded and
      the cursor moves past its field. */
  lemma WalkAdvance(mapping: ReverseMap, key: string, data: string, i: nat, done: seq<Command>)
    requires i < |data|
    requires Classify(mapping, key, Slice(data, i, i + 2)).bytes > 0
    ensures var c := Classify(mapping, key, Slice(data, i, i + 2));
            PrefixWalk(done, WalkRest(mapping, key, Drop(data, i))) ==
            PrefixWalk(done + [c], WalkRest(mapping, key, Drop(data, i + 2 * c.bytes)))
  {
    var c := Classify(mapping, key, Slice(data, i, i + 2));
    var rest := Drop(data, i);
    DropSlice(data, i);
    assert Classify(mapping, key, Slice(rest, 0, 2)) == c;
    DropDrop(data, i, 2 * c.bytes);
    assert Drop(rest, 2 * c.bytes) == Drop(data, i + 2 * c.bytes);
    WalkStepPrefix(mapping, key, rest, done);
  }

  lemma WalkStepPrefix(mapping: ReverseMap, key: string, rest: string, done: seq<Command>)
    requires rest != [] && Classify(mapping, key, Slice(rest, 0, 2)).bytes > 0
    ensures var c := Classify(mapping, key, Slice(rest, 0, 2));
            PrefixWalk(done, WalkRest(mapping, key, rest)) ==
            PrefixWalk(done + [c], WalkRest(mapping, key, Drop(rest, 2 * c.bytes)))
  {
    var c := Classify(mapping, key, Slice(rest, 0, 2));
    WalkRestStep(mapping, key, rest);
    PrefixWalkCompose(done, c, WalkRest(mapping, key, Drop(rest, 2 * c.bytes)));
  }

  /** One unfolding of the walk on a non-empty rest. */
  lemma WalkRestStep(mapping: ReverseMap, key: string, rest: string)
    requires rest != []
    ensures var c := Classify(mapping, key, Slice(rest, 0, 2));
            && (c.bytes == 0 ==> WalkRest(mapping, key, rest) == Spins)
            && (c.bytes > 0 ==> WalkRest(mapping, key, rest) == PrefixWalk([c], WalkRest(mapping, key, Drop(rest, 2 * c.bytes))))
  {
  }

  lemma PrefixWalkCompose(done: seq<Command>, c: Command, w: Walk)
    ensures PrefixWalk(done, PrefixWalk([c], w)) == PrefixWalk(done + [c], w)
  {
    if w.Walked? {
      assert done + ([c] + w.commands) == (done + [c]) + w.commands;
    }
  }

  lemma DropSlice(data: string, i: nat)
    requires i < |data|
    ensures Drop(data, i) != [] && Slice(Drop(data, i), 0, 2) == Slice(data, i, i + 2)
  {
  }

  lemma DropDrop(data: string, i: nat, k: nat)
    requires i < |data|
    ensures Drop(Drop(data, i), k) == Drop(data, i + k)
  {
  }

  /** process_data_request_command. A zero width would leave the cursor where
      it is and loop forever; the model stops and reports that. */
  method ProcessDataRequestCommand(data: string, mapping: ReverseMap) returns (r: RequestStructure)
    ensures r == RequestSpec(data, mapping)
  {
    var commandStructure: seq<Command> := [];
    var dataLength := |data|;
    if dataLength < 12 {
      return NotARequest;
    }
    var page := data[10..12];
    var i: nat := 12;
    assert Drop(data, i) == data[12..];
    assert PrefixWalk([], WalkRest(mapping, "0x" + page, data[12..])) == WalkRest(mapping, "0x" + page, data[12..]) by {
      var w := WalkRest(mapping, "0x" + page, data[12..]);
      if w.Walked? {
        assert [] + w.commands == w.commands;
      }
    }
    while i < dataLength
      invariant WalkRest(mapping, "0x" + page, data[12..]) ==
                PrefixWalk(commandStructure, WalkRest(mapping, "0x" + page, Drop(data, i)))
      decreases dataLength - i
    {
      var byte := Slice(data, i, i + 2);
      var mapped := Classify(mapping, "0x" + page, byte);
      if mapped.bytes == 0 {
        WalkSpins(mapping, "0x" + page, data, i);
        return Hangs;
      }
      WalkAdvance(mapping, "0x" + page, data, i, commandStructure);
      commandStructure := commandStructure + [mapped];
      i := i + mapped.bytes * 2;
    }
    assert commandStructure + [] == commandStructure;
    return Structure(commandStructure);
  }

  /** The (name, bytes) records of a follow list. */
  function CommandsOf(page: seq<Mbe.FollowEntry>): (r: seq<Command>)
    ensures |r| == |page| && forall k | 0 <= k < |page| :: r[k] == Command(page[k].name, page[k].bytes)
  {
    if page == [] then [] else [Command(page[0].name, page[0].bytes)] + CommandsOf(page[1..])
  }

  /** The walk reads back what a follow list's offsets encode, when every
      entry's low byte is two lower-case hex digits, its width is at least one,
      its offsets stay below 0x100, and the map holds it at that low byte. */
  ghost predicate WalkableEntry(mapping: ReverseMap, key: string, e: Mbe.FollowEntry) {
    && |e.lsb| == 2 && IsLowerHex(e.lsb)
    && e.bytes >= 1
    && HexValue(e.lsb) + e.bytes <= 256
    && Lookup(mapping, key, e.lsb) == Some(MapEntry(e.name, e.bytes))
  }

  lemma RangeHead(start: nat, count: nat)
    requires count >= 1
    ensures Range(start, count) == [start] + Range(start + 1, count - 1)
  {
    var r, t := Range(start, count), Range(start + 1, count - 1);
    assert forall k | 1 <= k < count :: r[k] == t[k - 1];
  }

  function Range(start: nat, count: nat): seq<nat> {
    Mbe.Range(start, count)
  }

  lemma {:induction false} WalkEntries(mapping: ReverseMap, key: string, page: seq<Mbe.FollowEntry>)
    requires forall k | 0 <= k < |page| :: WalkableEntry(mapping, key, page[k])
    ensures Mbe.WireOffsets(page).Some?
    ensures WalkRest(mapping, key, Mbe.HexText(Mbe.WireOffsets(page).value)) == Walked(CommandsOf(page))
    ensures forall k | 0 <= k < |Mbe.WireOffsets(page).value| :: Mbe.WireOffsets(page).value[k] < 256
  {
    if page != [] {
      var e := page[0];
      assert WalkableEntry(mapping, key, e);
      Hex02OfValue(e.lsb);
      var v := HexValue(e.lsb);
      assert Mbe.Parses(e) && Mbe.Val(e) == v;
      var tail := page[1..];
      assert forall k | 0 <= k < |tail| :: tail[k] == page[k + 1];
      WalkEntries(mapping, key, tail);
      var head := Range(v, e.bytes);
      var rest := Mbe.WireOffsets(tail).value;
      assert Mbe.WireOffsets(page) == Some(head + rest);
      Mbe.HexTextAppend(head, rest);
      EntryTextStep(mapping, key, e, Mbe.HexText(rest));
      WalkRestStep(mapping, key, Mbe.HexText(head) + Mbe.HexText(rest));
      assert CommandsOf(page) == [Command(e.name, e.bytes)] + CommandsOf(tail);
    }
  }

  /** An entry's offsets, written out, classify as the entry and span exactly
      its width, whatever text follows. */
  lemma EntryTextStep(mapping: ReverseMap, key: string, e: Mbe.FollowEntry, after: string)
    requires WalkableEntry(mapping, key, e)
    ensures var text := Mbe.HexText(Range(HexValue(e.lsb), e.bytes)) + after;
            && text != []
            && Classify(mapping, key, Slice(text, 0, 2)) == Command(e.name, e.bytes)
            && Drop(text, 2 * e.bytes) == after
  {
    Hex02OfValue(e.lsb);
    var v := HexValue(e.lsb);
    var head := Range(v, e.bytes);
    RangeHead(v, e.bytes);
    var later := Range(v + 1, e.bytes - 1);
    assert head[1..] == later;
    Mbe.HexTextBytes(later);
    var text := Mbe.HexText(head) + after;
    assert Mbe.HexText(head) == Hex02(v) + Mbe.HexText(later);
    assert Slice(text, 0, 2) == e.lsb;
    assert Drop(text, 2 * e.bytes) == after;
  }

  lemma HexlifyAppend(a: seq<byte>, b: seq<byte>)
    ensures Hexlify(a + b) == Hexlify(a) + Hexlify(b)
    decreases |a|
  {
    if a == [] {
      assert a + b == b;
    } else {
      assert (a + b)[0] == a[0] && (a + b)[1..] == a[1..] + b;
      HexlifyAppend(a[1..], b);
      assert Hex02(a[0]) + (Hexlify(a[1..]) + Hexlify(b)) == (Hex02(a[0]) + Hexlify(a[1..])) + Hexlify(b);
    }
  }

  lemma {:induction false} HexlifyIsHexText(offsets: seq<byte>)
    ensures Hexlify(offsets) == Mbe.HexText(offsets)
  {
    if offsets != [] {
      HexlifyIsHexText(offsets[1..]);
    }
  }

  /** The hex text of the request header: 01 00 00 00 00, then the page byte. */
  lemma RequestHeaderHex(x: byte)
    ensures Hexlify([1, 0, 0, 0, 0, x]) == "0100000000" + Hex02(x)
  {
    var h0: seq<byte> := [x];
    var h1: seq<byte> := [0, x];
    var h2: seq<byte> := [0, 0, x];
    var h3: seq<byte> := [0, 0, 0, x];
    var h4: seq<byte> := [0, 0, 0, 0, x];
    var h5: seq<byte> := [1, 0, 0, 0, 0, x];
    assert Hex02(0) == "00" && Hex02(1) == "01";
    assert h0[1..] == [] && Hexlify(h0) == Hex02(x);
    assert h1[1..] == h0 && Hexlify(h1) == "00" + Hexlify(h0);
    assert h2[1..] == h1 && Hexlify(h2) == "00" + Hexlify(h1);
    assert h3[1..] == h2 && Hexlify(h3) == "00" + Hexlify(h2);
    assert h4[1..] == h3 && Hexlify(h4) == "00" + Hexlify(h3);
    assert h5[1..] == h4 && Hexlify(h5) == "01" + Hexlify(h4);
  }

  /** The hex text of a request create_data_request builds: the fixed header,
      the page's two digits, then the offsets' text. */
  lemma RequestHex(pageName: string, page: seq<Mbe.FollowEntry>)
    requires |pageName| == 4 && pageName[..2] == "0x" && IsLowerHex(pageName[2..])
    requires Mbe.WireOffsets(page).Some?
    requires forall k | 0 <= k < |Mbe.WireOffsets(page).value| :: Mbe.WireOffsets(page).value[k] < 256
    ensures Mbe.RequestBytes(pageName, page).Ok?
    ensures Hexlify(Mbe.RequestBytes(pageName, page).value) ==
            "0100000000" + pageName[2..] + Mbe.HexText(Mbe.WireOffsets(page).value)
  {
    var hh := pageName[2..];
    Hex02OfValue(hh);
    Mbe.RequestLayout(pageName, page);
    var head: seq<byte> := [1, 0, 0, 0, 0, HexValue(hh)];
    var tail: seq<byte> := Mbe.WireOffsets(page).value;
    HexlifyAppend(head, tail);
    HexlifyIsHexText(tail);
    RequestHeaderHex(HexValue(hh));
  }

  /** Round trip with mbe.py: the hex text of a request built by
      create_data_request walks back to the follow list's (name, bytes)
      records, in list order. */
  lemma RequestRoundTrip(mapping: ReverseMap, pageName: string, page: seq<Mbe.FollowEntry>)
    requires |pageName| == 4 && pageName[..2] == "0x" && IsLowerHex(pageName[2..])
    requires forall k | 0 <= k < |page| :: WalkableEntry(mapping, pageName, page[k])
    ensures Mbe.RequestBytes(pageName, page).Ok?
    ensures RequestSpec(Hexlify(Mbe.RequestBytes(pageName, page).value), mapping) == Structure(CommandsOf(page))
  {
    WalkEntries(mapping, pageName, page);
    RequestHex(pageName, page);
    var data := Hexlify(Mbe.RequestBytes(pageName, page).value);
    var text := Mbe.HexText(Mbe.WireOffsets(page).value);
    HeaderFields(data, pageName, text);
    assert RequestSpec(data, mapping) == Structure(CommandsOf(page)) by {
      assert WalkRest(mapping, "0x" + data[10..12], data[12..]) == Walked(CommandsOf(page));
    }
  }

  lemma HeaderFields(data: string, pageName: string, text: string)
    requires |pageName| == 4 && pageName[..2] == "0x"
    requires data == "0100000000" + pageName[2..] + text
    ensures |data| >= 12 && "0x" + data[10..12] == pageName && data[12..] == text
  {
    assert data[10..12] == pageName[2..];
  }

  // ------------------------------------------------------- the response decoder

  /** One line the response decoder writes: the scaled value of a known
      variable, or the raw hex and integer of an UNKNOWN one. */
  datatype LogLine =
    | ScaledLine(name: string, value: real, units: string, shortDesc: string, hex: string, raw: nat)
    | RawLine(name: string, hex: string, raw: nat)

  /** The lines written before returning None or raising. */
  datatype ResponseLog = ResponseLog(lines: seq<LogLine>, fault: Option<Fault>)

  /** response_data after prepending the slices at i, i+2, ..., i+2*(count-1):
      the last slice read comes first. */
  function FieldHex(data: string, i: nat, count: nat): string {
    if count == 0 then [] else Slice(data, i + 2 * (count - 1), i + 2 * count) + FieldHex(data, i, count - 1)
  }

  /** One command at cursor i. For a named variable: KeyError if it is not in
      the catalogue, ValueError if int(response_data, 16) fails, then
      ZeroDivisionError for a zero-byte variable; UNKNOWN shows the raw value. */
  function DecodeCommand(cat: Catalog, c: Command, data: string, i: nat): Result<LogLine> {
    var hex := FieldHex(data, i, c.bytes);
    if c.name != "UNKNOWN" then
      if c.name !in cat.vars then Err(KeyError(c.name))
      else
        var v := cat.vars[c.name];
        match ParseHex(hex)
        case None => Err(ValueError)
        case Some(raw) =>
          match Scale(raw, v.bytes, v.scaleMinimum, v.scaleMaximum)
          case None => Err(ZeroDivisionError)
          case Some(x) => Ok(ScaledLine(c.name, x, v.units, v.shortDesc, hex, raw))
    else
      match ParseHex(hex)
      case None => Err(ValueError)
      case Some(raw) => Ok(RawLine(c.name, hex, raw))
  }

  /** The command loop for a per-command step that takes the cursor: each
      command's line in turn, stopping at the first failure, with the cursor
      moved by bytes*2 after each command. */
  function Collect(step: (Command, nat) -> Result<LogLine>, cmds: seq<Command>, i: nat): ResponseLog
    decreases |cmds|
  {
    if cmds == [] then ResponseLog([], None)
    else match step(cmds[0], i)
      case Err(f) => ResponseLog([], Some(f))
      case Ok(line) =>
        var rest := Collect(step, cmds[1..], i + 2 * cmds[0].bytes);
        ResponseLog([line] + rest.lines, rest.fault)
  }

  function Decoder(cat: Catalog, data: string): (Command, nat) -> Result<LogLine> {
    (c: Command, i: nat) => DecodeCommand(cat, c, data, i)
  }

  function DecodeCommands(cat: Catalog, cmds: seq<Command>, data: string, i: nat): ResponseLog {
    Collect(Decoder(cat, data), cmds, i)
  }

  /** What process_data_response writes: nothing under 4 characters; a
      TypeError when the pending request is None; otherwise the commands
      decoded from character 2 on. The result is always None. */
  function ResponseSpec(cat: Catalog, request: Option<seq<Command>>, data: string): ResponseLog {
    if |data| < 4 then ResponseLog([], None)
    else match request
      case None => ResponseLog([], Some(TypeError))
      case Some(cmds) => DecodeCommands(cat, cmds, data, 2)
  }

  /** The sum of the commands' widths. */
  function Width(cmds: seq<Command>): nat {
    if cmds == [] then 0 else cmds[0].bytes + Width(cmds[1..])
  }

  lemma {:induction false} WidthSnoc(cmds: seq<Command>, c: Command)
    ensures Width(cmds + [c]) == Width(cmds) + c.bytes
  {
    if cmds != [] {
      assert (cmds + [c])[1..] == cmds[1..] + [c];
      WidthSnoc(cmds[1..], c);
    }
  }

  /** Width of a prefix, one command longer. */
  lemma WidthPrefix(cmds: seq<Command>, k: nat)
    requires 0 < |cmds| && k < |cmds|
    ensures Width(cmds[..k + 1]) == cmds[0].bytes + Width(cmds[1..][..k])
  {
    assert cmds[..k + 1][1..] == cmds[1..][..k];
  }

  /** The log stops at the first failing command: it is complete exactly when
      no command failed. */
  lemma {:induction false} CollectLength(step: (Command, nat) -> Result<LogLine>, cmds: seq<Command>, i: nat)
    ensures var log := Collect(step, cmds, i);
            |log.lines| <= |cmds| && (log.fault.None? <==> |log.lines| == |cmds|)
    decreases |cmds|
  {
    if cmds != [] {
      CollectLength(step, cmds[1..], i + 2 * cmds[0].bytes);
    }
  }

  /** The cursor advances by exactly bytes*2 per command: the k-th line is the
      k-th command's step 2*(sum of the earlier widths) past the start. */
  lemma {:induction false} CollectCursor(step: (Command, nat) -> Result<LogLine>, cmds: seq<Command>, i: nat, k: nat)
    requires k < |Collect(step, cmds, i).lines|
    ensures k < |cmds|
    ensures step(cmds[k], i + 2 * Width(cmds[..k])) == Ok(Collect(step, cmds, i).lines[k])
    decreases k
  {
    CollectLength(step, cmds, i);
    if k == 0 {
      assert cmds[..0] == [];
    } else {
      var j := i + 2 * cmds[0].bytes;
      CollectCursor(step, cmds[1..], j, k - 1);
      WidthPrefix(cmds, k - 1);
      assert cmds[1..][k - 1] == cmds[k];
    }
  }

  /** A fault is the failure of the first command that has no line, at its cursor. */
  lemma {:induction false} CollectFault(step: (Command, nat) -> Result<LogLine>, cmds: seq<Command>, i: nat)
    requires Collect(step, cmds, i).fault.Some?
    ensures var log := Collect(step, cmds, i);
            |log.lines| < |cmds| &&
            step(cmds[|log.lines|], i + 2 * Width(cmds[..|log.lines|])) == Err(log.fault.value)
    decreases |cmds|
  {
    CollectLength(step, cmds, i);
    var log := Collect(step, cmds, i);
    if step(cmds[0], i).Err? {
      assert cmds[..0] == [];
    } else {
      CollectFault(step, cmds[1..], i + 2 * cmds[0].bytes);
      var n := |log.lines| - 1;
      WidthPrefix(cmds, n);
      assert cmds[1..][n] == cmds[n + 1];
    }
  }

  /** A string of hex digit pairs with the pairs in reverse order. */
  function ReversePairs(s: string): (r: string)
    ensures |r| == |s|
    decreases |s|
  {
    if |s| < 2 then s else ReversePairs(s[2..]) + s[..2]
  }

  /** The field read at i ends with the first pair. */
  lemma {:induction false} FieldHexFront(data: string, i: nat, count: nat)
    requires count > 0
    ensures FieldHex(data, i, count) == FieldHex(data, i + 2, count - 1) + Slice(data, i, i + 2)
  {
    if count > 1 {
      FieldHexFront(data, i, count - 1);
      var last := Slice(data, i + 2 * (count - 1), i + 2 * count);
      assert last == Slice(data, i + 2 + 2 * (count - 2), i + 2 + 2 * (count - 1));
      assert last + (FieldHex(data, i + 2, count - 2) + Slice(data, i, i + 2)) ==
             (last + FieldHex(data, i + 2, count - 2)) + Slice(data, i, i + 2);
    }
  }

  /** Within the string, the field is the covered text with its pairs reversed. */
  lemma {:induction false} FieldHexReversesPairs(data: string, i: nat, count: nat)
    requires i + 2 * count <= |data|
    ensures FieldHex(data, i, count) == ReversePairs(data[i..i + 2 * count])
    decreases count
  {
    if count > 0 {
      FieldHexFront(data, i, count);
      FieldHexReversesPairs(data, i + 2, count - 1);
      CoveredParts(data, i, count);
      ReversePairsFront(data[i..i + 2 * count], FieldHex(data, i + 2, count - 1), FieldHex(data, i, count));
    } else {
      assert data[i..i] == [];
    }
  }

  /** The text a field covers: its first pair, then the text of the rest of the field. */
  lemma CoveredParts(data: string, i: nat, count: nat)
    requires count > 0 && i + 2 * count <= |data|
    ensures data[i..i + 2 * count][2..] == data[i + 2..i + 2 + 2 * (count - 1)]
    ensures data[i..i + 2 * count][..2] == Slice(data, i, i + 2)
  {
  }

  lemma ReversePairsFront(s: string, rest: string, r: string)
    requires |s| >= 2 && rest == ReversePairs(s[2..]) && r == rest + s[..2]
    ensures r == ReversePairs(s)
  {
  }

  /** Reversing the pairs turns the little-endian reading into the hex value. */
  lemma {:induction false} ReversePairsLittleEndian(s: string)
    requires IsHex(s) && |s| % 2 == 0
    ensures IsHex(ReversePairs(s)) && Unhexlify(s).Some?
    ensures HexValue(ReversePairs(s)) == LittleEndian(Unhexlify(s).value)
    decreases |s|
  {
    if s != [] {
      var p, t := s[..2], s[2..];
      assert IsHex(p) && IsHex(t);
      ReversePairsLittleEndian(t);
      HexValueAppend(ReversePairs(t), p);
      HexValueTwo(p);
      assert Pow(16, 2) == 256;
      var bs := Unhexlify(t).value;
      assert Unhexlify(s).value == [HexValue(p)] + bs;
      LittleEndianCons(HexValue(p), bs);
    }
  }

  lemma LittleEndianCons(b: byte, bs: seq<byte>)
    ensures LittleEndian([b] + bs) == b + 256 * LittleEndian(bs)
  {
    assert ([b] + bs)[1..] == bs;
  }

  /** Prepending each two-character slice makes the first received byte the
      least significant: the field's value is the little-endian reading of the
      bytes it covers. */
  lemma FieldHexLittleEndian(data: string, i: nat, count: nat)
    requires i + 2 * count <= |data| && IsHex(data[i..i + 2 * count])
    ensures IsHex(FieldHex(data, i, count)) && |FieldHex(data, i, count)| == 2 * count
    ensures Unhexlify(data[i..i + 2 * count]).Some?
    ensures HexValue(FieldHex(data, i, count)) == LittleEndian(Unhexlify(data[i..i + 2 * count]).value)
  {
    FieldHexReversesPairs(data, i, count);
    ReversePairsLittleEndian(data[i..i + 2 * count]);
  }

  /** The decoder ignores the first two characters: the 81 marker is never
      checked, so two responses that agree from character 2 on (and are both
      long enough) decode alike. */
  lemma MarkerIgnored(cat: Catalog, request: Option<seq<Command>>, a: string, b: string)
    requires |a| == |b| && |a| >= 4 && a[2..] == b[2..]
    ensures ResponseSpec(cat, request, a) == ResponseSpec(cat, request, b)
  {
    if request.Some? {
      SameTail(cat, request.value, a, b, 2);
    }
  }

  lemma {:induction false} SameTail(cat: Catalog, cmds: seq<Command>, a: string, b: string, i: nat)
    requires |a| == |b| && 2 <= i && 2 <= |a| && a[2..] == b[2..]
    ensures DecodeCommands(cat, cmds, a, i) == DecodeCommands(cat, cmds, b, i)
    decreases |cmds|
  {
    if cmds != [] {
      SameFieldHex(a, b, i, cmds[0].bytes);
      SameTail(cat, cmds[1..], a, b, i + 2 * cmds[0].bytes);
    }
  }

  lemma {:induction false} SameFieldHex(a: string, b: string, i: nat, count: nat)
    requires |a| == |b| && 2 <= i && 2 <= |a| && a[2..] == b[2..]
    ensures FieldHex(a, i, count) == FieldHex(b, i, count)
  {
    if count > 0 {
      SameFieldHex(a, b, i, count - 1);
      SameSlice(a, b, i + 2 * (count - 1), i + 2 * count);
    }
  }

  lemma SameSlice(a: string, b: string, x: nat, y: nat)
    requires |a| == |b| && 2 <= x && 2 <= |a| && a[2..] == b[2..]
    ensures Slice(a, x, y) == Slice(b, x, y)
  {
    if x < y <= |a| {
      assert a[x..y] == a[2..][x - 2..y - 2];
      assert b[x..y] == b[2..][x - 2..y - 2];
    } else if x < |a| {
      assert a[x..|a|] == a[2..][x - 2..];
      assert b[x..|b|] == b[2..][x - 2..];
    }
  }

  /** The prepending loop of process_data_response for one field. */
  method ReadField(data: string, i: nat, count: nat) returns (responseData: string)
    ensures responseData == FieldHex(data, i, count)
  {
    responseData := "";
    for y: nat := 0 to count
      invariant responseData == FieldHex(data, i, y)
    {
      var byte := Slice(data, i + y * 2, i + y * 2 + 2);
      responseData := byte + responseData;
    }
  }

  /** The body of the command loop of process_data_response. */
  method ProcessCommand(variables: Catalog, command: Command, data: string, i: nat) returns (r: Result<LogLine>)
    ensures r == DecodeCommand(variables, command, data, i)
  {
    var known := command.name != "UNKNOWN";
    if known && command.name !in variables.vars {
      return Err(KeyError(command.name));
    }
    var responseData := ReadField(data, i, command.bytes);
    var responseInt := ParseHex(responseData);
    if responseInt.None? {
      return Err(ValueError);
    }
    if known {
      var variable := variables.vars[command.name];
      var scaled := Scale(responseInt.value, variable.bytes, variable.scaleMinimum, variable.scaleMaximum);
      if scaled.None? {
        return Err(ZeroDivisionError);
      }
      r := Ok(ScaledLine(command.name, scaled.value, variable.units, variable.shortDesc, responseData, responseInt.value));
    } else {
      r := Ok(RawLine(command.name, responseData, responseInt.value));
    }
  }

  /** Appending lines in front of a log. */
  function Then(lines: seq<LogLine>, log: ResponseLog): ResponseLog {
    ResponseLog(lines + log.lines, log.fault)
  }

  /** A failing command ends the log with its fault. */
  lemma DecodeCommandsStops(cat: Catalog, cmds: seq<Command>, k: nat, data: string, i: nat, lines: seq<LogLine>, f: Fault)
    requires k < |cmds| && DecodeCommand(cat, cmds[k], data, i) == Err(f)
    ensures Then(lines, DecodeCommands(cat, cmds[k..], data, i)) == ResponseLog(lines, Some(f))
  {
    assert cmds[k..][0] == cmds[k];
    assert lines + [] == lines;
  }

  /** A decoded command adds its line and moves the cursor past its field. */
  lemma DecodeCommandsAdvances(cat: Catalog, cmds: seq<Command>, k: nat, data: string, i: nat, lines: seq<LogLine>, line: LogLine)
    requires k < |cmds| && DecodeCommand(cat, cmds[k], data, i) == Ok(line)
    ensures Then(lines, DecodeCommands(cat, cmds[k..], data, i)) ==
            Then(lines + [line], DecodeCommands(cat, cmds[k + 1..], data, i + 2 * cmds[k].bytes))
  {
    assert cmds[k..][0] == cmds[k] && cmds[k..][1..] == cmds[k + 1..];
    var rest := DecodeCommands(cat, cmds[k + 1..], data, i + 2 * cmds[k].bytes).lines;
    assert lines + ([line] + rest) == (lines + [line]) + rest;
  }

  /** process_data_response: the length check, the missing request, then
      the command loop. */
  method ProcessDataResponse(data: string, requestCommand: Option<seq<Command>>, variables: Catalog) returns (log: ResponseLog)
    ensures log == ResponseSpec(variables, requestCommand, data)
  {
    var dataLength := |data|;
    if dataLength < 4 {
      return ResponseLog([], None);
    }
    if requestCommand.None? {
      return ResponseLog([], Some(TypeError));
    }
    log := DecodeLoop(data, requestCommand.value, variables);
  }

  /** The command loop of process_data_response, with its cursor from 2. */
  method DecodeLoop(data: string, commands: seq<Command>, variables: Catalog) returns (log: ResponseLog)
    ensures log == DecodeCommands(variables, commands, data, 2)
  {
    ghost var total := DecodeCommands(variables, commands, data, 2);
    var lines: seq<LogLine> := [];
    var i: nat := 2;
    assert lines + total.lines == total.lines;
    for k := 0 to |commands|
      invariant total == Then(lines, DecodeCommands(variables, commands[k..], data, i))
    {
      var line := DecodeOne(variables, commands, k, data, i, lines, total);
      if line.Err? {
        return ResponseLog(lines, Some(line.fault));
      }
      lines := lines + [line.value];
      i := i + 2 * commands[k].bytes;
    }
    assert commands[|commands|..] == [];
    assert lines + [] == lines;
    return ResponseLog(lines, None);
  }

  /** One pass of the command loop: the k-th command at cursor i either ends
      the log with its fault or adds its line and moves the cursor. */
  method DecodeOne(variables: Catalog, commands: seq<Command>, k: nat, data: string, i: nat, lines: seq<LogLine>, ghost total: ResponseLog)
    returns (line: Result<LogLine>)
    requires k < |commands|
    requires total == Then(lines, DecodeCommands(variables, commands[k..], data, i))
    ensures line.Err? ==> total == ResponseLog(lines, Some(line.fault))
    ensures line.Ok? ==>
              total == Then(lines + [line.value], DecodeCommands(variables, commands[k + 1..], data, i + 2 * commands[k].bytes))
  {
    line := ProcessCommand(variables, commands[k], data, i);
    if line.Err? {
      DecodeCommandsStops(variables, commands, k, data, i, lines, line.fault);
    } else {
      DecodeCommandsAdvances(variables, commands, k, data, i, lines, line.value);
    }
  }

  // ------------------------------------------------------- the capture loop

  /** Which of the two tools: their `main` loops differ in labelling and display. */
  datatype Tool = Txt | Ble

  /** The command-line switches that matter to the loop. */
  datatype Options = Options(showCan: bool, showIsotp: bool, showMbe: bool, queryId: string, responseId: string)

  /** What the loop reads from one captured packet: whether it has CAN and
      ISO-TP layers, the CAN id, the hex payload, the ISO-TP message type, and
      the fragment count when the packet carries one. */
  datatype Packet = Packet(hasCan: bool, hasIsotp: bool, canId: string, data: string, messageType: int, fragmentCount: Option<int>)

  /** REQUEST / OTHER_REQUEST / RESPONSE / OTHER_RESPONSE / UNKNOWN_MBE_MESSAGE */
  datatype Kind = RequestKind | OtherRequestKind | ResponseKind | OtherResponseKind | UnknownKind

  datatype IsotpInfo = IsotpInfo(messageType: int, fragmentCount: int, kind: Kind)

  /** A displayed frame line, or a line of the response decoder. */
  datatype Event =
    | Shown(frame: nat, canId: Option<string>, isotp: Option<IsotpInfo>, data: string)
    | Logged(line: LogLine)

  /** pending_data_request_command: unbound until the first data request. */
  datatype Pending = Unbound | Bound(request: Option<seq<Command>>)

  datatype CaptureLog = CaptureLog(events: seq<Event>, fault: Option<Fault>)

  /** int(fragment_count), or 0 where the packet has none. */
  function FragmentCount(p: Packet): int {
    match p.fragmentCount
    case Some(n) => n
    case None => 0
  }

  /** A single frame, or the frame that completes a multi-frame message. */
  predicate Complete(p: Packet) {
    p.messageType == 0 || FragmentCount(p) > 0
  }

  /** mbepcap2txt labels by the first two characters alone. */
  function TxtKind(data: string): Kind {
    var c := Slice(data, 0, 2);
    if c == "01" then RequestKind
    else if c == "04" then OtherRequestKind
    else if c == "81" then ResponseKind
    else if c == "e4" then OtherResponseKind
    else UnknownKind
  }

  /** mbepcap2ble labels by CAN id first: the query id knows 01 and 04, the
      response id knows 81 and e4. */
  function BleKind(opts: Options, p: Packet): Kind {
    var c := Slice(p.data, 0, 2);
    if p.canId == opts.queryId then
      if c == "01" then RequestKind else if c == "04" then OtherRequestKind else UnknownKind
    else
      if c == "81" then ResponseKind else if c == "e4" then OtherResponseKind else UnknownKind
  }

  /** The ISO-TP part is shown with --isotp; mbepcap2txt guards it with
      `fragment_count != None`, which always holds, mbepcap2ble with a
      complete frame. */
  predicate IsotpShown(tool: Tool, opts: Options, p: Packet) {
    opts.showIsotp && (tool.Txt? || Complete(p))
  }

  function Display(tool: Tool, opts: Options, p: Packet, frame: nat): Option<Event> {
    var isotp :=
      if IsotpShown(tool, opts, p)
      then Some(IsotpInfo(p.messageType, FragmentCount(p), if tool.Txt? then TxtKind(p.data) else BleKind(opts, p)))
      else None;
    if opts.showCan || isotp.Some?
    then Some(Shown(frame, if opts.showCan then Some(p.canId) else None, isotp, p.data))
    else None
  }

  /** The packet is a data request the loop acts on. */
  predicate IsDataRequest(opts: Options, p: Packet) {
    && p.hasCan && p.hasIsotp && opts.showMbe
    && p.canId == opts.queryId && Complete(p) && Slice(p.data, 0, 2) == "01"
  }

  /** What a data request leaves in pending_data_request_command. */
  function PendingOf(mapping: ReverseMap, p: Packet): Pending {
    match RequestSpec(p.data, mapping)
    case Structure(cs) => Bound(Some(cs))
    case _ => Bound(None)
  }

  function Lines(lines: seq<LogLine>): (r: seq<Event>)
    ensures |r| == |lines| && forall k | 0 <= k < |lines| :: r[k] == Logged(lines[k])
  {
    if lines == [] then [] else [Logged(lines[0])] + Lines(lines[1..])
  }

  datatype StepResult = StepResult(events: seq<Event>, pending: Pending, fault: Option<Fault>)

  /** One pass of the loop body for the packet shown as number `frame`. */
  function Step(tool: Tool, opts: Options, mapping: ReverseMap, cat: Catalog, pending: Pending, p: Packet, frame: nat): StepResult {
    if !(p.hasCan && p.hasIsotp) || (p.canId != opts.queryId && p.canId != opts.responseId) then
      StepResult([], pending, None)
    else
      var shown := match Display(tool, opts, p, frame) case Some(e) => [e] case None => [];
      var command := Slice(p.data, 0, 2);
      if !opts.showMbe || !Complete(p) then StepResult(shown, pending, None)
      else if p.canId == opts.queryId then
        if command != "01" then StepResult(shown, pending, None)
        else if RequestSpec(p.data, mapping).Hangs? then StepResult(shown, pending, Some(NeverEnds))
        else StepResult(shown, PendingOf(mapping, p), None)
      else if command != "81" then StepResult(shown, pending, None)
      else match pending
        case Unbound => StepResult(shown, pending, Some(NameError))
        case Bound(request) =>
          var log := ResponseSpec(cat, request, p.data);
          StepResult(shown + Lines(log.lines), pending, log.fault)
  }

  /** The loop from packet k on. The counter i is 1-based and the line shows
      i+1, so packet k is shown as number k+2. */
  function RunFrom(tool: Tool, opts: Options, mapping: ReverseMap, cat: Catalog, packets: seq<Packet>, k: nat, pending: Pending): CaptureLog
    decreases |packets| - k
  {
    if k >= |packets| then CaptureLog([], None)
    else
      var s := Step(tool, opts, mapping, cat, pending, packets[k], k + 2);
      if s.fault.Some? then CaptureLog(s.events, s.fault)
      else
        var rest := RunFrom(tool, opts, mapping, cat, packets, k + 1, s.pending);
        CaptureLog(s.events + rest.events, rest.fault)
  }

  /** pending_data_request_command after the first k packets. */
  function PendingAt(opts: Options, mapping: ReverseMap, packets: seq<Packet>, k: nat): Pending
    requires k <= |packets|
  {
    if k == 0 then Unbound
    else if IsDataRequest(opts, packets[k - 1]) then PendingOf(mapping, packets[k - 1])
    else PendingAt(opts, mapping, packets, k - 1)
  }

  /** The loop body changes the pending request exactly on a data request. */
  lemma StepPending(tool: Tool, opts: Options, mapping: ReverseMap, cat: Catalog, packets: seq<Packet>, k: nat)
    requires k < |packets|
    ensures var s := Step(tool, opts, mapping, cat, PendingAt(opts, mapping, packets, k), packets[k], k + 2);
            s.fault.None? ==> s.pending == PendingAt(opts, mapping, packets, k + 1)
  {
  }

  /** A response is decoded against the most recent data request: the
      pending request after k packets is unbound exactly when none of them was
      a data request, and otherwise is the one the latest of them left. */
  lemma {:induction false} PendingIsLatestRequest(opts: Options, mapping: ReverseMap, packets: seq<Packet>, k: nat)
    requires k <= |packets|
    ensures PendingAt(opts, mapping, packets, k).Unbound? <==>
              forall j | 0 <= j < k :: !IsDataRequest(opts, packets[j])
    ensures forall j | 0 <= j < k && IsDataRequest(opts, packets[j]) &&
                       (forall l | j < l < k :: !IsDataRequest(opts, packets[l])) ::
              PendingAt(opts, mapping, packets, k) == PendingOf(mapping, packets[j])
  {
    PendingUnbound(opts, mapping, packets, k);
    forall j | 0 <= j < k && IsDataRequest(opts, packets[j]) && (forall l | j < l < k :: !IsDataRequest(opts, packets[l]))
      ensures PendingAt(opts, mapping, packets, k) == PendingOf(mapping, packets[j])
    {
      PendingLatest(opts, mapping, packets, k, j);
    }
  }

  lemma {:induction false} PendingUnbound(opts: Options, mapping: ReverseMap, packets: seq<Packet>, k: nat)
    requires k <= |packets|
    ensures PendingAt(opts, mapping, packets, k).Unbound? <==>
              forall j | 0 <= j < k :: !IsDataRequest(opts, packets[j])
  {
    if k > 0 {
      PendingUnbound(opts, mapping, packets, k - 1);
      if IsDataRequest(opts, packets[k - 1]) {
        assert PendingAt(opts, mapping, packets, k) == PendingOf(mapping, packets[k - 1]);
      }
    }
  }

  lemma {:induction false} PendingLatest(opts: Options, mapping: ReverseMap, packets: seq<Packet>, k: nat, j: nat)
    requires j < k <= |packets| && IsDataRequest(opts, packets[j])
    requires forall l | j < l < k :: !IsDataRequest(opts, packets[l])
    ensures PendingAt(opts, mapping, packets, k) == PendingOf(mapping, packets[j])
    decreases k
  {
    if j < k - 1 {
      assert !IsDataRequest(opts, packets[k - 1]);
      PendingLatest(opts, mapping, packets, k - 1, j);
    }
  }

  /** A data response that arrives before any data request stops the loop
      with NameError (pending_data_request_command is unbound). */
  lemma ResponseBeforeRequest(tool: Tool, opts: Options, mapping: ReverseMap, cat: Catalog, p: Packet, frame: nat)
    requires p.hasCan && p.hasIsotp && opts.showMbe && p.canId != opts.queryId && p.canId == opts.responseId
    requires Complete(p) && Slice(p.data, 0, 2) == "81"
    ensures Step(tool, opts, mapping, cat, Unbound, p, frame).fault == Some(NameError)
  {
  }

  /** mbepcap2txt shows the ISO-TP part of every packet that passes the id
      filter whenever --isotp is given; mbepcap2ble only for complete frames. */
  lemma DisplayGuards(opts: Options, p: Packet, frame: nat)
    requires opts.showIsotp
    ensures Display(Txt, opts, p, frame).Some?
    ensures Display(Ble, opts, p, frame).Some? <==> opts.showCan || Complete(p)
  {
  }

  /** The two tools' labels agree on frames whose first two characters fit
      the CAN id they arrive on, and differ on the rest: mbepcap2ble calls an
      81 on the query id UNKNOWN. */
  lemma KindsAgreeOnMatchingIds(opts: Options, p: Packet)
    requires p.canId == opts.queryId || p.canId == opts.responseId
    ensures var c := Slice(p.data, 0, 2);
            (p.canId == opts.queryId && (c == "01" || c == "04")) ||
            (p.canId != opts.queryId && (c == "81" || c == "e4"))
            ==> TxtKind(p.data) == BleKind(opts, p)
    ensures p.canId == opts.queryId && Slice(p.data, 0, 2) == "81" ==>
              TxtKind(p.data) == ResponseKind && BleKind(opts, p) == UnknownKind
  {
  }

  /** The body of main's packet loop for one packet. */
  method HandlePacket(tool: Tool, opts: Options, mappings: ReverseMap, variables: Catalog, pending: Pending, pkt: Packet, frame: nat)
    returns (s: StepResult)
    ensures s == Step(tool, opts, mappings, variables, pending, pkt, frame)
  {
    if !(pkt.hasCan && pkt.hasIsotp) || (pkt.canId != opts.queryId && pkt.canId != opts.responseId) {
      return StepResult([], pending, None);
    }
    var shown: seq<Event> := [];
    var shownEvent := Display(tool, opts, pkt, frame);
    if shownEvent.Some? {
      shown := [shownEvent.value];
    }
    var command := Slice(pkt.data, 0, 2);
    s := StepResult(shown, pending, None);
    if opts.showMbe && Complete(pkt) {
      if pkt.canId == opts.queryId {
        if command == "01" {
          var structure := ProcessDataRequestCommand(pkt.data, mappings);
          if structure.Hangs? {
            s := StepResult(shown, pending, Some(NeverEnds));
          } else if structure.Structure? {
            s := StepResult(shown, Bound(Some(structure.commands)), None);
          } else {
            s := StepResult(shown, Bound(None), None);
          }
        }
      } else if command == "81" {
        if pending.Unbound? {
          s := StepResult(shown, pending, Some(NameError));
        } else {
          var response := ProcessDataResponse(pkt.data, pending.request, variables);
          s := StepResult(shown + Lines(response.lines), pending, response.fault);
        }
      }
    }
  }

  /** One packet of the run: a fault stops it, otherwise the run goes on
      from the next packet with the new pending request. */
  lemma RunFromStep(tool: Tool, opts: Options, mapping: ReverseMap, cat: Catalog, packets: seq<Packet>, k: nat, pending: Pending,
                    events: seq<Event>, s: StepResult)
    requires k < |packets| && s == Step(tool, opts, mapping, cat, pending, packets[k], k + 2)
    ensures var run := RunFrom(tool, opts, mapping, cat, packets, k, pending);
            var rest := RunFrom(tool, opts, mapping, cat, packets, k + 1, s.pending);
            && (s.fault.Some? ==> CaptureLog(events + run.events, run.fault) == CaptureLog(events + s.events, s.fault))
            && (s.fault.None? ==> CaptureLog(events + run.events, run.fault) ==
                                  CaptureLog((events + s.events) + rest.events, rest.fault))
  {
    var rest := RunFrom(tool, opts, mapping, cat, packets, k + 1, s.pending);
    assert events + (s.events + rest.events) == (events + s.events) + rest.events;
  }

  /** main: the packet loop, with the page reverse map built first. */
  method DecodeCapture(tool: Tool, opts: Options, variables: Catalog, packets: seq<Packet>) returns (log: CaptureLog)
    requires variables.Valid()
    ensures log == RunFrom(tool, opts, MappingOf(variables, |variables.keys|), variables, packets, 0, Unbound)
  {
    var mappings := CreatePageReverseMapping(variables);
    var events: seq<Event> := [];
    var pending := Unbound;
    var i := 0;
    for k := 0 to |packets|
      invariant i == k
      invariant pending == PendingAt(opts, mappings, packets, k)
      invariant RunFrom(tool, opts, mappings, variables, packets, 0, Unbound) ==
                CaptureLog(events + RunFrom(tool, opts, mappings, variables, packets, k, pending).events,
                           RunFrom(tool, opts, mappings, variables, packets, k, pending).fault)
    {
      i := i + 1;
      StepPending(tool, opts, mappings, variables, packets, k);
      var s := HandlePacket(tool, opts, mappings, variables, pending, packets[k], i + 1);
      RunFromStep(tool, opts, mappings, variables, packets, k, pending, events, s);
      if s.fault.Some? {
        return CaptureLog(events + s.events, s.fault);
      }
      events := events + s.events;
      pending := s.pending;
    }
    assert events + [] == events;
    return CaptureLog(events, None);
  }
}
