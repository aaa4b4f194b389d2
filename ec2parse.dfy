/** tools/ec2parse.py: the EC2 definition-file converter. The file's lines are
    scanned twice for section markers, then three sections are read record by
    record (PARAMETER DEFINITIONS, NUMERIC SCALES, PARAMETER PROTOTYPES), and
    the numeric variables are exported. The script's module-level loops are
    methods here, each proved equal to a fold of one line step. */
module Ec2Parse {
  import opened Util

  // ------------------------------------------------------- the patterns

  /** \s on ASCII text: space, tab, line feed, carriage return, vertical tab,
      form feed, and the separators 0x1c to 0x1f. */
  predicate IsSpace(c: char) {
    c == ' ' || c == '\t' || c == '\n' || c == '\r' || c as int == 11 || c as int == 12 || 0x1c <= c as int <= 0x1f
  }

  /** \w on ASCII text. */
  predicate IsWord(c: char) {
    'a' <= c <= 'z' || 'A' <= c <= 'Z' || '0' <= c <= '9' || c == '_'
  }

  /** The character classes the script's patterns repeat with `*`. */
  datatype CharClass =
    | NotClose     // [^\]]
    | NotEquals    // [^\=]
    | WordSpace    // [\w\s]
    | SectionName  // [\w\s\(\)_]
    | ScaleValue   // [\w\s\-\.]

  predicate InClass(cls: CharClass, c: char) {
    match cls
    case NotClose => c != ']'
    case NotEquals => c != '='
    case WordSpace => IsWord(c) || IsSpace(c)
    case SectionName => IsWord(c) || IsSpace(c) || c == '(' || c == ')' || c == '_'
    case ScaleValue => IsWord(c) || IsSpace(c) || c == '-' || c == '.'
  }

  /** Where the longest run of cls starting at k ends. */
  function RunEnd(s: string, k: nat, cls: CharClass): (r: nat)
    requires k <= |s|
    ensures k <= r <= |s|
    ensures forall j | k <= j < r :: InClass(cls, s[j])
    ensures r == |s| || !InClass(cls, s[r])
    decreases |s| - k
  {
    if k == |s| || !InClass(cls, s[k]) then k else RunEnd(s, k + 1, cls)
  }

  /** `\[end\s([^\]]*)\]` matched at p: the name runs to the first ']'. */
  function EndAt(line: string, p: nat): Option<string> {
    if p + 5 <= |line| && line[p..p + 4] == "[end" && IsSpace(line[p + 4]) then
      var q := RunEnd(line, p + 5, NotClose);
      if q < |line| then Some(line[p + 5..q]) else None
    else None
  }

  /** re.search of `\[end\s([^\]]*)\]`: the leftmost position that matches. */
  function SearchEnd(line: string, p: nat): Option<string>
    decreases |line| - p
  {
    if p >= |line| then None
    else match EndAt(line, p)
      case Some(name) => Some(name)
      case None => SearchEnd(line, p + 1)
  }

  function EndMarker(line: string): Option<string> {
    SearchEnd(line, 0)
  }

  /** `\[([\w\s\(\)_]*)\]` matched at p. The class excludes ']', so the greedy
      run must end exactly at the closing bracket. */
  function OpenAt(line: string, p: nat): Option<string> {
    if p < |line| && line[p] == '[' then
      var q := RunEnd(line, p + 1, SectionName);
      if q < |line| && line[q] == ']' then Some(line[p + 1..q]) else None
    else None
  }

  /** re.search of `\[([\w\s\(\)_]*)\]`. */
  function SearchOpen(line: string, p: nat): Option<string>
    decreases |line| - p
  {
    if p >= |line| then None
    else match OpenAt(line, p)
      case Some(name) => Some(name)
      case None => SearchOpen(line, p + 1)
  }

  function SectionMarker(line: string): Option<string> {
    SearchOpen(line, 0)
  }

  /** re.match of `\[([^\]]*)\]`: a record header at the start of the line. */
  function Header(line: string): Option<string> {
    if 0 < |line| && line[0] == '[' then
      var q := RunEnd(line, 1, NotClose);
      if q < |line| then Some(line[1..q]) else None
    else None
  }

  /** re.match of `([\w\s]*) = (V*)` for the value class V. The key class holds
      ' ' but not '=', so the greedy run of [\w\s] from the start must end at
      the '=' and its last character must be the space before it: the key is
      the run without that space, and the value the run of V after " = ". */
  function KeyValue(line: string, valueClass: CharClass): Option<(string, string)> {
    var e := RunEnd(line, 0, WordSpace);
    if 1 <= e && line[e - 1] == ' ' && e + 1 < |line| && line[e] == '=' && line[e + 1] == ' ' then
      var v := RunEnd(line, e + 2, valueClass);
      Some((line[..e - 1], line[e + 2..v]))
    else None
  }

  predicate AllIn(s: string, cls: CharClass) {
    forall j | 0 <= j < |s| :: InClass(cls, s[j])
  }

  /** Any line of the form key + " = " + value + rest, with the key made of
      [\w\s], the value of the value class and the rest not continuing it, is
      read back as exactly that key and value. */
  lemma KeyValueReadsBack(key: string, value: string, rest: string, valueClass: CharClass)
    requires AllIn(key, WordSpace) && AllIn(value, valueClass) && !InClass(valueClass, '=')
    requires rest == [] || !InClass(valueClass, rest[0])
    ensures KeyValue(key + " = " + value + rest, valueClass) == Some((key, value))
  {
    var line := key + " = " + value + rest;
    var k, v := |key|, |key| + 3 + |value|;
    KeyValueLayout(key, value, rest);
    forall j | 0 <= j < k + 1 ensures InClass(WordSpace, line[j]) {
      if j < k {
        assert line[j] == key[j];
      }
    }
    forall j | k + 3 <= j < v ensures InClass(valueClass, line[j]) {
      assert line[j] == value[j - (k + 3)];
    }
    KeyValueAt(line, k, v, valueClass);
  }

  /** A line whose first k characters and the space after them are in
      [\w\s], followed by "= " and a run of the value class ending at v,
      reads as key line[..k] and value line[k+3..v]. */
  lemma KeyValueAt(line: string, k: nat, v: nat, valueClass: CharClass)
    requires k + 3 <= v <= |line| && line[k..k + 3] == " = "
    requires forall j | 0 <= j < k + 1 :: InClass(WordSpace, line[j])
    requires forall j | k + 3 <= j < v :: InClass(valueClass, line[j])
    requires v == |line| || !InClass(valueClass, line[v])
    ensures KeyValue(line, valueClass) == Some((line[..k], line[k + 3..v]))
  {
    assert line[k + 1] == '=' && line[k + 2] == ' ';
    RunEndAt(line, 0, k + 1, WordSpace);
    RunEndAt(line, k + 3, v, valueClass);
  }

  /** Where the pieces of key + " = " + value + rest sit. */
  lemma KeyValueLayout(key: string, value: string, rest: string)
    ensures var line := key + " = " + value + rest;
            var k := |key|;
            && |line| == k + 3 + |value| + |rest|
            && line[..k] == key && line[k..k + 3] == " = "
            && line[k + 3..k + 3 + |value|] == value
            && (forall j | 0 <= j < k :: line[j] == key[j])
            && (forall j | k + 3 <= j < k + 3 + |value| :: line[j] == value[j - (k + 3)])
            && (rest != [] ==> line[k + 3 + |value|] == rest[0])
  {
  }

  /** A run that is in the class up to r and stops there ends at r. */
  lemma {:induction false} RunEndAt(s: string, k: nat, r: nat, cls: CharClass)
    requires k <= r <= |s|
    requires forall j | k <= j < r :: InClass(cls, s[j])
    requires r == |s| || !InClass(cls, s[r])
    ensures RunEnd(s, k, cls) == r
    decreases r - k
  {
    if k < r {
      RunEndAt(s, k + 1, r, cls);
    }
  }

  /** A line starting "[end" + whitespace + name + "]" registers that name. */
  lemma EndMarkerReadsBack(space: char, name: string, rest: string)
    requires IsSpace(space) && ']' !in name
    ensures EndMarker("[end" + [space] + name + "]" + rest) == Some(name)
  {
    var line := "[end" + [space] + name + "]" + rest;
    assert line[..4] == "[end" && line[4] == space;
    RunEndAt(line, 5, 5 + |name|, NotClose);
    assert line[5..5 + |name|] == name;
  }

  /** A line starting "[" + name + "]" opens the record of that name. */
  lemma HeaderReadsBack(name: string, rest: string)
    requires ']' !in name
    ensures Header("[" + name + "]" + rest) == Some(name)
  {
    var line := "[" + name + "]" + rest;
    RunEndAt(line, 1, 1 + |name|, NotClose);
    assert line[1..1 + |name|] == name;
  }

  // ------------------------------------------------------- sections

  /** section_names[X]: the line of "[end X]" and, once found, of "[X]". */
  datatype Section = Section(end: nat, start: Option<nat>)

  type Sections = map<string, Section>

  /** The first loop over the first n lines: each end marker (re)registers its
      name with a fresh {"end": i}. */
  function EndPass(lines: seq<string>, n: nat): Sections
    requires n <= |lines|
  {
    if n == 0 then map[]
    else
      var s := EndPass(lines, n - 1);
      match EndMarker(lines[n - 1])
      case Some(name) => s[name := Section(n - 1, None)]
      case None => s
  }

  /** The second loop: a section marker sets 'start' of a registered name. */
  function StartPass(lines: seq<string>, n: nat, ends: Sections): Sections
    requires n <= |lines|
  {
    if n == 0 then ends
    else
      var s := StartPass(lines, n - 1, ends);
      match SectionMarker(lines[n - 1])
      case Some(name) => if name in s then s[name := s[name].(start := Some(n - 1))] else s
      case None => s
  }

  /** Every "[end X]" line registers X, and a later one overwrites an earlier
      one: X is registered exactly when some line ends it, and its end is the
      last such line. */
  lemma {:induction false} EndPassRegisters(lines: seq<string>, n: nat, name: string)
    requires n <= |lines|
    ensures name in EndPass(lines, n) <==> exists i | 0 <= i < n :: EndMarker(lines[i]) == Some(name)
    ensures name in EndPass(lines, n) ==>
              var e := EndPass(lines, n)[name].end;
              && e < n && EndMarker(lines[e]) == Some(name)
              && EndPass(lines, n)[name].start.None?
              && forall j | e < j < n :: EndMarker(lines[j]) != Some(name)
  {
    if n > 0 {
      EndPassRegisters(lines, n - 1, name);
    }
  }

  /** A "[X]" line records a start only for a registered X, and the last such
      line wins; the names and their ends are those of the first loop. */
  lemma {:induction false} StartPassRecords(lines: seq<string>, n: nat, ends: Sections, name: string)
    requires n <= |lines|
    requires forall s | s in ends :: ends[s].start.None?
    ensures StartPass(lines, n, ends).Keys == ends.Keys
    ensures name in ends ==> StartPass(lines, n, ends)[name].end == ends[name].end
    ensures name in ends ==>
              (StartPass(lines, n, ends)[name].start.None? <==>
               forall i | 0 <= i < n :: SectionMarker(lines[i]) != Some(name))
    ensures name in ends && (exists i | 0 <= i < n :: SectionMarker(lines[i]) == Some(name)) ==>
              var s := StartPass(lines, n, ends)[name].start;
              && s.Some? && s.value < n && SectionMarker(lines[s.value]) == Some(name)
              && forall j | s.value < j < n :: SectionMarker(lines[j]) != Some(name)
  {
    if n > 0 {
      StartPassRecords(lines, n - 1, ends, name);
    }
  }

  /** The two loops over the whole file. */
  function SectionsOf(lines: seq<string>): Sections {
    StartPass(lines, |lines|, EndPass(lines, |lines|))
  }

  method FindSections(lines: seq<string>) returns (sectionNames: Sections)
    ensures sectionNames == SectionsOf(lines)
  {
    sectionNames := map[];
    for i := 0 to |lines|
      invariant sectionNames == EndPass(lines, i)
    {
      var m := EndMarker(lines[i]);
      if m.Some? {
        sectionNames := sectionNames[m.value := Section(i, None)];
      }
    }
    ghost var ends := sectionNames;
    for i := 0 to |lines|
      invariant sectionNames == StartPass(lines, i, ends)
    {
      var m := SectionMarker(lines[i]);
      if m.Some? && m.value in sectionNames {
        sectionNames := sectionNames[m.value := sectionNames[m.value].(start := Some(i))];
      }
    }
  }

  /** range(section_names[X]['start'] + 1, section_names[X]['end']), or the
      KeyError of the missing name or of a missing 'start'. */
  datatype Span = Span(lo: nat, hi: nat)

  function SpanOf(sections: Sections, name: string): Result<Span> {
    if name !in sections then Err(KeyError(name))
    else match sections[name].start
      case None => Err(KeyError("start"))
      case Some(s) => Ok(Span(s + 1, sections[name].end))
  }

  // ------------------------------------------------------- records

  /** One record: field name to text. */
  type Record = map<string, string>

  /** A dict of records: its keys in insertion order, and the records. */
  datatype Table = Table(keys: seq<string>, recs: map<string, Record>) {
    ghost predicate Valid() {
      && (forall i, j | 0 <= i < j < |keys| :: keys[i] != keys[j])
      && (forall k :: k in recs <==> k in keys)
    }
  }

  const EmptyTable := Table([], map[])

  /** table[name] = r: a new name goes to the end, an existing one keeps its place. */
  function Put(t: Table, name: string, r: Record): (u: Table)
    ensures u.recs == t.recs[name := r]
    ensures t.Valid() ==> u.Valid()
    ensures name in t.recs ==> u.keys == t.keys
  {
    Table(if name in t.recs then t.keys else t.keys + [name], t.recs[name := r])
  }

  /** variable_param_mapping */
  const ParamFields: map<string, string> := map[
    "Number of Dimensions" := "dimensions",
    "Page" := "page",
    "Address" := "address",
    "Bytes per Cell" := "bytes",
    "0" := "scale0",
    "1" := "scale1",
    "2" := "scale2",
    "Precision" := "precision",
    "Signed" := "signed",
    "Variant Title" := "variant_title",
    "Sector" := "sector",
    "Main" := "main",
    "Trim" := "trim",
    "Data Class" := "class",
    "Parameter 1" := "parameter1",
    "Parameter 2" := "parameter2",
    "Index 1" := "index1",
    "Index 2" := "index2",
    "Dummy Variable" := "dummy",
    "Proteaus" := "proteaus",
    "Proteaus Colour" := "proteaus_colour"]

  /** scale_param_mapping */
  const ScaleFields: map<string, string> := map[
    "Scale Minimum" := "scale_minimum",
    "Scale Maximum" := "scale_maximum",
    "Scale Interval" := "scale_interval",
    "Scale Points" := "scale_points",
    "Display Minimum" := "display_minimum",
    "Display Maximum" := "display_maximum",
    "Display Interval" := "display_interval",
    "Display Points" := "display_points",
    "Precision" := "precision",
    "Units" := "units"]

  /** The two record sections share one loop shape; they differ in the
      field table, in the value pattern, and in whether a new record starts
      with its name. */
  datatype Pass = Definitions | Scales

  function Fields(pass: Pass): map<string, string> {
    match pass
    case Definitions => ParamFields
    case Scales => ScaleFields
  }

  function ValueClass(pass: Pass): CharClass {
    match pass
    case Definitions => NotEquals
    case Scales => ScaleValue
  }

  function Fresh(pass: Pass, name: string): Record {
    match pass
    case Definitions => map["name" := name]
    case Scales => map[]
  }

  /** The records so far and the name of the current one (initially ''). */
  datatype Cursor = Cursor(table: Table, current: string)

  const Start := Cursor(EmptyTable, "")

  /** One line of a record section. A header opens a fresh record and makes it
      current; a Key = Value line stores the stripped value under the
      translated key, raising KeyError for a missing current record first and
      then for a key outside the table; any other line is skipped. */
  function RecordStep(pass: Pass, c: Cursor, line: string): Result<Cursor> {
    match Header(line)
    case Some(name) => Ok(Cursor(Put(c.table, name, Fresh(pass, name)), name))
    case None =>
      match KeyValue(line, ValueClass(pass))
      case None => Ok(c)
      case Some((key, value)) =>
        if c.current !in c.table.recs then Err(KeyError(c.current))
        else if key !in Fields(pass) then Err(KeyError(key))
        else Ok(Cursor(Put(c.table, c.current, c.table.recs[c.current][Fields(pass)[key] := Strip(value, {'\n'})]), c.current))
  }

  /** The loop over lines i..hi-1. Section bounds are line numbers, so the
      second test never stops it early. */
  function RecordsFrom(pass: Pass, lines: seq<string>, i: nat, hi: nat, c: Cursor): Result<Cursor>
    decreases hi - i
  {
    if i >= hi || i >= |lines| then Ok(c)
    else match RecordStep(pass, c, lines[i])
      case Err(f) => Err(f)
      case Ok(next) => RecordsFrom(pass, lines, i + 1, hi, next)
  }

  /** The record loop of one section: the current record's fields are updated
      in place, a header replaces or appends a record. */
  method ReadRecords(pass: Pass, lines: seq<string>, span: Span) returns (r: Result<Cursor>)
    ensures r == RecordsFrom(pass, lines, span.lo, span.hi, Start)
  {
    var table := EmptyTable;
    var current := "";
    var i := span.lo;
    while i < span.hi && i < |lines|
      invariant RecordsFrom(pass, lines, span.lo, span.hi, Start) == RecordsFrom(pass, lines, i, span.hi, Cursor(table, current))
      decreases span.hi - i
    {
      var next := ReadLine(pass, table, current, lines[i]);
      if next.Err? {
        return Err(next.fault);
      }
      table, current := next.value.table, next.value.current;
      i := i + 1;
    }
    return Ok(Cursor(table, current));
  }

  /** The body of the record loop for one line. */
  method ReadLine(pass: Pass, table: Table, current: string, line: string) returns (r: Result<Cursor>)
    ensures r == RecordStep(pass, Cursor(table, current), line)
  {
    var m := Header(line);
    if m.Some? {
      return Ok(Cursor(Put(table, m.value, Fresh(pass, m.value)), m.value));
    }
    var kv := KeyValue(line, ValueClass(pass));
    if kv.Some? {
      var (key, value) := kv.value;
      if current !in table.recs {
        return Err(KeyError(current));
      }
      if key !in Fields(pass) {
        return Err(KeyError(key));
      }
      return Ok(Cursor(Put(table, current, table.recs[current][Fields(pass)[key] := Strip(value, {'\n'})]), current));
    }
    return Ok(Cursor(table, current));
  }

  /** What one line does. A header opens a fresh record under its name and
      makes it current. A Key = Value line changes one field of the current
      record and nothing else, or raises KeyError for a missing current
      record and then for a key outside the table. Other lines change nothing. */
  lemma RecordLineEffect(pass: Pass, c: Cursor, line: string)
    ensures Header(line).Some? ==>
              && RecordStep(pass, c, line).Ok?
              && RecordStep(pass, c, line).value.current == Header(line).value
              && RecordStep(pass, c, line).value.table.recs == c.table.recs[Header(line).value := Fresh(pass, Header(line).value)]
    ensures Header(line).None? && KeyValue(line, ValueClass(pass)).None? ==> RecordStep(pass, c, line) == Ok(c)
    ensures Header(line).None? && KeyValue(line, ValueClass(pass)).Some? ==>
              var key := KeyValue(line, ValueClass(pass)).value.0;
              var value := KeyValue(line, ValueClass(pass)).value.1;
              && (c.current !in c.table.recs ==> RecordStep(pass, c, line) == Err(KeyError(c.current)))
              && (c.current in c.table.recs && key !in Fields(pass) ==> RecordStep(pass, c, line) == Err(KeyError(key)))
              && (c.current in c.table.recs && key in Fields(pass) ==>
                    && RecordStep(pass, c, line).Ok?
                    && RecordStep(pass, c, line).value.current == c.current
                    && RecordStep(pass, c, line).value.table.keys == c.table.keys
                    && RecordStep(pass, c, line).value.table.recs ==
                       c.table.recs[c.current := c.table.recs[c.current][Fields(pass)[key] := Strip(value, {'\n'})]])
  {
  }

  /** A Key = Value line before the first header raises KeyError(''): the
      current record name starts empty. */
  lemma ValueBeforeHeader(pass: Pass, line: string)
    requires Header(line).None? && KeyValue(line, ValueClass(pass)).Some?
    ensures RecordStep(pass, Start, line) == Err(KeyError(""))
  {
  }

  /** Every field a record holds is its name field (definitions only) or a
      translation from the pass's table. */
  ghost predicate FieldsKnown(pass: Pass, t: Table) {
    forall n, f | n in t.recs && f in t.recs[n] ::
      (pass == Definitions && f == "name") || f in Fields(pass).Values
  }

  /** Each definitions record carries its own name under 'name'. */
  ghost predicate Named(t: Table) {
    forall n | n in t.recs :: "name" in t.recs[n] && t.recs[n]["name"] == n
  }

  lemma NameNotAField()
    ensures "name" !in ParamFields.Values && "name" !in ScaleFields.Values
  {
    assert forall k | k in ParamFields :: ParamFields[k] != "name";
    assert forall k | k in ScaleFields :: ScaleFields[k] != "name";
  }

  /** One line keeps the table well formed, every field known, and (for the
      definitions) every record named after its key; numeric scales never
      get a 'name' field. */
  lemma RecordStepInvariant(pass: Pass, c: Cursor, line: string)
    requires c.table.Valid() && FieldsKnown(pass, c.table) && (pass == Definitions ==> Named(c.table))
    ensures RecordStep(pass, c, line).Ok? ==>
              var t := RecordStep(pass, c, line).value.table;
              t.Valid() && FieldsKnown(pass, t) && (pass == Definitions ==> Named(t))
  {
    match Header(line)
    case Some(name) =>
      PutKeepsInvariant(pass, c.table, name, Fresh(pass, name));
    case None =>
      match KeyValue(line, ValueClass(pass))
      case None =>
      case Some((key, value)) =>
        if c.current in c.table.recs && key in Fields(pass) {
          NameNotAField();
          var r := c.table.recs[c.current];
          assert forall f | f in r[Fields(pass)[key] := Strip(value, {'\n'})] :: f in r || f in Fields(pass).Values;
          PutKeepsInvariant(pass, c.table, c.current, r[Fields(pass)[key] := Strip(value, {'\n'})]);
        }
  }

  /** Storing a record whose fields are known (and, for the definitions,
      whose 'name' is its key) keeps the table's invariant. */
  lemma PutKeepsInvariant(pass: Pass, t: Table, name: string, r: Record)
    requires t.Valid() && FieldsKnown(pass, t) && (pass == Definitions ==> Named(t))
    requires forall f | f in r :: (pass == Definitions && f == "name") || f in Fields(pass).Values
    requires pass == Definitions ==> "name" in r && r["name"] == name
    ensures var u := Put(t, name, r);
            u.Valid() && FieldsKnown(pass, u) && (pass == Definitions ==> Named(u))
  {
  }

  /** The same for the whole loop: in the definitions every record's 'name'
      is its key. */
  lemma {:induction false} RecordsInvariant(pass: Pass, lines: seq<string>, i: nat, hi: nat, c: Cursor)
    requires c.table.Valid() && FieldsKnown(pass, c.table) && (pass == Definitions ==> Named(c.table))
    ensures RecordsFrom(pass, lines, i, hi, c).Ok? ==>
              var t := RecordsFrom(pass, lines, i, hi, c).value.table;
              t.Valid() && FieldsKnown(pass, t) && (pass == Definitions ==> Named(t))
    decreases hi - i
  {
    if i < hi && i < |lines| {
      RecordStepInvariant(pass, c, lines[i]);
      if RecordStep(pass, c, lines[i]).Ok? {
        RecordsInvariant(pass, lines, i + 1, hi, RecordStep(pass, c, lines[i]).value);
      }
    }
  }

  /** No numeric scale record has a 'name' field. */
  lemma ScalesUnnamed(t: Table)
    requires FieldsKnown(Scales, t)
    ensures forall n | n in t.recs :: "name" !in t.recs[n]
  {
    NameNotAField();
    forall n, f | n in t.recs && f in t.recs[n] ensures f != "name" {
      assert f in Fields(Scales).Values;
    }
  }

  // ------------------------------------------------------- prototypes

  /** One PARAMETER PROTOTYPES line, split on commas: with at least four
      fields it sets short_desc (field 1), long_desc (field 3) and disabled
      (field 4 stripped of spaces and newlines, or "") of the variable named
      by field 0, raising KeyError if there is none; two or three fields stop
      the script; a line without a comma is skipped. */
  function PrototypeStep(t: Table, line: string): Result<Table> {
    var fields := Split(line, ',');
    var variable := Strip(fields[0], {'\n'});
    if |fields| >= 4 then
      if variable !in t.recs then Err(KeyError(variable))
      else
        var disabled := if |fields| >= 5 then Strip(fields[4], {' ', '\n'}) else "";
        var r := t.recs[variable]["short_desc" := Strip(fields[1], {'\n'})]
                                 ["long_desc" := Strip(fields[3], {'\n'})]
                                 ["disabled" := disabled];
        Ok(Put(t, variable, r))
    else if |fields| > 1 then Err(Exit)
    else Ok(t)
  }

  function PrototypesFrom(lines: seq<string>, i: nat, hi: nat, t: Table): Result<Table>
    decreases hi - i
  {
    if i >= hi || i >= |lines| then Ok(t)
    else match PrototypeStep(t, lines[i])
      case Err(f) => Err(f)
      case Ok(next) => PrototypesFrom(lines, i + 1, hi, next)
  }

  method ReadPrototypes(lines: seq<string>, span: Span, variables: Table) returns (r: Result<Table>)
    ensures r == PrototypesFrom(lines, span.lo, span.hi, variables)
  {
    var variableNames := variables;
    var i := span.lo;
    while i < span.hi && i < |lines|
      invariant PrototypesFrom(lines, span.lo, span.hi, variables) == PrototypesFrom(lines, i, span.hi, variableNames)
      decreases span.hi - i
    {
      var commaSep := Split(lines[i], ',');
      var variable := Strip(commaSep[0], {'\n'});
      if |commaSep| >= 4 {
        if variable !in variableNames.recs {
          return Err(KeyError(variable));
        }
        var disabled := "";
        if |commaSep| >= 5 {
          disabled := Strip(commaSep[4], {' ', '\n'});
        }
        var rec := variableNames.recs[variable];
        rec := rec["short_desc" := Strip(commaSep[1], {'\n'})];
        rec := rec["long_desc" := Strip(commaSep[3], {'\n'})];
        rec := rec["disabled" := disabled];
        variableNames := Put(variableNames, variable, rec);
      } else if |commaSep| > 1 {
        return Err(Exit);
      }
      i := i + 1;
    }
    return Ok(variableNames);
  }

  /** Prototypes add no variable and touch only the three description fields:
      every other field is kept with its value, and no other field is added. */
  ghost predicate OnlyDescriptions(t: Table, u: Table) {
    && u.keys == t.keys && u.recs.Keys == t.recs.Keys
    && (forall n, f | n in t.recs && f in t.recs[n] && f != "short_desc" && f != "long_desc" && f != "disabled" ::
          f in u.recs[n] && u.recs[n][f] == t.recs[n][f])
    && (forall n, f | n in u.recs && f in u.recs[n] ::
          f in t.recs[n] || f == "short_desc" || f == "long_desc" || f == "disabled")
  }

  lemma {:induction false} PrototypesOnlyDescribe(lines: seq<string>, i: nat, hi: nat, t: Table)
    requires t.Valid()
    ensures PrototypesFrom(lines, i, hi, t).Ok? ==> OnlyDescriptions(t, PrototypesFrom(lines, i, hi, t).value)
    decreases hi - i
  {
    if i < hi && i < |lines| && PrototypeStep(t, lines[i]).Ok? {
      var next := PrototypeStep(t, lines[i]).value;
      assert OnlyDescriptions(t, next);
      PrototypesOnlyDescribe(lines, i + 1, hi, next);
      if PrototypesFrom(lines, i, hi, t).Ok? {
        var u := PrototypesFrom(lines, i, hi, t).value;
        DescriptionsCompose(t, next, u);
      }
    }
  }

  lemma DescriptionsCompose(t: Table, u: Table, w: Table)
    requires OnlyDescriptions(t, u) && OnlyDescriptions(u, w)
    ensures OnlyDescriptions(t, w)
  {
    forall n, f | n in t.recs && f in t.recs[n] && f != "short_desc" && f != "long_desc" && f != "disabled"
      ensures f in w.recs[n] && w.recs[n][f] == t.recs[n][f]
    {
      assert f in u.recs[n] && u.recs[n][f] == t.recs[n][f];
    }
  }

  /** A prototype line's verdict by its number of comma fields. */
  lemma PrototypeFieldCount(t: Table, line: string)
    ensures var n := Count(line, ',') + 1;
            && (n <= 1 ==> PrototypeStep(t, line) == Ok(t))
            && (2 <= n <= 3 ==> PrototypeStep(t, line) == Err(Exit))
            && (n >= 4 ==> PrototypeStep(t, line).Ok? == (Strip(Split(line, ',')[0], {'\n'}) in t.recs))
  {
    SplitLength(line, ',');
  }

  // ------------------------------------------------------- export

  /** The output format, from the output file's last dot-separated part. */
  datatype Format = Csv | Json | Py

  /** The extension check made before the input is read. */
  function FormatOf(output: string): Result<Format> {
    var parts := Split(output, '.');
    var ext := Lower(parts[|parts| - 1]);
    if ext == "csv" then Ok(Csv)
    else if ext == "json" then Ok(Json)
    else if ext == "py" then Ok(Py)
    else Err(Exit)
  }

  /** One exported variable; `disabled` is a column of the csv export only. */
  datatype Row = Row(
    name: string,
    page: string,
    address: string,
    bytes: string,
    disabled: Option<string>,
    scaleMinimum: string,
    scaleMaximum: string,
    displayMinimum: string,
    displayMaximum: string,
    displayInterval: string,
    units: string,
    shortDesc: string,
    longDesc: string)

  /** r[field], or KeyError(field). */
  function Get(r: Record, field: string): Result<string> {
    if field in r then Ok(r[field]) else Err(KeyError(field))
  }

  /** Whether the variable is exported: its scale0 starts with SCALE, and for
      json and py its disabled text, lower-cased, is not "disabled". */
  function Keep(fmt: Format, v: Record): Result<bool> {
    var scale0 :- Get(v, "scale0");
    if Slice(scale0, 0, 5) != "SCALE" then Ok(false)
    else if fmt == Csv then Ok(true)
    else
      var disabled :- Get(v, "disabled");
      Ok(Lower(disabled) != "disabled")
  }

  /** The exported record, its fields looked up in the order the script
      writes them; page and address get "0x" and are lower-cased. */
  function ExportRow(fmt: Format, v: Record, scales: Table): Result<Row> {
    var scale0 :- Get(v, "scale0");
    var scale :- if scale0 in scales.recs then Ok(scales.recs[scale0]) else Err(KeyError(scale0));
    var name :- Get(v, "name");
    var page :- Get(v, "page");
    var address :- Get(v, "address");
    var bytes :- Get(v, "bytes");
    var disabled :- if fmt == Csv then Get(v, "disabled") else Ok("");
    var scaleMinimum :- Get(scale, "scale_minimum");
    var scaleMaximum :- Get(scale, "scale_maximum");
    var displayMinimum :- Get(scale, "display_minimum");
    var displayMaximum :- Get(scale, "display_maximum");
    var displayInterval :- Get(scale, "display_interval");
    var units :- Get(scale, "units");
    var shortDesc :- Get(v, "short_desc");
    var longDesc :- Get(v, "long_desc");
    Ok(Row(name, "0x" + Lower(page), "0x" + Lower(address), bytes,
           if fmt == Csv then Some(disabled) else None,
           scaleMinimum, scaleMaximum, displayMinimum, displayMaximum, displayInterval,
           units, shortDesc, longDesc))
  }

  /** The export loop over the variables from key k on, in insertion order. */
  function ExportFrom(fmt: Format, t: Table, scales: Table, k: nat): Result<seq<Row>>
    requires t.Valid()
    decreases |t.keys| - k
  {
    if k >= |t.keys| then Ok([])
    else
      var v := t.recs[t.keys[k]];
      var keep :- Keep(fmt, v);
      if !keep then ExportFrom(fmt, t, scales, k + 1)
      else
        var row :- ExportRow(fmt, v, scales);
        Prepend([row], ExportFrom(fmt, t, scales, k + 1))
  }

  method ExportVariables(fmt: Format, variables: Table, scales: Table) returns (r: Result<seq<Row>>)
    requires variables.Valid()
    ensures r == ExportFrom(fmt, variables, scales, 0)
  {
    var output: seq<Row> := [];
    PrependRows(output, ExportFrom(fmt, variables, scales, 0));
    for k := 0 to |variables.keys|
      invariant ExportFrom(fmt, variables, scales, 0) == Prepend(output, ExportFrom(fmt, variables, scales, k))
    {
      var variable := variables.recs[variables.keys[k]];
      var keep := Keep(fmt, variable);
      if keep.Err? {
        return Err(keep.fault);
      }
      if keep.value {
        var row := ExportRow(fmt, variable, scales);
        if row.Err? {
          return Err(row.fault);
        }
        PrependRows(output, ExportFrom(fmt, variables, scales, k + 1));
        output := output + [row.value];
      }
    }
    PrependRows(output, Ok([]));
    return Ok(output);
  }

  /** The rows exported so far in front of the outcome of the rest. */
  function Prepend(output: seq<Row>, rest: Result<seq<Row>>): Result<seq<Row>> {
    match rest
    case Err(f) => Err(f)
    case Ok(tail) => Ok(output + tail)
  }

  lemma PrependRows(output: seq<Row>, rest: Result<seq<Row>>)
    ensures Prepend([], rest) == rest
    ensures Prepend(output, Ok([])) == Ok(output)
    ensures forall row :: Prepend(output, Prepend([row], rest)) == Prepend(output + [row], rest)
  {
    if rest.Ok? {
      assert [] + rest.value == rest.value;
      forall row ensures output + ([row] + rest.value) == (output + [row]) + rest.value {
      }
    }
    assert output + [] == output;
  }

  /** The variables the export keeps, as a plain predicate on the record. */
  predicate Kept(fmt: Format, v: Record) {
    && "scale0" in v && Slice(v["scale0"], 0, 5) == "SCALE"
    && (fmt == Csv || ("disabled" in v && Lower(v["disabled"]) != "disabled"))
  }

  /** The keys from k on whose records are kept, in order. */
  function KeptKeys(fmt: Format, t: Table, k: nat): seq<string>
    requires t.Valid()
    decreases |t.keys| - k
  {
    if k >= |t.keys| then []
    else if Kept(fmt, t.recs[t.keys[k]]) then [t.keys[k]] + KeptKeys(fmt, t, k + 1)
    else KeptKeys(fmt, t, k + 1)
  }

  function RowNames(rows: seq<Row>): (r: seq<string>)
    ensures |r| == |rows| && forall i | 0 <= i < |rows| :: r[i] == rows[i].name
  {
    if rows == [] then [] else [rows[0].name] + RowNames(rows[1..])
  }

  /** The export holds, in file order, exactly the variables whose scale0
      starts with SCALE and, for json and py, whose disabled text is not
      "disabled"; csv keeps disabled variables too. */
  lemma {:induction false} ExportSelects(fmt: Format, t: Table, scales: Table, k: nat)
    requires t.Valid() && Named(t)
    requires ExportFrom(fmt, t, scales, k).Ok?
    ensures RowNames(ExportFrom(fmt, t, scales, k).value) == KeptKeys(fmt, t, k)
    decreases |t.keys| - k
  {
    if k < |t.keys| {
      ExportStep(fmt, t, scales, k);
      ExportSelects(fmt, t, scales, k + 1);
      var v := t.recs[t.keys[k]];
      if Kept(fmt, v) {
        var rows := ExportFrom(fmt, t, scales, k).value;
        assert rows[1..] == ExportFrom(fmt, t, scales, k + 1).value;
        assert RowNames(rows) == [rows[0].name] + RowNames(rows[1..]);
      }
    }
  }

  /** One step of the export loop that does not fail: a kept variable puts
      its row in front, any other is passed over. */
  lemma ExportStep(fmt: Format, t: Table, scales: Table, k: nat)
    requires t.Valid() && k < |t.keys| && ExportFrom(fmt, t, scales, k).Ok?
    ensures ExportFrom(fmt, t, scales, k + 1).Ok?
    ensures var v := t.recs[t.keys[k]];
            if Kept(fmt, v) then
              && ExportRow(fmt, v, scales).Ok?
              && "name" in v && ExportRow(fmt, v, scales).value.name == v["name"]
              && ExportFrom(fmt, t, scales, k).value == [ExportRow(fmt, v, scales).value] + ExportFrom(fmt, t, scales, k + 1).value
            else ExportFrom(fmt, t, scales, k) == ExportFrom(fmt, t, scales, k + 1)
  {
    var v := t.recs[t.keys[k]];
    KeepIsKept(fmt, v);
    if Kept(fmt, v) {
      ExportRowFields(fmt, v, scales);
    }
  }

  /** Keep, where it does not fail, is the predicate Kept. */
  lemma KeepIsKept(fmt: Format, v: Record)
    ensures Keep(fmt, v).Ok? ==> Keep(fmt, v).value == Kept(fmt, v)
  {
  }

  /** Every exported row: page and address are "0x" + the lower-cased text,
      the name, width and descriptions are the variable's, the six scale
      fields come from its scale0 record, and only csv carries `disabled`. */
  lemma ExportRowFields(fmt: Format, v: Record, scales: Table)
    requires ExportRow(fmt, v, scales).Ok?
    ensures var row := ExportRow(fmt, v, scales).value;
            && "page" in v && row.page == "0x" + Lower(v["page"])
            && "address" in v && row.address == "0x" + Lower(v["address"])
            && "name" in v && row.name == v["name"]
            && "bytes" in v && row.bytes == v["bytes"]
            && "scale0" in v && v["scale0"] in scales.recs
            && (var scale := scales.recs[v["scale0"]];
                && "scale_minimum" in scale && row.scaleMinimum == scale["scale_minimum"]
                && "scale_maximum" in scale && row.scaleMaximum == scale["scale_maximum"]
                && "display_minimum" in scale && row.displayMinimum == scale["display_minimum"]
                && "display_maximum" in scale && row.displayMaximum == scale["display_maximum"]
                && "display_interval" in scale && row.displayInterval == scale["display_interval"]
                && "units" in scale && row.units == scale["units"])
            && "short_desc" in v && row.shortDesc == v["short_desc"]
            && "long_desc" in v && row.longDesc == v["long_desc"]
            && (row.disabled.Some? <==> fmt == Csv)
            && (fmt == Csv ==> "disabled" in v && row.disabled.value == v["disabled"])
  {
  }

  /** The names of the json/py export are distinct, so the rows are the
      entries of output_dict in insertion order. */
  lemma ExportNamesDistinct(fmt: Format, t: Table, scales: Table)
    requires t.Valid() && Named(t) && ExportFrom(fmt, t, scales, 0).Ok?
    ensures forall i, j | 0 <= i < j < |RowNames(ExportFrom(fmt, t, scales, 0).value)| ::
              RowNames(ExportFrom(fmt, t, scales, 0).value)[i] != RowNames(ExportFrom(fmt, t, scales, 0).value)[j]
  {
    ExportSelects(fmt, t, scales, 0);
    KeptKeysDistinct(fmt, t, 0);
  }

  lemma {:induction false} KeptKeysDistinct(fmt: Format, t: Table, k: nat)
    requires t.Valid()
    ensures forall i, j | 0 <= i < j < |KeptKeys(fmt, t, k)| :: KeptKeys(fmt, t, k)[i] != KeptKeys(fmt, t, k)[j]
    ensures forall i | 0 <= i < |KeptKeys(fmt, t, k)| :: KeptKeys(fmt, t, k)[i] in t.keys[k..]
    decreases |t.keys| - k
  {
    if k < |t.keys| {
      KeptKeysDistinct(fmt, t, k + 1);
      var ks := KeptKeys(fmt, t, k + 1);
      assert t.keys[k..] == [t.keys[k]] + t.keys[k + 1..];
      forall i | 0 <= i < |ks| ensures ks[i] != t.keys[k] {
        var j :| 0 <= j < |t.keys[k + 1..]| && t.keys[k + 1..][j] == ks[i];
        assert t.keys[k + 1 + j] == ks[i];
      }
    }
  }

  // ------------------------------------------------------- the whole script

  /** The variables after the prototypes, and the numeric scales. */
  datatype Parsed = Parsed(variables: Table, scales: Table)

  /** The two section loops and the three record loops. Every variable that
      comes out carries its own name under 'name'. */
  function Parse(lines: seq<string>): (r: Result<Parsed>)
    ensures r.Ok? ==> r.value.variables.Valid() && Named(r.value.variables)
  {
    var sections := SectionsOf(lines);
    var defsSpan :- SpanOf(sections, "PARAMETER DEFINITIONS");
    var defs :- RecordsFrom(Definitions, lines, defsSpan.lo, defsSpan.hi, Start);
    var scalesSpan :- SpanOf(sections, "NUMERIC SCALES");
    var scales :- RecordsFrom(Scales, lines, scalesSpan.lo, scalesSpan.hi, Start);
    var protoSpan :- SpanOf(sections, "PARAMETER PROTOTYPES");
    RecordsInvariant(Definitions, lines, defsSpan.lo, defsSpan.hi, Start);
    var variables :- PrototypesFrom(lines, protoSpan.lo, protoSpan.hi, defs.table);
    PrototypesOnlyDescribe(lines, protoSpan.lo, protoSpan.hi, defs.table);
    NamesSurvive(defs.table, variables);
    Ok(Parsed(variables, scales.table))
  }

  lemma NamesSurvive(t: Table, u: Table)
    requires Named(t) && OnlyDescriptions(t, u)
    ensures Named(u)
  {
    forall n | n in u.recs ensures "name" in u.recs[n] && u.recs[n]["name"] == n {
      assert "name" in t.recs[n];
    }
  }

  method ParseLines(lines: seq<string>) returns (r: Result<Parsed>)
    ensures r == Parse(lines)
  {
    var sectionNames := FindSections(lines);
    var defsSpan := SpanOf(sectionNames, "PARAMETER DEFINITIONS");
    if defsSpan.Err? {
      return Err(defsSpan.fault);
    }
    var defs := ReadRecords(Definitions, lines, defsSpan.value);
    if defs.Err? {
      return Err(defs.fault);
    }
    var scalesSpan := SpanOf(sectionNames, "NUMERIC SCALES");
    if scalesSpan.Err? {
      return Err(scalesSpan.fault);
    }
    var scales := ReadRecords(Scales, lines, scalesSpan.value);
    if scales.Err? {
      return Err(scales.fault);
    }
    var protoSpan := SpanOf(sectionNames, "PARAMETER PROTOTYPES");
    if protoSpan.Err? {
      return Err(protoSpan.fault);
    }
    var variables := ReadPrototypes(lines, protoSpan.value, defs.value.table);
    if variables.Err? {
      return Err(variables.fault);
    }
    return Ok(Parsed(variables.value, scales.value.table));
  }

  /** What the script writes: the format and the exported rows. */
  datatype Export = Export(format: Format, rows: seq<Row>)

  /** The script from the extension check to the export. The csv writer takes
      its header from output_list[1], which raises IndexError for fewer than
      two rows. */
  function Ec2Spec(output: string, lines: seq<string>): Result<Export> {
    var fmt :- FormatOf(output);
    var parsed :- Parse(lines);
    var rows :- ExportFrom(fmt, parsed.variables, parsed.scales, 0);
    if fmt == Csv && |rows| < 2 then Err(IndexError) else Ok(Export(fmt, rows))
  }

  /** An output name whose extension is not csv, json or py stops the script
      before the input is looked at. */
  lemma BadExtensionFirst(output: string, lines: seq<string>, other: seq<string>)
    requires FormatOf(output).Err?
    ensures Ec2Spec(output, lines) == Err(Exit) && Ec2Spec(output, lines) == Ec2Spec(output, other)
  {
  }

  /** The exported names are distinct (each variable's 'name' is its key), so
      the rows are the entries of output_dict in insertion order. */
  lemma ExportedNamesDistinct(output: string, lines: seq<string>)
    requires Ec2Spec(output, lines).Ok?
    ensures forall i, j | 0 <= i < j < |Ec2Spec(output, lines).value.rows| ::
              Ec2Spec(output, lines).value.rows[i].name != Ec2Spec(output, lines).value.rows[j].name
  {
    var parsed := Parse(lines).value;
    var fmt := FormatOf(output).value;
    ExportNamesDistinct(fmt, parsed.variables, parsed.scales);
    var rows := ExportFrom(fmt, parsed.variables, parsed.scales, 0).value;
    assert rows == Ec2Spec(output, lines).value.rows;
    var names := RowNames(rows);
    forall i, j | 0 <= i < j < |rows| ensures rows[i].name != rows[j].name {
      assert names[i] != names[j];
    }
  }

  /** The script: the extension check, the parse, and the export loop. */
  method Ec2Parse(output: string, lines: seq<string>) returns (r: Result<Export>)
    ensures r == Ec2Spec(output, lines)
  {
    var fmt := FormatOf(output);
    if fmt.Err? {
      return Err(Exit);
    }
    var parsed := ParseLines(lines);
    if parsed.Err? {
      return Err(parsed.fault);
    }
    var rows := ExportVariables(fmt.value, parsed.value.variables, parsed.value.scales);
    if rows.Err? {
      return Err(rows.fault);
    }
    if fmt.value == Csv && |rows.value| < 2 {
      return Err(IndexError);
    }
    return Ok(Export(fmt.value, rows.value));
  }
}
