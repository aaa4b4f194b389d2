/** tools/correlator.py: searches a Wireshark CSV export of CAN frames for a
    16-bit value at every bit offset of each extended frame's eight data
    bytes, and stops at the first place it is found. */
module Correlator {
  import opened Util

  /** One row of the export: column title to text. */
  type Row = map<string, string>

  /** Where the value was found: the row's "No." text and the right shift. */
  datatype Hit = Hit(number: string, shift: nat)

  /** (data >> x) & 0xffff. For a non-negative number the shift is a floor
      division by 2^x and the mask keeps the remainder modulo 2^16. */
  function Window(data: nat, x: nat): (w: nat)
    ensures w < 0x1_0000
  {
    (data / Pow(2, x)) % 0x1_0000
  }

  /** The shifts x, x-1, ..., 0 tried in turn: the first whose window is
      the value, or None when none is. */
  function HighestMatch(data: nat, dword: nat, x: int): (r: Option<nat>)
    ensures r.Some? ==> r.value <= x && Window(data, r.value) == dword
    ensures r.Some? ==> forall y: nat | r.value < y <= x :: Window(data, y) != dword
    ensures r.None? ==> forall y: nat | y <= x :: Window(data, y) != dword
    decreases x + 1
  {
    if x < 0 then None
    else if Window(data, x) == dword then Some(x)
    else HighestMatch(data, dword, x - 1)
  }

  /** What a row holds for the search. */
  datatype Frame = NotExtended | Extended(number: string, data: nat)

  /** Tokens 4 to 11 of the Info column, joined into one hex numeral. */
  function PayloadText(tokens: seq<string>): string
    requires |tokens| >= 12
  {
    tokens[4] + tokens[5] + tokens[6] + tokens[7] + tokens[8] + tokens[9] + tokens[10] + tokens[11]
  }

  /** A row whose Info, split on single spaces, starts with "XTD:" is an
      extended frame: fewer than twelve tokens is an IndexError, a payload
      that is not hex a ValueError, and its "No." is read only after that. */
  function FrameOf(row: Row): Result<Frame> {
    if "Info" !in row then Err(KeyError("Info"))
    else
      var tokens := Split(row["Info"], ' ');
      if tokens[0] != "XTD:" then Ok(NotExtended)
      else if |tokens| < 12 then Err(IndexError)
      else match ParseHex(PayloadText(tokens))
        case None => Err(ValueError)
        case Some(data) =>
          if "No." !in row then Err(KeyError("No.")) else Ok(Extended(row["No."], data))
  }

  /** A row the search reads and passes over. */
  predicate Quiet(row: Row, dword: nat) {
    && FrameOf(row).Ok?
    && (FrameOf(row).value.Extended? ==> HighestMatch(FrameOf(row).value.data, dword, 48).None?)
  }

  /** The search over rows k onwards. */
  function Search(rows: seq<Row>, dword: nat, k: nat): Result<Option<Hit>>
    decreases |rows| - k
  {
    if k >= |rows| then Ok(None)
    else match FrameOf(rows[k])
      case Err(f) => Err(f)
      case Ok(NotExtended) => Search(rows, dword, k + 1)
      case Ok(Extended(number, data)) =>
        match HighestMatch(data, dword, 48)
        case Some(x) => Ok(Some(Hit(number, x)))
        case None => Search(rows, dword, k + 1)
  }

  /** int(text, 16): hex digits, optionally after a 0x or 0X prefix. */
  function ParseDword(text: string): Option<nat> {
    if |text| >= 2 && text[0] == '0' && (text[1] == 'x' || text[1] == 'X') then ParseHex(text[2..])
    else ParseHex(text)
  }

  /** The script: a --dword that is not hex stops it before the file is read. */
  function Correlate(dwordText: string, rows: seq<Row>): Result<Option<Hit>> {
    match ParseDword(dwordText)
    case None => Err(Exit)
    case Some(dword) => Search(rows, dword, 0)
  }

  method RunCorrelator(dwordText: string, rows: seq<Row>) returns (r: Result<Option<Hit>>)
    ensures r == Correlate(dwordText, rows)
  {
    var dwordInt := ParseDword(dwordText);
    if dwordInt.None? {
      return Err(Exit);
    }
    var dword := dwordInt.value;
    for k := 0 to |rows|
      invariant Search(rows, dword, 0) == Search(rows, dword, k)
    {
      var row := rows[k];
      if "Info" !in row {
        return Err(KeyError("Info"));
      }
      var data := Split(row["Info"], ' ');
      if data[0] == "XTD:" {
        if |data| < 12 {
          return Err(IndexError);
        }
        var dataInteger := ParseHex(PayloadText(data));
        if dataInteger.None? {
          return Err(ValueError);
        }
        if "No." !in row {
          return Err(KeyError("No."));
        }
        var x: int := 48;
        while x >= 0
          invariant -1 <= x <= 48
          invariant HighestMatch(dataInteger.value, dword, 48) == HighestMatch(dataInteger.value, dword, x)
          decreases x + 1
        {
          var shiftedData := dataInteger.value / Pow(2, x);
          if shiftedData % 0x1_0000 == dword {
            return Ok(Some(Hit(row["No."], x)));
          }
          x := x - 1;
        }
      }
    }
    return Ok(None);
  }

  /** A --dword that is not hex stops the script whatever the file holds. */
  lemma BadDwordFirst(dwordText: string, rows: seq<Row>, other: seq<Row>)
    requires ParseDword(dwordText).None?
    ensures Correlate(dwordText, rows) == Err(Exit) && Correlate(dwordText, rows) == Correlate(dwordText, other)
  {
  }

  /** A hit comes from the first row where the value occurs, at the highest
      shift it occurs at there; every row before it was read and passed over. */
  lemma {:induction false} SearchFindsFirst(rows: seq<Row>, dword: nat, k: nat)
    requires Search(rows, dword, k).Ok? && Search(rows, dword, k).value.Some?
    ensures var hit := Search(rows, dword, k).value.value;
            exists i | k <= i < |rows| ::
              && (forall j | k <= j < i :: Quiet(rows[j], dword))
              && FrameOf(rows[i]).Ok? && FrameOf(rows[i]).value.Extended?
              && FrameOf(rows[i]).value.number == hit.number
              && HighestMatch(FrameOf(rows[i]).value.data, dword, 48) == Some(hit.shift)
    decreases |rows| - k
  {
    var hit := Search(rows, dword, k).value.value;
    if FrameOf(rows[k]).value.Extended? && HighestMatch(FrameOf(rows[k]).value.data, dword, 48).Some? {
      assert k <= k < |rows|;
    } else {
      SearchFindsFirst(rows, dword, k + 1);
      var i :| k + 1 <= i < |rows|
               && (forall j | k + 1 <= j < i :: Quiet(rows[j], dword))
               && FrameOf(rows[i]).Ok? && FrameOf(rows[i]).value.Extended?
               && FrameOf(rows[i]).value.number == hit.number
               && HighestMatch(FrameOf(rows[i]).value.data, dword, 48) == Some(hit.shift);
      assert Quiet(rows[k], dword);
    }
  }

  /** The search ends without a hit exactly when every row is passed over. */
  lemma {:induction false} SearchFindsNothing(rows: seq<Row>, dword: nat, k: nat)
    ensures Search(rows, dword, k) == Ok(None) <==> forall j | k <= j < |rows| :: Quiet(rows[j], dword)
    decreases |rows| - k
  {
    if k < |rows| {
      SearchFindsNothing(rows, dword, k + 1);
    }
  }

  /** The script does not check the value's width: one above 0xffff is
      never found. */
  lemma {:induction false} WideValueNeverFound(rows: seq<Row>, dword: nat, k: nat)
    requires dword >= 0x1_0000
    ensures Search(rows, dword, k) == Ok(None) || Search(rows, dword, k).Err?
    decreases |rows| - k
  {
    if k < |rows| {
      WideValueNeverFound(rows, dword, k + 1);
    }
  }

  /** With each of tokens 4 to 11 a two-digit byte, token 4 is the most
      significant: the window at shift 48 is tokens 4 and 5 read as one
      16-bit number. */
  lemma TopWindowIsFirstTwoBytes(tokens: seq<string>)
    requires |tokens| >= 12
    requires forall i | 4 <= i < 12 :: |tokens[i]| == 2 && IsHex(tokens[i])
    ensures IsHex(PayloadText(tokens)) && IsHex(tokens[4] + tokens[5])
    ensures Window(HexValue(PayloadText(tokens)), 48) == HexValue(tokens[4] + tokens[5])
  {
    var high := tokens[4] + tokens[5];
    var low := tokens[6] + tokens[7] + tokens[8] + tokens[9] + tokens[10] + tokens[11];
    assert PayloadText(tokens) == high + low;
    HexValueAppend(tokens[4], tokens[5]);
    HexValueAppend(tokens[6], tokens[7]);
    HexValueAppend(tokens[6] + tokens[7], tokens[8]);
    HexValueAppend(tokens[6] + tokens[7] + tokens[8], tokens[9]);
    HexValueAppend(tokens[6] + tokens[7] + tokens[8] + tokens[9], tokens[10]);
    HexValueAppend(tokens[6] + tokens[7] + tokens[8] + tokens[9] + tokens[10], tokens[11]);
    HexValueAppend(high, low);
    HexValueBound(high);
    HexValueBound(low);
    SixteenIsTwoToTheFour(12);
    assert Pow(16, 4) == 0x1_0000;
    TopWindowOf(HexValue(high), HexValue(low), HexValue(PayloadText(tokens)));
  }

  /** The window at 48 of hv * 2^48 + lv, with lv below 2^48, is hv when hv fits in 16 bits. */
  lemma TopWindowOf(hv: nat, lv: nat, data: nat)
    requires hv < 0x1_0000 && lv < Pow(2, 48) && data == hv * Pow(2, 48) + lv
    ensures Window(data, 48) == hv
  {
    DivUnique(data, Pow(2, 48), hv, lv);
  }

  lemma {:induction false} SixteenIsTwoToTheFour(k: nat)
    ensures Pow(16, k) == Pow(2, 4 * k)
  {
    if k > 0 {
      SixteenIsTwoToTheFour(k - 1);
      var j := 4 * (k - 1);
      assert Pow(2, j + 4) == 2 * Pow(2, j + 3) == 4 * Pow(2, j + 2) == 8 * Pow(2, j + 1) == 16 * Pow(2, j);
    }
  }

  /** Division recovers the quotient of any quotient-remainder split. */
  lemma DivUnique(n: int, p: int, q: int, r: int)
    requires p > 0 && 0 <= r < p && n == q * p + r
    ensures n / p == q
  {
    var q', r' := n / p, n % p;
    assert q * p - q' * p == r' - r;
    Distribute(q, q', p);
    if q' < q {
      AtLeastOnce(q - q', p);
    } else if q' > q {
      Distribute(q', q, p);
      AtLeastOnce(q' - q, p);
    }
  }

  lemma Distribute(a: int, b: int, p: int)
    ensures (a - b) * p == a * p - b * p
  {
  }

  lemma AtLeastOnce(d: int, p: int)
    requires d >= 1 && p > 0
    ensures d * p >= p
  {
    assert d * p == (d - 1) * p + p;
  }
}
