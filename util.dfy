/** Values and string helpers shared by every module: Python's exceptions as
    values, hexadecimal text, Python slicing, and the str methods the tools use. */
module Util {

  datatype Option<T> = None | Some(value: T)

  /** An exception the Python code raises (and does not catch), a call to
      exit(), or a loop that never ends. */
  datatype Fault =
    | KeyError(key: string)
    | IndexError
    | ValueError
    | ZeroDivisionError
    | AttributeError
    | TypeError
    | NameError
    | Exit
    | NeverEnds

  datatype Result<T> = Ok(value: T) | Err(fault: Fault) {
    predicate IsFailure() { Err? }
    function PropagateFailure<U>(): Result<U> requires Err? { Err(fault) }
    function Extract(): T requires Ok? { value }
  }

  type byte = b: int | 0 <= b < 256

  // ---------------------------------------------------------------- hex text

  predicate IsHexDigit(c: char) {
    '0' <= c <= '9' || 'a' <= c <= 'f' || 'A' <= c <= 'F'
  }

  predicate IsLowerHexDigit(c: char) {
    '0' <= c <= '9' || 'a' <= c <= 'f'
  }

  function DigitValue(c: char): (v: nat)
    requires IsHexDigit(c)
    ensures v < 16
  {
    if '0' <= c <= '9' then c as int - '0' as int
    else if 'a' <= c <= 'f' then c as int - 'a' as int + 10
    else c as int - 'A' as int + 10
  }

  /** The lower-case digit Python's format spec `x` writes for v. */
  function Digit(v: nat): (c: char)
    requires v < 16
    ensures IsLowerHexDigit(c) && IsHexDigit(c) && DigitValue(c) == v
  {
    if v < 10 then ('0' as int + v) as char else ('a' as int + v - 10) as char
  }

  lemma DigitOfValue(c: char)
    requires IsLowerHexDigit(c)
    ensures Digit(DigitValue(c)) == c
  {
  }

  predicate IsHex(s: string) {
    forall i | 0 <= i < |s| :: IsHexDigit(s[i])
  }

  predicate IsLowerHex(s: string) {
    forall i | 0 <= i < |s| :: IsLowerHexDigit(s[i])
  }

  /** The number a string of hex digits denotes, first digit most significant. */
  function HexValue(s: string): nat
    requires IsHex(s)
  {
    if s == [] then 0 else HexValue(s[..|s| - 1]) * 16 + DigitValue(s[|s| - 1])
  }

  /** Python's int(s, 16) on the strings these tools see: None where it raises
      ValueError (the empty string or a character that is not a hex digit). */
  function ParseHex(s: string): Option<nat> {
    if s != [] && IsHex(s) then Some(HexValue(s)) else None
  }

  lemma {:induction false} HexValueBound(s: string)
    requires IsHex(s)
    ensures HexValue(s) < Pow(16, |s|)
  {
    if s != [] {
      HexValueBound(s[..|s| - 1]);
    }
  }

  /** Concatenation of hex digit strings: the left part is the more significant. */
  lemma {:induction false} HexValueAppend(a: string, b: string)
    requires IsHex(a) && IsHex(b)
    ensures IsHex(a + b)
    ensures HexValue(a + b) == HexValue(a) * Pow(16, |b|) + HexValue(b)
  {
    if b == [] {
      assert a + b == a;
    } else {
      var b' := b[..|b| - 1];
      assert (a + b)[..|a + b| - 1] == a + b';
      assert (a + b)[|a + b| - 1] == b[|b| - 1];
      HexValueAppend(a, b');
      var x, p, y, d := HexValue(a), Pow(16, |b'|), HexValue(b'), DigitValue(b[|b| - 1]);
      assert HexValue(b) == y * 16 + d;
      assert Pow(16, |b|) == 16 * p;
      assert HexValue(a + b) == HexValue(a + b') * 16 + d;
      ShiftDigit(x, p, y, d);
    }
  }

  lemma ShiftDigit(x: int, p: int, y: int, d: int)
    ensures (x * p + y) * 16 + d == x * (16 * p) + (y * 16 + d)
  {
  }

  lemma HexValueTwo(s: string)
    requires |s| == 2 && IsHex(s)
    ensures HexValue(s) == DigitValue(s[0]) * 16 + DigitValue(s[1])
  {
    var s1 := s[..1];
    assert s1[..0] == [] && s1[0] == s[0];
    assert HexValue(s1) == DigitValue(s[0]);
  }

  /** Python's '{:02x}'.format(n): lower-case hex, padded to two digits. */
  function Hex02(n: nat): (s: string)
    ensures n < 256 ==> s == [Digit(n / 16), Digit(n % 16)]
    ensures n >= 256 ==> |s| > 2
  {
    if n < 256 then [Digit(n / 16), Digit(n % 16)] else ToHex(n)
  }

  function ToHex(n: nat): (s: string)
    ensures n >= 256 ==> |s| > 2
    ensures n >= 16 ==> |s| >= 2
  {
    if n < 16 then [Digit(n)] else ToHex(n / 16) + [Digit(n % 16)]
  }

  /** Two lower-case hex digits are exactly the '{:02x}' text of their value. */
  lemma {:induction false} Hex02OfValue(s: string)
    requires |s| == 2 && IsLowerHex(s)
    ensures IsHex(s) && HexValue(s) < 256 && Hex02(HexValue(s)) == s
  {
    HexValueTwo(s);
    DigitOfValue(s[0]);
    DigitOfValue(s[1]);
  }

  /** binascii.unhexlify: pairs of hex digits to bytes; None where it raises
      (odd length or a character that is not a hex digit). */
  function Unhexlify(s: string): Option<seq<byte>>
    decreases |s|
  {
    if s == [] then Some([])
    else if |s| == 1 || !IsHexDigit(s[0]) || !IsHexDigit(s[1]) then None
    else match Unhexlify(s[2..])
      case None => None
      case Some(rest) => Some([DigitValue(s[0]) * 16 + DigitValue(s[1])] + rest)
  }

  /** binascii.hexlify, as the capture tools see payloads: lower-case hex. */
  function Hexlify(bs: seq<byte>): (s: string)
    ensures |s| == 2 * |bs|
  {
    if bs == [] then [] else Hex02(bs[0]) + Hexlify(bs[1..])
  }

  lemma {:induction false} UnhexlifyAppend(a: string, b: string)
    requires |a| % 2 == 0
    ensures Unhexlify(a + b) == Both(Unhexlify(a), Unhexlify(b))
  {
    if a != [] {
      assert (a + b)[2..] == a[2..] + b;
      UnhexlifyAppend(a[2..], b);
      if IsHexDigit(a[0]) && IsHexDigit(a[1]) && Unhexlify(a[2..]).Some? && Unhexlify(b).Some? {
        var x, y := Unhexlify(a[2..]).value, Unhexlify(b).value;
        var h := DigitValue(a[0]) * 16 + DigitValue(a[1]);
        assert [h] + (x + y) == ([h] + x) + y;
      }
    } else {
      assert a + b == b;
      if Unhexlify(b).Some? {
        assert [] + Unhexlify(b).value == Unhexlify(b).value;
      }
    }
  }

  function Both(x: Option<seq<byte>>, y: Option<seq<byte>>): Option<seq<byte>> {
    if x.Some? && y.Some? then Some(x.value + y.value) else None
  }

  lemma {:induction false} UnhexlifyHexlify(bs: seq<byte>)
    ensures Unhexlify(Hexlify(bs)) == Some(bs)
  {
    if bs != [] {
      var h := Hex02(bs[0]);
      assert Hexlify(bs) == h + Hexlify(bs[1..]);
      assert Unhexlify(h) == Some([bs[0]]) by {
        assert h == [Digit(bs[0] / 16), Digit(bs[0] % 16)];
        assert h[2..] == [];
        assert IsHexDigit(h[0]) && IsHexDigit(h[1]);
        assert DigitValue(h[0]) * 16 + DigitValue(h[1]) == bs[0];
        assert Unhexlify(h[2..]) == Some([]);
        assert [bs[0]] + [] == [bs[0]];
      }
      UnhexlifyAppend(h, Hexlify(bs[1..]));
      UnhexlifyHexlify(bs[1..]);
      assert [bs[0]] + bs[1..] == bs;
    }
  }

  lemma {:induction false} HexlifyUnhexlify(s: string)
    requires IsLowerHex(s) && |s| % 2 == 0
    ensures Unhexlify(s).Some? && Hexlify(Unhexlify(s).value) == s
  {
    if s != [] {
      HexlifyUnhexlify(s[2..]);
      Hex02OfValue(s[..2]);
      HexValueTwo(s[..2]);
      assert s == s[..2] + s[2..];
    }
  }

  // ------------------------------------------------------------ arithmetic

  function Pow(b: nat, k: nat): (r: nat)
    ensures b > 0 ==> r > 0
  {
    if k == 0 then 1 else b * Pow(b, k - 1)
  }

  lemma {:induction false} PowAdd(b: nat, j: nat, k: nat)
    ensures Pow(b, j + k) == Pow(b, j) * Pow(b, k)
  {
    if k > 0 {
      PowAdd(b, j, k - 1);
      calc {
        Pow(b, j + k);
        b * Pow(b, j + k - 1);
        b * (Pow(b, j) * Pow(b, k - 1));
        { MulAssoc(b, Pow(b, j), Pow(b, k - 1)); }
        Pow(b, j) * (b * Pow(b, k - 1));
      }
    }
  }

  lemma MulAssoc(a: int, b: int, c: int)
    ensures a * (b * c) == b * (a * c)
  {
  }

  /** The unsigned value of bytes received least-significant first. */
  function LittleEndian(bs: seq<byte>): nat {
    if bs == [] then 0 else bs[0] + 256 * LittleEndian(bs[1..])
  }

  lemma {:induction false} LittleEndianBound(bs: seq<byte>)
    ensures LittleEndian(bs) < Pow(256, |bs|)
  {
    if bs != [] {
      LittleEndianBound(bs[1..]);
    }
  }

  // ------------------------------------------------------- Python strings

  /** Python's s[a:b] for non-negative a and b: both ends clamped to the string. */
  function Slice(s: string, a: nat, b: nat): (r: string)
    ensures |r| <= |s|
    ensures a <= b <= |s| ==> r == s[a..b]
  {
    var lo := if a < |s| then a else |s|;
    var hi := if b < |s| then b else |s|;
    if hi <= lo then [] else s[lo..hi]
  }

  /** Python's s[-2:]: the last two characters, or all of a shorter string. */
  function LastTwo(s: string): (r: string)
    ensures |r| <= 2
    ensures |s| >= 2 ==> r == s[|s| - 2..]
  {
    if |s| >= 2 then s[|s| - 2..] else s
  }

  function LowerChar(c: char): char {
    if 'A' <= c <= 'Z' then (c as int + 32) as char else c
  }

  /** str.lower on ASCII text. */
  function Lower(s: string): (r: string)
    ensures |r| == |s| && forall i | 0 <= i < |s| :: r[i] == LowerChar(s[i])
  {
    if s == [] then [] else [LowerChar(s[0])] + Lower(s[1..])
  }

  /** str.strip(chars): drops the characters of cs at both ends. */
  function Strip(s: string, cs: set<char>): (r: string)
    ensures |r| <= |s|
    ensures r != [] ==> r[0] !in cs && r[|r| - 1] !in cs
    decreases |s|
  {
    if s == [] then []
    else if s[0] in cs then Strip(s[1..], cs)
    else if s[|s| - 1] in cs then Strip(s[..|s| - 1], cs)
    else s
  }

  /** s[a..b] is what is left once characters of cs are removed from the ends. */
  ghost predicate Trimmed(s: string, cs: set<char>, a: nat, b: nat) {
    && a <= b <= |s|
    && (forall i | 0 <= i < a :: s[i] in cs)
    && (forall i | b <= i < |s| :: s[i] in cs)
  }

  /** A strip removes characters of cs from the two ends and nothing else. */
  lemma {:induction false} StripTrims(s: string, cs: set<char>)
    ensures exists a: nat, b: nat :: Trimmed(s, cs, a, b) && Strip(s, cs) == s[a..b]
    decreases |s|
  {
    if s == [] {
      assert Trimmed(s, cs, 0, 0) && Strip(s, cs) == s[0..0];
    } else if s[0] in cs {
      StripTrims(s[1..], cs);
      var a: nat, b: nat :| Trimmed(s[1..], cs, a, b) && Strip(s[1..], cs) == s[1..][a..b];
      TrimmedFront(s, cs, a, b);
      assert Strip(s, cs) == s[a + 1..b + 1];
    } else if s[|s| - 1] in cs {
      StripTrims(s[..|s| - 1], cs);
      var a: nat, b: nat :| Trimmed(s[..|s| - 1], cs, a, b) && Strip(s[..|s| - 1], cs) == s[..|s| - 1][a..b];
      TrimmedBack(s, cs, a, b);
      assert Strip(s, cs) == s[a..b];
    } else {
      assert Trimmed(s, cs, 0, |s|) && Strip(s, cs) == s[0..|s|];
    }
  }

  lemma TrimmedFront(s: string, cs: set<char>, a: nat, b: nat)
    requires s != [] && s[0] in cs && Trimmed(s[1..], cs, a, b)
    ensures Trimmed(s, cs, a + 1, b + 1)
  {
    forall i | 0 < i < a + 1 ensures s[i] in cs {
      assert s[i] == s[1..][i - 1];
    }
    forall i | b + 1 <= i < |s| ensures s[i] in cs {
      assert s[i] == s[1..][i - 1];
    }
  }

  lemma TrimmedBack(s: string, cs: set<char>, a: nat, b: nat)
    requires s != [] && s[|s| - 1] in cs && Trimmed(s[..|s| - 1], cs, a, b)
    ensures Trimmed(s, cs, a, b)
  {
    forall i | 0 <= i < a ensures s[i] in cs {
      assert s[i] == s[..|s| - 1][i];
    }
    forall i | b <= i < |s| - 1 ensures s[i] in cs {
      assert s[i] == s[..|s| - 1][i];
    }
  }

  /** str.split(sep) with a one-character separator: never empty, and the
      pieces joined with sep give back s. */
  function Split(s: string, sep: char): (r: seq<string>)
    ensures |r| >= 1
    ensures forall k | 0 <= k < |r| :: sep !in r[k]
    ensures Join(r, sep) == s
  {
    if s == [] then [[]]
    else
      var rest := Split(s[1..], sep);
      if s[0] == sep then [[]] + rest
      else [[s[0]] + rest[0]] + rest[1..]
  }

  function Join(pieces: seq<string>, sep: char): string
    requires |pieces| >= 1
  {
    if |pieces| == 1 then pieces[0] else pieces[0] + [sep] + Join(pieces[1..], sep)
  }

  /** The number of sep characters in s. */
  function Count(s: string, sep: char): nat {
    if s == [] then 0 else (if s[0] == sep then 1 else 0) + Count(s[1..], sep)
  }

  lemma {:induction false} SplitLength(s: string, sep: char)
    ensures |Split(s, sep)| == Count(s, sep) + 1
  {
    if s != [] {
      SplitLength(s[1..], sep);
    }
  }
}
