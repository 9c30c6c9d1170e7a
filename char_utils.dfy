/** Byte-level character helpers of the engine: ASCII classes, ASCII case
    folding, digit-prefix parsing, fold-case comparisons and the length of the
    first UTF-8 code point of a byte string. Text is a sequence of bytes, as
    Go strings are. */
module CharUtils {

  type Bytes = seq<bv8>

  // ---------------------------------------------------------------------
  // Byte constants for the ASCII characters the engine inspects.

  const Space: bv8 := 0x20  // ' '
  const Tab: bv8 := 0x09  // '\t'
  const CR: bv8 := 0x0D  // '\r'
  const Bang: bv8 := 0x21  // '!'
  const Hash: bv8 := 0x23  // '#'
  const Dollar: bv8 := 0x24  // '$'
  const Amp: bv8 := 0x26  // '&'
  const LParen: bv8 := 0x28  // '('
  const RParen: bv8 := 0x29  // ')'
  const Star: bv8 := 0x2A  // '*'
  const Plus: bv8 := 0x2B  // '+'
  const Comma: bv8 := 0x2C  // ','
  const Dash: bv8 := 0x2D  // '-'
  const Dot: bv8 := 0x2E  // '.'
  const Slash: bv8 := 0x2F  // '/'
  const Zero: bv8 := 0x30  // '0'
  const Nine: bv8 := 0x39  // '9'
  const Colon: bv8 := 0x3A  // ':'
  const LAngle: bv8 := 0x3C  // '<'
  const RAngle: bv8 := 0x3E  // '>'
  const Question: bv8 := 0x3F  // '?'
  const At: bv8 := 0x40  // '@'
  const UpperA: bv8 := 0x41  // 'A'
  const UpperB: bv8 := 0x42  // 'B'
  const UpperD: bv8 := 0x44  // 'D'
  const UpperS: bv8 := 0x53  // 'S'
  const UpperW: bv8 := 0x57  // 'W'
  const UpperZ: bv8 := 0x5A  // 'Z'
  const LBracket: bv8 := 0x5B  // '['
  const RBracket: bv8 := 0x5D  // ']'
  const Caret: bv8 := 0x5E  // '^'
  const LowerA: bv8 := 0x61  // 'a'
  const LowerB: bv8 := 0x62  // 'b'
  const LowerD: bv8 := 0x64  // 'd'
  const LowerS: bv8 := 0x73  // 's'
  const LowerW: bv8 := 0x77  // 'w'
  const LowerZ: bv8 := 0x7A  // 'z'
  const LBrace: bv8 := 0x7B  // '{'
  const Bar: bv8 := 0x7C  // '|'
  const RBrace: bv8 := 0x7D  // '}'
  const Tilde: bv8 := 0x7E  // '~'

  // ---------------------------------------------------------------------
  // ASCII classes. The source names the 'a'..'z' test "upper" and the
  // 'A'..'Z' test "lower"; the names are kept as they are.

  predicate IsDigit(c: bv8) { Zero <= c <= Nine }
  predicate IsUpper(c: bv8) { LowerA <= c <= LowerZ }
  predicate IsLower(c: bv8) { UpperA <= c <= UpperZ }
  predicate IsAlpha(c: bv8) { IsLower(c) || IsUpper(c) }
  predicate IsAlnum(c: bv8) { IsAlpha(c) || IsDigit(c) }
  predicate IsSpace(c: bv8) { c == Space || (Tab <= c <= CR) }
  predicate IsBlank(c: bv8) { c == Space || c == Tab }

  /** The classes in set terms: letters are both ASCII letter ranges, blanks
      are a subset of spaces, and spaces are exactly ' ' and bytes 9..13. */
  lemma ClassFacts(c: bv8)
    ensures IsAlpha(c) <==> (65 <= c as int <= 90 || 97 <= c as int <= 122)
    ensures IsAlnum(c) <==> IsAlpha(c) || 48 <= c as int <= 57
    ensures IsSpace(c) <==> (c as int == 32 || 9 <= c as int <= 13)
    ensures IsBlank(c) ==> IsSpace(c)
    ensures IsDigit(c) ==> !IsAlpha(c) && !IsSpace(c)
  {
  }

  /** ASCII lower-casing: 'A'..'Z' become 'a'..'z', every other byte is kept. */
  function ToLower(c: bv8): (r: bv8)
    ensures IsLower(c) ==> r as int == c as int + 32 && IsUpper(r)
    ensures !IsLower(c) ==> r == c
    ensures !IsLower(r)
  {
    if IsLower(c) then c + 32 else c
  }

  lemma ToLowerIdempotent(c: bv8)
    ensures ToLower(ToLower(c)) == ToLower(c)
  {
  }

  /** Two bytes are equal up to ASCII case: the same byte, or two letters
      32 apart (a capital and its small letter). */
  predicate CmpChrCommunist(a: bv8, b: bv8): (r: bool)
    ensures r <==> a == b || (IsAlpha(a) && IsAlpha(b) && (a as int == b as int + 32 || b as int == a as int + 32))
  {
    ToLower(a) == ToLower(b)
  }

  // ---------------------------------------------------------------------
  // Scanning helpers.

  /** Whether byte v occurs in s. */
  function Strnchr(s: Bytes, v: bv8): (r: bool)
    ensures r <==> v in s
  {
    if |s| == 0 then false
    else if s[0] == v then true
    else Strnchr(s[1..], v)
  }

  /** The source scans for a case-folded hit, but both exits of its loop
      report success, so the answer is true for every input. */
  function FindRuneCommunist(s: Bytes, chr: bv8): (r: bool)
    ensures r
  {
    if |s| == 0 then true
    else if ToLower(s[0]) == ToLower(chr) then true
    else FindRuneCommunist(s[1..], chr)
  }

  /** The first n bytes of s and t agree up to ASCII case, byte by byte.
      The source indexes both strings n times, so both must be at least n
      long. */
  function {:induction false} StrnEqlCommunist(s: Bytes, t: Bytes, n: nat): (r: bool)
    requires n <= |s| && n <= |t|
    ensures r <==> forall i :: 0 <= i < n ==> CmpChrCommunist(s[i], t[i])
  {
    if n == 0 then true
    else
      assert forall i :: 1 <= i < n ==> s[1..][i - 1] == s[i] && t[1..][i - 1] == t[i];
      CmpChrCommunist(s[0], t[0]) && StrnEqlCommunist(s[1..], t[1..], n - 1)
  }

  /** Length of the longest prefix of ASCII digits. */
  function CountCharDigits(s: Bytes): (k: nat)
    ensures k <= |s|
    ensures k < |s| ==> !IsDigit(s[k])
  {
    if |s| == 0 || !IsDigit(s[0]) then 0 else 1 + CountCharDigits(s[1..])
  }

  /** Every byte of the counted prefix is a digit. */
  lemma {:induction false} CountDigitsRun(s: Bytes)
    ensures forall i :: 0 <= i < CountCharDigits(s) ==> IsDigit(s[i])
  {
    if |s| > 0 && IsDigit(s[0]) {
      CountDigitsRun(s[1..]);
      assert forall i :: 1 <= i < |s| ==> s[1..][i - 1] == s[i];
    }
  }

  function DigitValue(c: bv8): int { c as int - Zero as int }

  /** Decimal value of a string of digits, most significant first. */
  function DecimalValue(ds: Bytes): int
  {
    if |ds| == 0 then 0 else 10 * DecimalValue(ds[..|ds| - 1]) + DigitValue(ds[|ds| - 1])
  }

  /** Value of the leading decimal digits of s, 0 when there are none. */
  function AToI(s: Bytes): (n: nat)
    ensures CountCharDigits(s) == 0 ==> n == 0
  {
    CountDigitsRun(s);
    DecimalNat(s[..CountCharDigits(s)]);
    DecimalValue(s[..CountCharDigits(s)])
  }

  lemma {:induction false} DecimalNat(ds: Bytes)
    requires forall i :: 0 <= i < |ds| ==> IsDigit(ds[i])
    ensures DecimalValue(ds) >= 0
  {
    if |ds| > 0 {
      DecimalNat(ds[..|ds| - 1]);
    }
  }

  /** Leading zeros do not change the value. */
  lemma {:induction false} DecimalLeadingZero(ds: Bytes)
    ensures DecimalValue([Zero] + ds) == DecimalValue(ds)
  {
    if |ds| > 0 {
      assert ([Zero] + ds)[..|ds|] == [Zero] + ds[..|ds| - 1];
      DecimalLeadingZero(ds[..|ds| - 1]);
    }
  }

  lemma DecimalAppend(ds: Bytes, c: bv8)
    ensures DecimalValue(ds + [c]) == 10 * DecimalValue(ds) + DigitValue(c)
  {
    assert (ds + [c])[..|ds|] == ds;
  }

  /** The source's accumulator loop computes the decimal value of the digit
      prefix. */
  method ScanAToI(s: Bytes) returns (number: nat)
    ensures number == AToI(s)
  {
    var i := 0;
    number := 0;
    CountDigitsRun(s);
    while i < |s| && IsDigit(s[i])
      invariant 0 <= i <= CountCharDigits(s)
      invariant number == DecimalValue(s[..i])
    {
      DecimalAppend(s[..i], s[i]);
      assert s[..i + 1] == s[..i] + [s[i]];
      number := 10 * number + DigitValue(s[i]);
      i := i + 1;
    }
    assert i == CountCharDigits(s);
  }

  lemma AToIDigitsOnly(ds: Bytes)
    requires forall i :: 0 <= i < |ds| ==> IsDigit(ds[i])
    ensures CountCharDigits(ds) == |ds|
    ensures AToI(ds) == DecimalValue(ds)
  {
    assert ds[..|ds|] == ds;
  }

  /** Parsing stops at the first non-digit. */
  lemma {:induction false} CountStops(ds: Bytes, rest: Bytes)
    requires forall i :: 0 <= i < |ds| ==> IsDigit(ds[i])
    requires |rest| == 0 || !IsDigit(rest[0])
    ensures CountCharDigits(ds + rest) == |ds|
  {
    if |ds| > 0 {
      assert (ds + rest)[1..] == ds[1..] + rest;
      CountStops(ds[1..], rest);
    }
  }

  lemma AToIStops(ds: Bytes, rest: Bytes)
    requires forall i :: 0 <= i < |ds| ==> IsDigit(ds[i])
    requires |rest| == 0 || !IsDigit(rest[0])
    ensures AToI(ds + rest) == DecimalValue(ds)
  {
    CountStops(ds, rest);
    assert (ds + rest)[..|ds|] == ds;
  }

  // ---------------------------------------------------------------------
  // UTF-8 code-point length (from Go's unicode/utf8 decoder).

  const AS: bv8 := 0xF0   // ASCII: size 1
  const XX: bv8 := 0xF1   // invalid lead byte: size 1
  const S1: bv8 := 0x02   // accept range 0, size 2
  const S2: bv8 := 0x13   // accept range 1, size 3
  const S3: bv8 := 0x03   // accept range 0, size 3
  const S4: bv8 := 0x23   // accept range 2, size 3
  const S5: bv8 := 0x34   // accept range 3, size 4
  const S6: bv8 := 0x04   // accept range 0, size 4
  const S7: bv8 := 0x44   // accept range 4, size 4

  const LoCB: bv8 := 0x80
  const HiCB: bv8 := 0xBF

  /** The 256-entry first-byte table, row by row. */
  function First(b: bv8): bv8 {
    if b < 0x80 then AS
    else if b < 0xC2 then XX
    else if b < 0xE0 then S1
    else if b == 0xE0 then S2
    else if b < 0xED then S3
    else if b == 0xED then S4
    else if b < 0xF0 then S3
    else if b == 0xF0 then S5
    else if b < 0xF4 then S6
    else if b == 0xF4 then S7
    else XX
  }

  /** Accept ranges for the second byte, indexed by the high nibble of the
      table entry. */
  function AcceptLo(k: bv8): bv8 requires k < 5 {
    if k == 1 then 0xA0 else if k == 3 then 0x90 else LoCB
  }
  function AcceptHi(k: bv8): bv8 requires k < 5 {
    if k == 2 then 0x9F else if k == 4 then 0x8F else HiCB
  }

  /** Byte length of the first code point of s: 0 for empty s, the encoded
      size for a well-formed sequence, 1 for anything invalid or cut short. */
  function Utf8Meter(s: Bytes): (n: nat)
    ensures n == 0 <==> |s| == 0
    ensures |s| > 0 ==> 1 <= n <= 4 && n <= |s|
  {
    if |s| < 1 then 0
    else
      var x := First(s[0]);
      if x >= AS then 1
      else
        var sz := x & 7;
        var k := x >> 4;
        if |s| < sz as int then 1
        else if s[1] < AcceptLo(k) || AcceptHi(k) < s[1] then 1
        else if sz == 2 then 2
        else if s[2] < LoCB || HiCB < s[2] then 1
        else if sz == 3 then 3
        else if s[3] < LoCB || HiCB < s[3] then 1
        else 4
  }

  // The well-formed byte sequences of section 4 of RFC 3629, written
  // independently of the table.

  predicate Tail(b: bv8) { 0x80 <= b <= 0xBF }

  predicate Rfc2(s: Bytes) { |s| >= 2 && 0xC2 <= s[0] <= 0xDF && Tail(s[1]) }

  predicate Rfc3(s: Bytes) {
    |s| >= 3 && Tail(s[2]) &&
    ((s[0] == 0xE0 && 0xA0 <= s[1] <= 0xBF) ||
     (0xE1 <= s[0] <= 0xEC && Tail(s[1])) ||
     (s[0] == 0xED && 0x80 <= s[1] <= 0x9F) ||
     (0xEE <= s[0] <= 0xEF && Tail(s[1])))
  }

  predicate Rfc4(s: Bytes) {
    |s| >= 4 && Tail(s[2]) && Tail(s[3]) &&
    ((s[0] == 0xF0 && 0x90 <= s[1] <= 0xBF) ||
     (0xF1 <= s[0] <= 0xF3 && Tail(s[1])) ||
     (s[0] == 0xF4 && 0x80 <= s[1] <= 0x8F))
  }

  /** The meter agrees with the RFC 3629 grammar: it reports 2, 3 or 4 exactly
      for a well-formed multi-byte sequence of that size, and 1 otherwise. */
  lemma Utf8MeterIsRfc3629(s: Bytes)
    requires |s| > 0
    ensures Utf8Meter(s) == (if Rfc2(s) then 2 else if Rfc3(s) then 3 else if Rfc4(s) then 4 else 1)
  {
    var b := s[0];
    if b < 0x80 {
    } else if b < 0xC2 {
    } else if b < 0xE0 {
      assert First(b) == S1;
    } else if b == 0xE0 {
      assert First(b) == S2;
    } else if b < 0xED {
      assert First(b) == S3;
    } else if b == 0xED {
      assert First(b) == S4;
    } else if b < 0xF0 {
      assert First(b) == S3;
    } else if b == 0xF0 {
      assert First(b) == S5;
    } else if b < 0xF4 {
      assert First(b) == S6;
    } else if b == 0xF4 {
      assert First(b) == S7;
    } else {
    }
  }

  /** Lead bytes that are ASCII or never start a sequence give 1. */
  lemma Utf8MeterSingle(s: Bytes)
    requires |s| > 0 && (s[0] < 0x80 || 0x80 <= s[0] <= 0xC1 || s[0] >= 0xF5)
    ensures Utf8Meter(s) == 1
  {
  }

  /** A valid lead byte whose sequence is cut short gives 1. */
  lemma Utf8MeterTruncated(s: Bytes)
    requires |s| > 0 && First(s[0]) < AS && |s| < (First(s[0]) & 7) as int
    ensures Utf8Meter(s) == 1
  {
  }
}
