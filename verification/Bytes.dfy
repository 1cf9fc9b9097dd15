/** Byte strings, the search functions of Go's `bytes` and `strings` packages, and hexadecimal digits. */
module Bytes {

  type byte = b: int | 0 <= b < 256

  type bytes = seq<byte>

  const TAB: byte := 9
  const LF: byte := 10
  const CR: byte := 13
  const SPACE: byte := 32
  const DASH: byte := 45
  const EQUALS: byte := 61
  const QUESTION: byte := 63
  const UNDERSCORE: byte := 95
  const TILDE: byte := 126

  const CRLF: bytes := [CR, LF]

  datatype Option<+T> = None | Some(value: T)

  const UTF8_NAME: bytes := [117, 116, 102, 45, 56]
  const ASCII_NAME: bytes := [117, 115, 45, 97, 115, 99, 105, 105]

  function Min(a: int, b: int): int {
    if a < b then a else b
  }

  predicate IsBlank(b: byte) {
    b == SPACE || b == TAB
  }

  // ---------- searching ----------

  predicate OccursAt(s: bytes, pat: bytes, k: int) {
    0 <= k <= |s| && pat <= s[k..]
  }

  function IndexFrom(s: bytes, pat: bytes, from: nat): (r: int)
    requires from <= |s|
    ensures -1 <= r && (r != -1 ==> r + |pat| <= |s|)
    decreases |s| - from
  {
    if OccursAt(s, pat, from) then from
    else if from == |s| then -1
    else IndexFrom(s, pat, from + 1)
  }

  /** `bytes.Index`: the position of the first occurrence, or -1. */
  function Index(s: bytes, pat: bytes): (r: int)
    ensures -1 <= r && (r != -1 ==> r + |pat| <= |s|)
  {
    IndexFrom(s, pat, 0)
  }

  lemma {:induction false} IndexFromIsFirst(s: bytes, pat: bytes, from: nat)
    requires from <= |s|
    ensures var r := IndexFrom(s, pat, from);
            && (r == -1 || (from <= r && OccursAt(s, pat, r)))
            && forall k :: from <= k && (r == -1 || k < r) ==> !OccursAt(s, pat, k)
    decreases |s| - from
  {
    if !OccursAt(s, pat, from) && from < |s| {
      IndexFromIsFirst(s, pat, from + 1);
    }
  }

  lemma IndexIsFirst(s: bytes, pat: bytes)
    ensures var r := Index(s, pat);
            && (r == -1 || OccursAt(s, pat, r))
            && forall k :: 0 <= k && (r == -1 || k < r) ==> !OccursAt(s, pat, k)
  {
    IndexFromIsFirst(s, pat, 0);
  }

  /** `bytes.IndexByte`: the position of the first `b`, or -1. */
  function IndexByte(s: bytes, b: byte): (r: int)
    ensures -1 <= r < |s|
    ensures r == -1 ==> forall k :: 0 <= k < |s| ==> s[k] != b
    ensures r != -1 ==> s[r] == b && forall k :: 0 <= k < r ==> s[k] != b
  {
    if s == [] then -1
    else if s[0] == b then 0
    else
      var r := IndexByte(s[1..], b);
      if r == -1 then -1 else r + 1
  }

  /** The first occurrence is the only one with no earlier occurrence. */
  lemma IndexIs(s: bytes, pat: bytes, k: int)
    requires OccursAt(s, pat, k)
    requires forall j :: 0 <= j < k ==> !OccursAt(s, pat, j)
    ensures Index(s, pat) == k
  {
    IndexIsFirst(s, pat);
  }

  lemma IndexByteIs(s: bytes, b: byte, k: nat)
    requires k < |s| && s[k] == b && forall j :: 0 <= j < k ==> s[j] != b
    ensures IndexByte(s, b) == k
  {
  }

  lemma DropDrop(s: bytes, i: nat, j: nat)
    requires i + j <= |s|
    ensures s[i..][j..] == s[i + j..]
  {
  }

  lemma DropConcat(a: bytes, b: bytes, n: nat)
    requires n <= |a|
    ensures (a + b)[n..] == a[n..] + b && (a + b)[..n] == a[..n]
  {
  }

  lemma Assoc(a: bytes, b: bytes, c: bytes)
    ensures (a + b) + c == a + (b + c)
  {
  }

  lemma MoveFront(a: bytes, b: bytes, n: nat)
    requires n <= |b|
    ensures (a + b[..n]) + b[n..] == a + b
  {
  }

  // ---------- ASCII letters ----------

  function LowerByte(b: byte): byte {
    if 65 <= b <= 90 then b + 32 else b
  }

  function Lower(s: bytes): (r: bytes)
    ensures |r| == |s| && forall k :: 0 <= k < |s| ==> r[k] == LowerByte(s[k])
  {
    seq(|s|, i requires 0 <= i < |s| => LowerByte(s[i]))
  }

  // ---------- hexadecimal digits ----------

  /** The letters from A to Z, and from a to z. */
  const UPPER_LETTERS: bytes := [
    65, 66, 67, 68, 69, 70, 71, 72, 73, 74, 75, 76, 77, 78, 79, 80, 81, 82, 83, 84, 85, 86, 87, 88,
    89, 90
  ]

  const LOWER_LETTERS: bytes := [
    97, 98, 99, 100, 101, 102, 103, 104, 105, 106, 107, 108, 109, 110, 111, 112, 113, 114, 115,
    116, 117, 118, 119, 120, 121, 122
  ]

  /** The letters and the digits stand next to each other. */
  lemma LetterRanges(b: byte)
    ensures b in UPPER_LETTERS <==> 65 <= b <= 90
    ensures b in LOWER_LETTERS <==> 97 <= b <= 122
  {
    assert 65 <= b <= 90 ==> UPPER_LETTERS[b - 65] == b;
    assert 97 <= b <= 122 ==> LOWER_LETTERS[b - 97] == b;
  }

  /** Upper-case letters become their lower-case ones, and everything else stays. */
  lemma LettersAreLowered(b: byte)
    ensures forall i :: 0 <= i < 26 && b == UPPER_LETTERS[i] ==> LowerByte(b) == LOWER_LETTERS[i]
    ensures (forall i :: 0 <= i < 26 ==> b != UPPER_LETTERS[i]) ==> LowerByte(b) == b
  {
    if 65 <= b <= 90 {
      assert UPPER_LETTERS[b - 65] == b;
    }
  }

  predicate IsHex(b: byte) {
    48 <= b <= 57 || 65 <= b <= 70 || 97 <= b <= 102
  }

  predicate IsUpperHex(b: byte) {
    48 <= b <= 57 || 65 <= b <= 70
  }

  /** The value of a hexadecimal digit of either case. */
  function HexValue(b: byte): (v: byte)
    requires IsHex(b)
    ensures v < 16
  {
    if b <= 57 then b - 48 else if b <= 70 then b - 55 else b - 87
  }

  const UPPER_DIGITS: bytes := [48, 49, 50, 51, 52, 53, 54, 55, 56, 57, 65, 66, 67, 68, 69, 70]
  const LOWER_DIGITS: bytes := [48, 49, 50, 51, 52, 53, 54, 55, 56, 57, 97, 98, 99, 100, 101, 102]

  /** `c` is the digit for `v`, in either case. */
  predicate IsDigitOf(c: byte, v: int) {
    0 <= v < 16 && (c == UPPER_DIGITS[v] || c == LOWER_DIGITS[v])
  }

  /** The digits are read as their values, and nothing else is read as a digit. */
  lemma DigitsAreRead(c: byte)
    ensures forall v :: IsDigitOf(c, v) ==> IsHex(c) && HexValue(c) == v
    ensures IsHex(c) ==> IsDigitOf(c, HexValue(c))
  {
  }

  /** `hi` and `lo` are the digits of a byte. */
  predicate AreDigitsOf(hi: byte, lo: byte, b: byte) {
    IsDigitOf(hi, b / 16) && IsDigitOf(lo, b % 16)
  }

  lemma DigitsOfByte(hi: byte, lo: byte, b: byte)
    requires AreDigitsOf(hi, lo, b)
    ensures ReadHexByte(hi, lo) == Some(b)
  {
    DigitsAreRead(hi);
    DigitsAreRead(lo);
  }

  /** The digit `upperhex[v]`. */
  function UpperHex(v: int): (b: byte)
    requires 0 <= v < 16
    ensures IsUpperHex(b) && HexValue(b) == v
  {
    if v < 10 then 48 + v else 55 + v
  }

  /** The byte written as two hexadecimal digits, if both are. */
  function ReadHexByte(a: byte, b: byte): Option<byte> {
    if IsHex(a) && IsHex(b) then Some(16 * HexValue(a) + HexValue(b)) else None
  }

  /** `=XX`, the upper-case escape of a byte. */
  function Escape(b: byte): (e: bytes)
    ensures |e| == 3 && e[0] == EQUALS && IsUpperHex(e[1]) && IsUpperHex(e[2])
    ensures ReadHexByte(e[1], e[2]) == Some(b)
  {
    [EQUALS, UpperHex(b / 16), UpperHex(b % 16)]
  }

  // ---------- results that may fail ----------

  /** `s` in front of a result, if there is one. */
  function AppendTo(s: bytes, r: Option<bytes>): Option<bytes> {
    match r case None => None case Some(t) => Some(s + t)
  }

  function Prepend(b: byte, r: Option<bytes>): Option<bytes> {
    AppendTo([b], r)
  }

  lemma AppendNothing(r: Option<bytes>)
    ensures AppendTo([], r) == r
  {
    if r.Some? {
      assert [] + r.value == r.value;
    }
  }

  lemma AppendTwice(a: bytes, b: bytes, r: Option<bytes>)
    ensures AppendTo(a, AppendTo(b, r)) == AppendTo(a + b, r)
  {
    if r.Some? {
      Assoc(a, b, r.value);
    }
  }
}
