/** Lengths of UTF-8 sequences, as `utf8.DecodeRuneInString` reports them. */
module Runes {
  import opened Bytes

  predicate InRange(s: bytes, k: nat, lo: byte, hi: byte) {
    k < |s| && lo <= s[k] <= hi
  }

  /** The bytes of the well-formed character in front of `s`; 1 if there is none. */
  function RuneLen(s: bytes): (n: nat)
    requires s != []
    ensures 1 <= n <= 4 && n <= |s|
    ensures n > 1 ==> forall k :: 0 <= k < n ==> s[k] >= 0x80
  {
    var b := s[0];
    if 0xC2 <= b <= 0xDF && InRange(s, 1, 0x80, 0xBF) then 2
    else if 0xE0 <= b <= 0xEF && InRange(s, 1, if b == 0xE0 then 0xA0 else 0x80, if b == 0xED then 0x9F else 0xBF)
            && InRange(s, 2, 0x80, 0xBF) then 3
    else if 0xF0 <= b <= 0xF4 && InRange(s, 1, if b == 0xF0 then 0x90 else 0x80, if b == 0xF4 then 0x8F else 0xBF)
            && InRange(s, 2, 0x80, 0xBF) && InRange(s, 3, 0x80, 0xBF) then 4
    else 1
  }

  /** Well-formed UTF-8. */
  predicate IsUtf8(s: bytes) {
    s == [] || ((s[0] < 0x80 || RuneLen(s) > 1) && IsUtf8(s[RuneLen(s)..]))
  }

  lemma RuneLenOfPrefix(s: bytes, t: bytes)
    requires s != [] && (s[0] < 0x80 || RuneLen(s) > 1)
    ensures RuneLen(s + t) == RuneLen(s)
  {
  }

  lemma {:induction false} Utf8Concat(a: bytes, b: bytes)
    requires IsUtf8(a) && IsUtf8(b)
    ensures IsUtf8(a + b)
    decreases |a|
  {
    if a == [] {
      assert a + b == b;
    } else {
      RuneLenOfPrefix(a, b);
      DropConcat(a, b, RuneLen(a));
      Utf8Concat(a[RuneLen(a)..], b);
    }
  }

  lemma FirstRuneIsUtf8(s: bytes)
    requires s != [] && IsUtf8(s)
    ensures IsUtf8(s[..RuneLen(s)])
  {
    var u := s[..RuneLen(s)];
    assert RuneLen(u) == RuneLen(s);
    assert u[RuneLen(u)..] == [];
  }

  /** The code of the character in front of `s`; an invalid byte stands for U+FFFD. */
  function CodePoint(s: bytes): int
    requires s != []
  {
    var n, a: int := RuneLen(s), s[0];
    if n == 1 then (if a < 0x80 then a else 0xFFFD)
    else if n == 2 then a % 32 * 64 + Low(s, 1)
    else if n == 3 then a % 16 * 4096 + Low(s, 1) * 64 + Low(s, 2)
    else a % 8 * 262144 + Low(s, 1) * 4096 + Low(s, 2) * 64 + Low(s, 3)
  }

  /** The bits that a continuation byte adds. */
  function Low(s: bytes, k: nat): int
    requires k < |s|
  {
    s[k] % 64
  }
}
