/** `base64.StdEncoding`: the encoding of RFC 4648, section 4, with padding. */
module Base64 {
  import opened Bytes

  const PAD: byte := EQUALS

  /** The 64-character alphabet. */
  function Digit(v: int): (c: byte)
    requires 0 <= v < 64
    ensures Value(c) == Some(v) && c != PAD && c != QUESTION
    ensures c != CR && c != LF
  {
    if v < 26 then 65 + v
    else if v < 52 then 71 + v
    else if v < 62 then v - 4
    else if v == 62 then 43
    else 47
  }

  const ALPHABET: bytes := UPPER_LETTERS + LOWER_LETTERS + UPPER_DIGITS[..10] + [43, 47]

  lemma DigitIs(v: int)
    requires 0 <= v < 64
    ensures Digit(v) == ALPHABET[v]
  {
    if v < 26 {
      assert ALPHABET[v] == UPPER_LETTERS[v];
    } else if v < 52 {
      assert ALPHABET[v] == LOWER_LETTERS[v - 26];
    } else if v < 62 {
      assert ALPHABET[v] == UPPER_DIGITS[v - 52];
    } else {
      assert ALPHABET[v] == [43, 47][v - 62];
    }
  }

  function Value(c: byte): (v: Option<int>)
    ensures v.Some? ==> 0 <= v.value < 64
  {
    if 65 <= c <= 90 then Some(c - 65)
    else if 97 <= c <= 122 then Some(c - 71)
    else if 48 <= c <= 57 then Some(c + 4)
    else if c == 43 then Some(62)
    else if c == 47 then Some(63)
    else None
  }

  function EncodedLen(n: nat): nat {
    (n + 2) / 3 * 4
  }

  function Encode(s: bytes): (t: bytes)
    ensures |t| == EncodedLen(|s|)
    ensures forall k :: 0 <= k < |t| ==> t[k] != QUESTION && t[k] != CR && t[k] != LF
  {
    if s == [] then []
    else if |s| == 1 then [Digit(s[0] / 4), Digit(s[0] % 4 * 16), PAD, PAD]
    else if |s| == 2 then [Digit(s[0] / 4), Digit(s[0] % 4 * 16 + s[1] / 16), Digit(s[1] % 16 * 4), PAD]
    else
      [Digit(s[0] / 4), Digit(s[0] % 4 * 16 + s[1] / 16), Digit(s[1] % 16 * 4 + s[2] / 64), Digit(s[2] % 64)]
      + Encode(s[3..])
  }

  /** Newline characters are skipped wherever they stand. */
  function StripNewlines(t: bytes): bytes {
    if t == [] then []
    else if t[0] == CR || t[0] == LF then StripNewlines(t[1..])
    else [t[0]] + StripNewlines(t[1..])
  }

  function DecodeQuads(t: bytes): Option<bytes> {
    if t == [] then Some([])
    else if |t| < 4 || Value(t[0]).None? || Value(t[1]).None? then None
    else
      var a, b := Value(t[0]).value, Value(t[1]).value;
      var x: byte := a * 4 + b / 16;
      if t[2] == PAD then (if t[3] == PAD && |t| == 4 then Some([x]) else None)
      else if Value(t[2]).None? then None
      else
        var c := Value(t[2]).value;
        var y: byte := b % 16 * 16 + c / 4;
        if t[3] == PAD then (if |t| == 4 then Some([x, y]) else None)
        else if Value(t[3]).None? then None
        else
          var z: byte := c % 4 * 64 + Value(t[3]).value;
          match DecodeQuads(t[4..])
          case None => None
          case Some(rest) => Some([x, y, z] + rest)
  }

  function Decode(t: bytes): Option<bytes> {
    DecodeQuads(StripNewlines(t))
  }

  lemma {:induction false} NothingToStrip(t: bytes)
    requires forall k :: 0 <= k < |t| ==> t[k] != CR && t[k] != LF
    ensures StripNewlines(t) == t
  {
    if t != [] {
      NothingToStrip(t[1..]);
    }
  }

  lemma OneByte(x: byte)
    ensures DecodeQuads(Encode([x])) == Some([x])
  {
  }

  lemma TwoBytes(x: byte, y: byte)
    ensures DecodeQuads(Encode([x, y])) == Some([x, y])
  {
  }

  lemma BitsKept(x: byte, y: byte, z: byte)
    ensures var a, b, c, d := x / 4, x % 4 * 16 + y / 16, y % 16 * 4 + z / 64, z % 64;
            a * 4 + b / 16 == x && b % 16 * 16 + c / 4 == y && c % 4 * 64 + d == z
  {
  }

  /** Four digits say the three bytes they were made from. */
  lemma ThreeBytes(x: byte, y: byte, z: byte, t: bytes)
    ensures DecodeQuads([Digit(x / 4), Digit(x % 4 * 16 + y / 16), Digit(y % 16 * 4 + z / 64), Digit(z % 64)] + t)
            == (match DecodeQuads(t) case None => None case Some(rest) => Some([x, y, z] + rest))
  {
    var q := [Digit(x / 4), Digit(x % 4 * 16 + y / 16), Digit(y % 16 * 4 + z / 64), Digit(z % 64)];
    assert (q + t)[4..] == t;
    BitsKept(x, y, z);
  }

  lemma {:induction false} QuadsRoundTrip(s: bytes)
    ensures DecodeQuads(Encode(s)) == Some(s)
    decreases |s|
  {
    if |s| >= 3 {
      QuadsRoundTrip(s[3..]);
      ThreeBytes(s[0], s[1], s[2], Encode(s[3..]));
      assert s == [s[0], s[1], s[2]] + s[3..];
    } else if |s| == 2 {
      assert s == [s[0], s[1]];
      TwoBytes(s[0], s[1]);
    } else if |s| == 1 {
      assert s == [s[0]];
      OneByte(s[0]);
    }
  }

  lemma RoundTrip(s: bytes)
    ensures Decode(Encode(s)) == Some(s)
  {
    NothingToStrip(Encode(s));
    QuadsRoundTrip(s);
  }

  lemma {:induction false} StripShrinks(t: bytes)
    ensures |StripNewlines(t)| <= |t|
  {
    if t != [] {
      StripShrinks(t[1..]);
    }
  }

  lemma {:induction false} QuadsShrink(t: bytes)
    ensures DecodeQuads(t).Some? ==> |DecodeQuads(t).value| <= |t|
  {
    if |t| >= 4 {
      QuadsShrink(t[4..]);
    }
  }

  /** Decoding never yields more bytes than it reads. */
  lemma DecodeShrinks(t: bytes)
    ensures Decode(t).Some? ==> |Decode(t).value| <= |t|
  {
    StripShrinks(t);
    QuadsShrink(StripNewlines(t));
  }

  /** The first test vectors of section 10 of RFC 4648: `f`, `fo` and `foo`. */
  lemma Vectors()
    ensures Encode([102]) == [90, 103, PAD, PAD] && Encode([102, 111]) == [90, 109, 56, PAD]
    ensures Encode([102, 111, 111]) == [90, 109, 57, 118]
  {
    assert Encode([]) == [];
    assert [102, 111, 111][3..] == [];
  }

  function Joined(x: int, y: int, z: int): int {
    (x * 256 + y) * 256 + z
  }

  /** Four digits hold the bits of three bytes, the highest ones first. */
  lemma DigitsHoldBits(x: byte, y: byte, z: byte)
    ensures var t := Encode([x, y, z]);
            && |t| == 4 && (forall k :: 0 <= k < 4 ==> Value(t[k]).Some?)
            && ((Value(t[0]).value * 64 + Value(t[1]).value) * 64 + Value(t[2]).value) * 64 + Value(t[3]).value
               == Joined(x, y, z)
  {
    assert [x, y, z][3..] == [] && Encode([]) == [];
    var q := [Digit(x / 4), Digit(x % 4 * 16 + y / 16), Digit(y % 16 * 4 + z / 64), Digit(z % 64)];
    assert Encode([x, y, z]) == q + [] == q;
  }

  lemma {:induction false} StripConcat(a: bytes, b: bytes)
    ensures StripNewlines(a + b) == StripNewlines(a) + StripNewlines(b)
  {
    if a == [] {
      assert a + b == b && [] + StripNewlines(b) == StripNewlines(b);
    } else {
      assert (a + b)[1..] == a[1..] + b;
      StripConcat(a[1..], b);
      Assoc([a[0]], StripNewlines(a[1..]), StripNewlines(b));
    }
  }

  /** A CR or LF anywhere in the text makes no difference. */
  lemma NewlinesAreIgnored(a: bytes, newline: byte, b: bytes)
    requires newline == CR || newline == LF
    ensures Decode(a + ([newline] + b)) == Decode(a + b)
  {
    StripConcat(a, [newline] + b);
    StripConcat(a, b);
    assert ([newline] + b)[1..] == b;
  }
}
