/**
 * UTF-8 (RFC 3629), the encoding Node's hash objects apply to a string
 * handed to `update` without an explicit encoding.  The decoder is not
 * used by the server; it is the inverse against which the encoder is proved.
 *
 * Lemmas here carry `{:induction false}`: the recursive ones spell out their
 * induction, and on the others it stops Dafny from adding induction
 * hypotheses the proofs do not use, which only slow the solver down.
 */
module Utf8 {
  import opened Wrappers
  import opened Octets

  /** A byte of the form 10xxxxxx, which continues a multi-byte sequence. */
  predicate IsContinuation(b: byte) {
    0x80 <= b < 0xC0
  }

  /** The shortest-form encoding of one Unicode scalar value. */
  function EncodeChar(c: char): (r: seq<byte>)
    ensures 1 <= |r| <= 4
    ensures |r| == 1 <==> c as int < 0x80
    ensures |r| == 1 ==> r[0] == c as int
    ensures forall i :: 1 <= i < |r| ==> IsContinuation(r[i])
  {
    var n := c as int;
    if n < 0x80 then [n]
    else if n < 0x800 then [0xC0 + n / 64, 0x80 + n % 64]
    else if n < 0x1_0000 then [0xE0 + n / 4096, 0x80 + n / 64 % 64, 0x80 + n % 64]
    else [0xF0 + n / 0x4_0000, 0x80 + n / 4096 % 64, 0x80 + n / 64 % 64, 0x80 + n % 64]
  }

  /** The encoding of a whole string: the encodings of its characters, in order. */
  function Encode(s: string): (r: seq<byte>)
    ensures |s| <= |r| <= 4 * |s|
  {
    if s == [] then [] else EncodeChar(s[0]) + Encode(s[1..])
  }

  /**
   * Decodes the character that starts `b` and says how many bytes it took.
   * Overlong forms, surrogates, values above U+10FFFF, stray continuation
   * bytes and truncated sequences are rejected.
   */
  function DecodeFirst(b: seq<byte>): (r: Option<(char, nat)>)
    requires |b| > 0
    ensures r.Some? ==> 1 <= r.value.1 <= |b|
  {
    var b0 := b[0] as int;
    if b0 < 0x80 then
      Some((b0 as char, 1))
    else if 0xC2 <= b0 < 0xE0 then
      if |b| >= 2 && IsContinuation(b[1]) then
        Some((((b0 - 0xC0) * 64 + (b[1] as int - 0x80)) as char, 2))
      else None
    else if 0xE0 <= b0 < 0xF0 then
      if |b| >= 3 && IsContinuation(b[1]) && IsContinuation(b[2]) then
        var n := (b0 - 0xE0) * 4096 + (b[1] as int - 0x80) * 64 + (b[2] as int - 0x80);
        if 0x800 <= n && !(0xD800 <= n < 0xE000) then Some((n as char, 3)) else None
      else None
    else if 0xF0 <= b0 < 0xF5 then
      if |b| >= 4 && IsContinuation(b[1]) && IsContinuation(b[2]) && IsContinuation(b[3]) then
        var n := (b0 - 0xF0) * 0x4_0000 + (b[1] as int - 0x80) * 4096 + (b[2] as int - 0x80) * 64 + (b[3] as int - 0x80);
        if 0x1_0000 <= n <= 0x10_FFFF then Some((n as char, 4)) else None
      else None
    else None
  }

  /** Decodes a whole byte sequence, failing on the first ill-formed character. */
  function Decode(b: seq<byte>): (r: Option<string>)
    decreases |b|
  {
    if b == [] then Some([])
    else
      match DecodeFirst(b)
      case None => None
      case Some((c, n)) =>
        match Decode(b[n..])
        case None => None
        case Some(rest) => Some([c] + rest)
  }

  /** Decoding the first character of an encoding gives back that character. */
  lemma {:induction false} DecodeFirstEncodeChar(c: char, rest: seq<byte>)
    ensures DecodeFirst(EncodeChar(c) + rest) == Some((c, |EncodeChar(c)|))
  {
    var n := c as int;
    if 0x80 <= n < 0x800 {
      JoinDigits(n);
    } else if 0x800 <= n < 0x1_0000 {
      JoinDigits(n);
      JoinDigits(n / 64);
    } else if 0x1_0000 <= n {
      JoinDigits(n);
      JoinDigits(n / 64);
      JoinDigits(n / 4096);
    }
  }

  /** A number is its 6-bit digits put back together, and dividing by 64 twice is dividing by 4096. */
  lemma JoinDigits(n: int)
    requires 0 <= n
    ensures n == n / 64 * 64 + n % 64
    ensures n / 64 / 64 == n / 4096 && n / 4096 / 64 == n / 0x4_0000
  {
  }

  /** A value below 64 in the low six bits survives division and remainder by 64. */
  lemma SplitDigits(hi: int, lo: int)
    requires 0 <= hi && 0 <= lo < 64
    ensures (hi * 64 + lo) / 64 == hi && (hi * 64 + lo) % 64 == lo
  {
  }

  /** The same for the low twelve bits. */
  lemma SplitTwelveBits(hi: int, lo: int)
    requires 0 <= hi && 0 <= lo < 4096
    ensures (hi * 4096 + lo) / 4096 == hi
  {
  }

  /** The same for the low eighteen bits. */
  lemma SplitEighteenBits(hi: int, lo: int)
    requires 0 <= hi && 0 <= lo < 0x4_0000
    ensures (hi * 0x4_0000 + lo) / 0x4_0000 == hi
  {
  }

  /** A two-byte sequence DecodeFirst accepts is the encoding of its result. */
  lemma {:induction false} DecodeFirstSound2(b: seq<byte>)
    requires |b| >= 2 && 0xC2 <= b[0] < 0xE0 && IsContinuation(b[1])
    ensures DecodeFirst(b) == Some((((b[0] as int - 0xC0) * 64 + (b[1] as int - 0x80)) as char, 2))
    ensures EncodeChar(DecodeFirst(b).value.0) == b[..2]
  {
    SplitDigits(b[0] as int - 0xC0, b[1] as int - 0x80);
  }

  /** A three-byte sequence DecodeFirst accepts is the encoding of its result. */
  lemma {:induction false} DecodeFirstSound3(b: seq<byte>)
    requires |b| >= 3 && 0xE0 <= b[0] < 0xF0 && DecodeFirst(b).Some?
    ensures DecodeFirst(b).value.1 == 3
    ensures EncodeChar(DecodeFirst(b).value.0) == b[..3]
  {
    var x, y, z := b[0] as int - 0xE0, b[1] as int - 0x80, b[2] as int - 0x80;
    var n := x * 4096 + y * 64 + z;
    SplitDigits(x * 64 + y, z);
    SplitDigits(x, y);
    SplitTwelveBits(x, y * 64 + z);
    assert n / 64 == x * 64 + y && n % 64 == z && n / 4096 == x;
  }

  /** A four-byte sequence DecodeFirst accepts is the encoding of its result. */
  lemma {:induction false} DecodeFirstSound4(b: seq<byte>)
    requires |b| >= 4 && 0xF0 <= b[0] && DecodeFirst(b).Some?
    ensures DecodeFirst(b).value.1 == 4
    ensures EncodeChar(DecodeFirst(b).value.0) == b[..4]
  {
    var w, x, y, z := b[0] as int - 0xF0, b[1] as int - 0x80, b[2] as int - 0x80, b[3] as int - 0x80;
    var n := w * 0x4_0000 + x * 4096 + y * 64 + z;
    SplitDigits(w * 4096 + x * 64 + y, z);
    SplitDigits(w * 64 + x, y);
    SplitTwelveBits(w * 64 + x, y * 64 + z);
    SplitDigits(w, x);
    SplitEighteenBits(w, x * 4096 + y * 64 + z);
    assert n / 64 == w * 4096 + x * 64 + y && n % 64 == z;
    assert n / 4096 == w * 64 + x && n / 0x4_0000 == w;
  }

  /** Whatever DecodeFirst accepts is exactly the encoding of the character it returns. */
  lemma {:induction false} DecodeFirstSound(b: seq<byte>)
    requires |b| > 0 && DecodeFirst(b).Some?
    ensures DecodeFirst(b).value.1 <= |b|
    ensures EncodeChar(DecodeFirst(b).value.0) == b[..DecodeFirst(b).value.1]
  {
    if 0xC2 <= b[0] < 0xE0 {
      DecodeFirstSound2(b);
    } else if 0xE0 <= b[0] < 0xF0 {
      DecodeFirstSound3(b);
    } else if 0xF0 <= b[0] {
      DecodeFirstSound4(b);
    }
  }

  /** Encoding distributes over concatenation. */
  lemma {:induction false} EncodeAppend(s: string, t: string)
    ensures Encode(s + t) == Encode(s) + Encode(t)
  {
    if s == [] {
      assert s + t == t;
    } else {
      assert (s + t)[0] == s[0];
      assert (s + t)[1..] == s[1..] + t;
      EncodeAppend(s[1..], t);
    }
  }

  /** A string of ASCII characters encodes to one byte per character, with the same value. */
  lemma {:induction false} EncodeAscii(s: string)
    requires forall i :: 0 <= i < |s| ==> s[i] as int < 0x80
    ensures |Encode(s)| == |s|
    ensures forall i :: 0 <= i < |s| ==> Encode(s)[i] == s[i] as int
  {
    if s != [] {
      EncodeAscii(s[1..]);
      assert forall i :: 1 <= i < |s| ==> Encode(s)[i] == Encode(s[1..])[i - 1];
    }
  }

  /**
   * A text followed by an ASCII suffix: the text's bytes, then one byte per
   * suffix character with that character's value.
   */
  lemma {:induction false} EncodeAsciiSuffix(s: string, suffix: string)
    requires forall i :: 0 <= i < |suffix| ==> suffix[i] as int < 0x80
    ensures var e, r := Encode(s), Encode(s + suffix);
      |r| == |e| + |suffix| && r[..|e|] == e &&
      forall i :: 0 <= i < |suffix| ==> r[|e| + i] == suffix[i] as int
  {
    EncodeAppend(s, suffix);
    EncodeAscii(suffix);
    var e, m := Encode(s), Encode(suffix);
    assert (e + m)[..|e|] == e;
    assert forall i :: 0 <= i < |suffix| ==> (e + m)[|e| + i] == m[i];
  }

  /** Decoding undoes encoding. */
  lemma {:induction false} DecodeEncode(s: string)
    ensures Decode(Encode(s)) == Some(s)
  {
    if s != [] {
      var e, tail := EncodeChar(s[0]), Encode(s[1..]);
      DecodeFirstEncodeChar(s[0], tail);
      assert Encode(s) == e + tail;
      assert (e + tail)[|e|..] == tail;
      DecodeEncode(s[1..]);
      assert [s[0]] + s[1..] == s;
    }
  }

  /** Encoding undoes decoding: the decoder accepts only shortest-form encodings. */
  lemma {:induction false} EncodeDecode(b: seq<byte>, s: string)
    requires Decode(b) == Some(s)
    ensures Encode(s) == b
    decreases |b|
  {
    if b != [] {
      var first := DecodeFirst(b).value;
      var c, n := first.0, first.1;
      DecodeFirstSound(b);
      var rest := Decode(b[n..]).value;
      EncodeDecode(b[n..], rest);
      assert s == [c] + rest;
      assert s[1..] == rest;
      assert b == b[..n] + b[n..];
    }
  }

  /** Decode and Encode are inverse to each other, in both directions. */
  lemma {:induction false} DecodeIffEncode(b: seq<byte>, s: string)
    ensures Decode(b) == Some(s) <==> Encode(s) == b
  {
    if Decode(b) == Some(s) {
      EncodeDecode(b, s);
    }
    if Encode(s) == b {
      DecodeEncode(s);
    }
  }
}
