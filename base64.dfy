/**
 * The base64 encoding of RFC 4648, section 4 (standard alphabet, with
 * padding), which Node's `digest("base64")` produces.  The decoder is the
 * inverse against which the encoder is proved; it accepts exactly the
 * canonical encodings (pad bits zero, padding only at the end).
 *
 * Lemmas here carry `{:induction false}`: the recursive ones spell out their
 * induction, and on the others it stops Dafny from adding induction
 * hypotheses the proofs do not use, which only slow the solver down.
 */
module Base64 {
  import opened Wrappers
  import opened Octets

  /** The pad character. */
  const Pad: char := '='

  /** Membership in the 64-character alphabet of RFC 4648, Table 1. */
  predicate IsAlphabetChar(c: char) {
    ('A' <= c <= 'Z') || ('a' <= c <= 'z') || ('0' <= c <= '9') || c == '+' || c == '/'
  }

  /** The character that stands for a 6-bit value (RFC 4648, Table 1). */
  function CharOf(v: int): (c: char)
    requires 0 <= v < 64
    ensures IsAlphabetChar(c) && c != Pad
  {
    if v < 26 then ('A' as int + v) as char
    else if v < 52 then ('a' as int + (v - 26)) as char
    else if v < 62 then ('0' as int + (v - 52)) as char
    else if v == 62 then '+'
    else '/'
  }

  /** The 6-bit value an alphabet character stands for. */
  function ValueOf(c: char): (v: int)
    requires IsAlphabetChar(c)
    ensures 0 <= v < 64 && CharOf(v) == c
  {
    if 'A' <= c <= 'Z' then c as int - 'A' as int
    else if 'a' <= c <= 'z' then c as int - 'a' as int + 26
    else if '0' <= c <= '9' then c as int - '0' as int + 52
    else if c == '+' then 62
    else 63
  }

  /** CharOf is one-to-one: ValueOf recovers the value. */
  lemma ValueOfCharOf(v: int)
    requires 0 <= v < 64
    ensures ValueOf(CharOf(v)) == v
  {
  }

  /** Three input bytes (one 24-bit group) become four characters. */
  function EncodeGroup(a: byte, b: byte, c: byte): (r: seq<char>)
    ensures |r| == 4 && forall i :: 0 <= i < 4 ==> IsAlphabetChar(r[i])
  {
    [CharOf(a / 4), CharOf(a % 4 * 16 + b / 16), CharOf(b % 16 * 4 + c / 64), CharOf(c % 64)]
  }

  /**
   * The final quantum of one or two bytes: two or three characters, the
   * missing bits taken as zero, then "==" or "=".
   */
  function EncodeFinal(tail: seq<byte>): (r: seq<char>)
    requires |tail| == 1 || |tail| == 2
    ensures |r| == 4 && IsAlphabetChar(r[0]) && IsAlphabetChar(r[1]) && r[3] == Pad
    ensures r[2] == Pad <==> |tail| == 1
    ensures r[2] != Pad ==> IsAlphabetChar(r[2])
  {
    if |tail| == 1 then
      [CharOf(tail[0] / 4), CharOf(tail[0] % 4 * 16), Pad, Pad]
    else
      [CharOf(tail[0] / 4), CharOf(tail[0] % 4 * 16 + tail[1] / 16), CharOf(tail[1] % 16 * 4), Pad]
  }

  /** The base64 text of a byte sequence. */
  function Encode(b: seq<byte>): (r: seq<char>)
    ensures |r| == 4 * ((|b| + 2) / 3)
    ensures forall i :: 0 <= i < |r| ==> IsAlphabetChar(r[i]) || r[i] == Pad
    decreases |b|
  {
    if |b| == 0 then []
    else if |b| < 3 then EncodeFinal(b)
    else EncodeGroup(b[0], b[1], b[2]) + Encode(b[3..])
  }

  /** The number of pad characters RFC 4648 prescribes for an input of n bytes. */
  function PadCount(n: nat): nat
  {
    (3 - n % 3) % 3
  }

  /** A full group of three bytes does not change the padding. */
  lemma PadCountAfterGroup(n: nat)
    requires n >= 3
    ensures PadCount(n - 3) == PadCount(n)
  {
  }

  /** Bytes from four characters of a full group, none of them padding. */
  function DecodeGroup(s: seq<char>): (r: Option<seq<byte>>)
    requires |s| == 4
  {
    if IsAlphabetChar(s[0]) && IsAlphabetChar(s[1]) && IsAlphabetChar(s[2]) && IsAlphabetChar(s[3]) then
      var v0, v1, v2, v3 := ValueOf(s[0]), ValueOf(s[1]), ValueOf(s[2]), ValueOf(s[3]);
      Some([v0 * 4 + v1 / 16, v1 % 16 * 16 + v2 / 4, v2 % 4 * 64 + v3])
    else None
  }

  /** Bytes from the last four characters, which may end in "=" or "==". */
  function DecodeFinal(s: seq<char>): (r: Option<seq<byte>>)
    requires |s| == 4
  {
    if s[2] == Pad && s[3] == Pad then
      if IsAlphabetChar(s[0]) && IsAlphabetChar(s[1]) && ValueOf(s[1]) % 16 == 0 then
        Some([ValueOf(s[0]) * 4 + ValueOf(s[1]) / 16])
      else None
    else if s[3] == Pad then
      if IsAlphabetChar(s[0]) && IsAlphabetChar(s[1]) && IsAlphabetChar(s[2]) && ValueOf(s[2]) % 4 == 0 then
        var v0, v1, v2 := ValueOf(s[0]), ValueOf(s[1]), ValueOf(s[2]);
        Some([v0 * 4 + v1 / 16, v1 % 16 * 16 + v2 / 4])
      else None
    else DecodeGroup(s)
  }

  /** The bytes a base64 text stands for, or None if the text is not canonical base64. */
  function Decode(s: seq<char>): (r: Option<seq<byte>>)
    decreases |s|
  {
    if |s| == 0 then Some([])
    else if |s| < 4 then None
    else if |s| == 4 then DecodeFinal(s)
    else
      match DecodeGroup(s[..4])
      case None => None
      case Some(g) =>
        match Decode(s[4..])
        case None => None
        case Some(rest) => Some(g + rest)
  }

  /** The first byte of a group splits into its top six and low two bits. */
  lemma FirstByteDigits(v0: int, v1: int)
    requires 0 <= v0 < 64 && 0 <= v1 < 64
    ensures (v0 * 4 + v1 / 16) / 4 == v0 && (v0 * 4 + v1 / 16) % 4 == v1 / 16
  {
  }

  /** The second byte of a group splits into two four-bit halves. */
  lemma SecondByteDigits(v1: int, v2: int)
    requires 0 <= v1 < 64 && 0 <= v2 < 64
    ensures (v1 % 16 * 16 + v2 / 4) / 16 == v1 % 16 && (v1 % 16 * 16 + v2 / 4) % 16 == v2 / 4
  {
  }

  /** The third byte of a group splits into its top two and low six bits. */
  lemma ThirdByteDigits(v2: int, v3: int)
    requires 0 <= v2 < 64 && 0 <= v3 < 64
    ensures (v2 % 4 * 64 + v3) / 64 == v2 % 4 && (v2 % 4 * 64 + v3) % 64 == v3
  {
  }

  /** Three bytes cut into four 6-bit digits are put back together by the decoder's formulas. */
  lemma SplitGroupDigits(a: byte, b: byte, c: byte)
    ensures var v0, v1, v2, v3 := a / 4, a % 4 * 16 + b / 16, b % 16 * 4 + c / 64, c % 64;
      0 <= v0 < 64 && 0 <= v1 < 64 && 0 <= v2 < 64 && 0 <= v3 < 64 &&
      v0 * 4 + v1 / 16 == a && v1 % 16 * 16 + v2 / 4 == b && v2 % 4 * 64 + v3 == c
  {
    var v1, v2 := a % 4 * 16 + b / 16, b % 16 * 4 + c / 64;
    assert v1 / 16 == a % 4 && v1 % 16 == b / 16;
    assert v2 / 4 == b % 16 && v2 % 4 == c / 64;
  }

  /** Four 6-bit digits packed into three bytes are cut back into the same digits. */
  lemma JoinGroupDigits(v0: int, v1: int, v2: int, v3: int)
    requires 0 <= v0 < 64 && 0 <= v1 < 64 && 0 <= v2 < 64 && 0 <= v3 < 64
    ensures var a, b, c := v0 * 4 + v1 / 16, v1 % 16 * 16 + v2 / 4, v2 % 4 * 64 + v3;
      0 <= a < 256 && 0 <= b < 256 && 0 <= c < 256 &&
      a / 4 == v0 && a % 4 * 16 + b / 16 == v1 && b % 16 * 4 + c / 64 == v2 && c % 64 == v3
  {
    FirstByteDigits(v0, v1);
    SecondByteDigits(v1, v2);
    ThirdByteDigits(v2, v3);
    assert v1 / 16 * 16 + v1 % 16 == v1;
    assert v2 / 4 * 4 + v2 % 4 == v2;
  }

  /** Decoding the group encoding the first three bytes of b gives back those bytes. */
  lemma {:induction false} GroupRoundTrip(b: seq<byte>)
    requires |b| >= 3
    ensures DecodeGroup(EncodeGroup(b[0], b[1], b[2])) == Some(b[..3])
  {
    var x, y, z := b[0], b[1], b[2];
    var v0, v1, v2, v3 := x / 4, x % 4 * 16 + y / 16, y % 16 * 4 + z / 64, z % 64;
    SplitGroupDigits(x, y, z);
    ValueOfCharOf(v0);
    ValueOfCharOf(v1);
    ValueOfCharOf(v2);
    ValueOfCharOf(v3);
    var r := DecodeGroup(EncodeGroup(x, y, z)).value;
    assert |r| == 3 && r[0] == b[0] && r[1] == b[1] && r[2] == b[2];
    assert r == b[..3];
  }

  /** Decoding a padded final quantum gives back its one or two bytes. */
  lemma {:induction false} FinalRoundTrip(tail: seq<byte>)
    requires |tail| == 1 || |tail| == 2
    ensures DecodeFinal(EncodeFinal(tail)) == Some(tail)
  {
    var a := tail[0];
    ValueOfCharOf(a / 4);
    if |tail| == 1 {
      ValueOfCharOf(a % 4 * 16);
      assert (a % 4 * 16) / 16 == a % 4 && (a % 4 * 16) % 16 == 0;
      assert [a] == tail;
    } else {
      var b := tail[1];
      SplitGroupDigits(a, b, 0);
      ValueOfCharOf(a % 4 * 16 + b / 16);
      ValueOfCharOf(b % 16 * 4);
      assert [a, b] == tail;
    }
  }

  /** Whatever DecodeGroup accepts is the encoding of the bytes it returns. */
  lemma {:induction false} GroupSound(s: seq<char>)
    requires |s| == 4 && DecodeGroup(s).Some?
    ensures |DecodeGroup(s).value| == 3
    ensures var g := DecodeGroup(s).value; EncodeGroup(g[0], g[1], g[2]) == s
  {
    var v0, v1, v2, v3 := ValueOf(s[0]), ValueOf(s[1]), ValueOf(s[2]), ValueOf(s[3]);
    JoinGroupDigits(v0, v1, v2, v3);
    var a, b, c := v0 * 4 + v1 / 16, v1 % 16 * 16 + v2 / 4, v2 % 4 * 64 + v3;
    assert DecodeGroup(s).value == [a, b, c];
    var e := EncodeGroup(a, b, c);
    assert e[0] == s[0] && e[1] == s[1] && e[2] == s[2] && e[3] == s[3];
  }

  /** The "==" form of the final quantum is the encoding of the one byte it decodes to. */
  lemma {:induction false} FinalSoundOneByte(s: seq<char>)
    requires |s| == 4 && s[2] == Pad && s[3] == Pad && DecodeFinal(s).Some?
    ensures |DecodeFinal(s).value| == 1 && EncodeFinal(DecodeFinal(s).value) == s
  {
    var v0, v1 := ValueOf(s[0]), ValueOf(s[1]);
    FirstByteDigits(v0, v1);
    assert v1 / 16 * 16 == v1;
  }

  /** Three digits whose last two bits are zero pack into two bytes that are cut back into them. */
  lemma JoinTwoByteDigits(v0: int, v1: int, v2: int)
    requires 0 <= v0 < 64 && 0 <= v1 < 64 && 0 <= v2 < 64 && v2 % 4 == 0
    ensures var a, b := v0 * 4 + v1 / 16, v1 % 16 * 16 + v2 / 4;
      0 <= a < 256 && 0 <= b < 256 && a / 4 == v0 && a % 4 * 16 + b / 16 == v1 && b % 16 * 4 == v2
  {
    JoinGroupDigits(v0, v1, v2, 0);
  }

  /** The "=" form of the final quantum is the encoding of the two bytes it decodes to. */
  lemma {:induction false} FinalSoundTwoBytes(s: seq<char>)
    requires |s| == 4 && s[2] != Pad && s[3] == Pad && DecodeFinal(s).Some?
    ensures |DecodeFinal(s).value| == 2 && EncodeFinal(DecodeFinal(s).value) == s
  {
    var v0, v1, v2 := ValueOf(s[0]), ValueOf(s[1]), ValueOf(s[2]);
    JoinTwoByteDigits(v0, v1, v2);
    var a, b := v0 * 4 + v1 / 16, v1 % 16 * 16 + v2 / 4;
    var t := DecodeFinal(s).value;
    assert t == [a, b];
    var e := EncodeFinal(t);
    assert e[0] == s[0] && e[1] == s[1] && e[2] == s[2] && e[3] == s[3];
  }

  /** Whatever DecodeFinal accepts is the encoding of the bytes it returns. */
  lemma {:induction false} FinalSound(s: seq<char>)
    requires |s| == 4 && DecodeFinal(s).Some?
    ensures 1 <= |DecodeFinal(s).value| <= 3
    ensures var t := DecodeFinal(s).value; (if |t| == 3 then EncodeGroup(t[0], t[1], t[2]) else EncodeFinal(t)) == s
  {
    if s[2] == Pad && s[3] == Pad {
      FinalSoundOneByte(s);
    } else if s[3] == Pad {
      FinalSoundTwoBytes(s);
    } else {
      GroupSound(s);
    }
  }

  /** A full group in front of a decodable text contributes its bytes in front. */
  lemma {:induction false} DecodeAfterGroup(g: seq<char>, rest: seq<char>, x: seq<byte>, y: seq<byte>)
    requires |g| == 4 && |rest| > 0
    requires DecodeGroup(g) == Some(x) && Decode(rest) == Some(y)
    ensures Decode(g + rest) == Some(x + y)
  {
    assert (g + rest)[..4] == g;
    assert (g + rest)[4..] == rest;
  }

  /** Decoding undoes encoding, for inputs of at most three bytes. */
  lemma {:induction false} DecodeEncodeShort(b: seq<byte>)
    requires |b| <= 3
    ensures Decode(Encode(b)) == Some(b)
  {
    if 0 < |b| < 3 {
      FinalRoundTrip(b);
    } else if |b| == 3 {
      var g := EncodeGroup(b[0], b[1], b[2]);
      GroupRoundTrip(b);
      assert Encode(b) == g + [];
      assert g + [] == g;
      assert g[3] != Pad;
      assert b[..3] == b;
    }
  }

  /** Decoding undoes encoding for the first group, given that it does for the rest. */
  lemma {:induction false} DecodeEncodeStep(b: seq<byte>)
    requires |b| > 3 && Decode(Encode(b[3..])) == Some(b[3..])
    ensures Decode(Encode(b)) == Some(b)
  {
    GroupRoundTrip(b);
    DecodeAfterGroup(EncodeGroup(b[0], b[1], b[2]), Encode(b[3..]), b[..3], b[3..]);
    assert b[..3] + b[3..] == b;
  }

  /** Decoding undoes encoding. */
  lemma {:induction false} DecodeEncode(b: seq<byte>)
    ensures Decode(Encode(b)) == Some(b)
    decreases |b|
  {
    if |b| <= 3 {
      DecodeEncodeShort(b);
    } else {
      DecodeEncode(b[3..]);
      DecodeEncodeStep(b);
    }
  }

  /** Encoding undoes decoding: Decode accepts only what Encode produces. */
  lemma {:induction false} EncodeDecode(s: seq<char>, b: seq<byte>)
    requires Decode(s) == Some(b)
    ensures Encode(b) == s
    decreases |s|
  {
    if |s| == 4 {
      FinalSound(s);
    } else if |s| > 4 {
      var g := DecodeGroup(s[..4]).value;
      var rest := Decode(s[4..]).value;
      GroupSound(s[..4]);
      EncodeDecode(s[4..], rest);
      assert b == g + rest;
      assert b[3..] == rest;
      assert s == s[..4] + s[4..];
    }
  }

  /** Decode and Encode are inverse to each other, in both directions. */
  lemma {:induction false} DecodeIffEncode(s: seq<char>, b: seq<byte>)
    ensures Decode(s) == Some(b) <==> Encode(b) == s
  {
    if Decode(s) == Some(b) {
      EncodeDecode(s, b);
    }
    if Encode(b) == s {
      DecodeEncode(b);
    }
  }

  /** Text with n trailing pads and none before them. */
  predicate PaddedExactly(r: seq<char>, n: nat) {
    n <= |r| && forall i :: 0 <= i < |r| ==> (r[i] == Pad <==> i >= |r| - n)
  }

  /** Putting four non-pad characters in front keeps the trailing padding as it is. */
  lemma {:induction false} PaddedAfterGroup(g: seq<char>, rest: seq<char>, n: nat)
    requires |g| == 4 && forall i :: 0 <= i < 4 ==> g[i] != Pad
    requires PaddedExactly(rest, n)
    ensures PaddedExactly(g + rest, n)
  {
    assert forall i :: 4 <= i < |g + rest| ==> (g + rest)[i] == rest[i - 4];
  }

  /** A final quantum of one byte ends in two pads, one of two bytes in one pad. */
  lemma {:induction false} FinalPadding(tail: seq<byte>)
    requires |tail| == 1 || |tail| == 2
    ensures PaddedExactly(EncodeFinal(tail), 3 - |tail|)
  {
    var r := EncodeFinal(tail);
    assert r[0] != Pad && r[1] != Pad && r[3] == Pad;
    assert r[2] == Pad <==> |tail| == 1;
  }

  /**
   * The output ends in exactly PadCount(|b|) pad characters, and no other
   * character of it is a pad.
   */
  lemma {:induction false} EncodePadding(b: seq<byte>)
    ensures PaddedExactly(Encode(b), PadCount(|b|))
    decreases |b|
  {
    if 0 < |b| < 3 {
      FinalPadding(b);
      assert Encode(b) == EncodeFinal(b) && PadCount(|b|) == 3 - |b|;
    } else if |b| >= 3 {
      var g, rest := EncodeGroup(b[0], b[1], b[2]), Encode(b[3..]);
      EncodePadding(b[3..]);
      PadCountAfterGroup(|b|);
      assert forall i :: 0 <= i < 4 ==> g[i] != Pad;
      PaddedAfterGroup(g, rest, PadCount(|b|));
      assert Encode(b) == g + rest;
    }
  }

  /** A SHA-1 digest (20 bytes) encodes to 28 characters, the last one a single pad. */
  lemma {:induction false} DigestEncoding(d: seq<byte>)
    requires |d| == 20
    ensures |Encode(d)| == 28
    ensures Encode(d)[27] == Pad && Encode(d)[26] != Pad
    ensures forall i :: 0 <= i < 27 ==> IsAlphabetChar(Encode(d)[i])
  {
    EncodePadding(d);
  }

  /** The digest from the sample handshake of RFC 6455, section 1.3. */
  const Rfc6455SampleDigest: seq<byte> :=
    [0xb3, 0x7a, 0x4f, 0x2c, 0xc0, 0x62, 0x4f, 0x16, 0x90, 0xf6,
     0x46, 0x06, 0xcf, 0x38, 0x59, 0x45, 0xb2, 0xbe, 0xc4, 0xea]

  /** Encode on three or more bytes: the first group, then the rest. */
  lemma {:induction false} EncodeFirstGroup(b: seq<byte>, t: seq<char>)
    requires |b| >= 3 && Encode(b[3..]) == t
    ensures Encode(b) == EncodeGroup(b[0], b[1], b[2]) + t
  {
  }

  /** The first three quanta of the sample digest, one by one. */
  lemma Rfc6455SampleFirstQuanta()
    ensures EncodeGroup(0xb3, 0x7a, 0x4f) == "s3pP"
    ensures EncodeGroup(0x2c, 0xc0, 0x62) == "LMBi"
    ensures EncodeGroup(0x4f, 0x16, 0x90) == "TxaQ"
  {
  }

  /** The next three quanta of the sample digest, one by one. */
  lemma Rfc6455SampleLastQuanta()
    ensures EncodeGroup(0xf6, 0x46, 0x06) == "9kYG"
    ensures EncodeGroup(0xcf, 0x38, 0x59) == "zzhZ"
    ensures EncodeGroup(0x45, 0xb2, 0xbe) == "RbK+"
  {
  }

  /** The final quantum of the sample digest: two bytes, one pad. */
  lemma Rfc6455SampleFinalQuantum()
    ensures Encode([0xc4, 0xea]) == "xOo="
  {
  }

  /** The sample digest encodes quantum by quantum. */
  lemma Rfc6455SampleQuantaJoined()
    ensures Encode(Rfc6455SampleDigest) ==
      "s3pP" + ("LMBi" + ("TxaQ" + ("9kYG" + ("zzhZ" + ("RbK+" + "xOo=")))))
  {
    var d := Rfc6455SampleDigest;
    Rfc6455SampleFirstQuanta();
    Rfc6455SampleLastQuanta();
    Rfc6455SampleFinalQuantum();
    assert d[18..] == [0xc4, 0xea];
    assert d[15..][3..] == d[18..];
    assert d[12..][3..] == d[15..];
    assert d[9..][3..] == d[12..];
    assert d[6..][3..] == d[9..];
    assert d[3..][3..] == d[6..];
    EncodeFirstGroup(d[15..], "xOo=");
    EncodeFirstGroup(d[12..], "RbK+" + "xOo=");
    EncodeFirstGroup(d[9..], "zzhZ" + ("RbK+" + "xOo="));
    EncodeFirstGroup(d[6..], "9kYG" + ("zzhZ" + ("RbK+" + "xOo=")));
    EncodeFirstGroup(d[3..], "TxaQ" + ("9kYG" + ("zzhZ" + ("RbK+" + "xOo="))));
    EncodeFirstGroup(d, "LMBi" + ("TxaQ" + ("9kYG" + ("zzhZ" + ("RbK+" + "xOo=")))));
  }

  /** Its base64 text is the Sec-WebSocket-Accept value RFC 6455 gives for that sample. */
  lemma Rfc6455SampleAccept()
    ensures Encode(Rfc6455SampleDigest) == "s3pPLMBiTxaQ9kYGzzhZRbK+xOo="
  {
    Rfc6455SampleQuantaJoined();
    Rfc6455SampleText(Encode(Rfc6455SampleDigest));
  }

  /** The seven quanta spell out the accept value of the sample. */
  lemma {:induction false} Rfc6455SampleText(t: seq<char>)
    requires t == "s3pP" + ("LMBi" + ("TxaQ" + ("9kYG" + ("zzhZ" + ("RbK+" + "xOo=")))))
    ensures t == "s3pPLMBiTxaQ9kYGzzhZRbK+xOo="
  {
  }
}
