/**
 * The server's answer to a WebSocket opening handshake (RFC 6455, section
 * 4.2.2): the Sec-WebSocket-Accept value derived from the client's key, and
 * the "101 Switching Protocols" response head that carries it.
 *
 * Lemmas here carry `{:induction false}`: the recursive ones spell out their
 * induction, and on the others it stops Dafny from adding induction
 * hypotheses the proofs do not use, which only slow the solver down.
 */
module Handshake {
  import opened Wrappers
  import opened Octets
  import Utf8
  import Base64
  import Lines

  /** The GUID RFC 6455 (section 1.3) appends to the client's key. */
  const WebSocketMagicString: string := "258EAFA5-E914-47DA-95CA-C5AB0DC85B11"

  const Crlf: string := Lines.Crlf
  const StatusLine: string := "HTTP/1.1 101 Switching Protocols"
  const UpgradeLine: string := "Upgrade: websocket"
  const ConnectionLine: string := "Connection: Upgrade"
  const AcceptFieldName: string := "Sec-WebSocket-Accept: "

  /** A SHA-1 digest: 160 bits. */
  type Digest = d: seq<byte> | |d| == 20 witness seq(20, _ => 0)

  /**
   * SHA-1 (FIPS 180-4) as the host's crypto library computes it.  Its
   * internals are outside the model; all that is used is that it is a
   * function of its input and yields 20 bytes.
   */
  type Sha1 = seq<byte> -> Digest

  /**
   * The value of the client's Sec-WebSocket-Key header as the server reads
   * it: the header's text, or JavaScript's `undefined` when it is absent.
   */
  datatype KeyHeader = Undefined | Present(value: string)

  /**
   * The text `key + ...` puts first: string concatenation turns `undefined`
   * into "undefined", so an absent header cannot be told apart from a
   * client that sends the nine characters "undefined".
   */
  function KeyText(key: KeyHeader): (text: string)
    ensures text == "undefined" <==> key == Undefined || key == Present("undefined")
  {
    match key
    case Undefined => "undefined"
    case Present(v) => v
  }

  /** The GUID is 36 characters of plain ASCII. */
  lemma MagicStringIsAscii()
    ensures |WebSocketMagicString| == 36
    ensures forall i :: 0 <= i < |WebSocketMagicString| ==> WebSocketMagicString[i] as int < 0x80
  {
  }

  /**
   * The bytes handed to SHA-1: the UTF-8 encoding of the key immediately
   * followed by the 36 bytes of the GUID, with no separator.
   */
  function HashInput(key: KeyHeader): (r: seq<byte>)
    ensures var k := Utf8.Encode(KeyText(key));
      |r| == |k| + 36 && r[..|k|] == k &&
      forall i :: 0 <= i < 36 ==> r[|k| + i] == WebSocketMagicString[i] as int
  {
    MagicStringIsAscii();
    Utf8.EncodeAsciiSuffix(KeyText(key), WebSocketMagicString);
    Utf8.Encode(KeyText(key) + WebSocketMagicString)
  }

  /**
   * For a key of plain ASCII text the hash input is one byte per character,
   * with the character's code, then the 36 bytes of the GUID.
   */
  lemma {:induction false} AsciiKeyHashInput(key: KeyHeader)
    requires forall i :: 0 <= i < |KeyText(key)| ==> KeyText(key)[i] as int < 0x80
    ensures |HashInput(key)| == |KeyText(key)| + 36
    ensures forall i :: 0 <= i < |KeyText(key)| ==> HashInput(key)[i] == KeyText(key)[i] as int
  {
    Utf8.EncodeAscii(KeyText(key));
    var k := Utf8.Encode(KeyText(key));
    assert forall i :: 0 <= i < |k| ==> HashInput(key)[i] == HashInput(key)[..|k|][i];
  }

  /**
   * With no Sec-WebSocket-Key header the hash input is that of the nine
   * characters "undefined", followed by the 36 of the GUID; no error is
   * raised.
   */
  lemma UndefinedKeyHashInput()
    ensures HashInput(Undefined) == HashInput(Present("undefined"))
  {
  }

  /**
   * The Sec-WebSocket-Accept value: the base64 text of the SHA-1 digest of
   * the key followed by the GUID.  It decodes back to exactly that digest,
   * and as a digest is 20 bytes it is 28 characters ending in one pad.
   */
  function CreateSocketAccept(key: KeyHeader, sha1: Sha1): (accept: string)
    ensures Base64.Decode(accept) == Some(sha1(HashInput(key)))
    ensures |accept| == 28 && accept[27] == '=' && accept[26] != '='
    ensures forall i :: 0 <= i < 27 ==> Base64.IsAlphabetChar(accept[i])
  {
    var digest := sha1(HashInput(key));
    Base64.DecodeEncode(digest);
    Base64.DigestEncoding(digest);
    Base64.Encode(digest)
  }

  /**
   * The five lines of the response head, in order; the last one is empty.
   * The fixed lines hold no CR, so no line does exactly when the accept
   * value does not.
   */
  function HeaderLines(accept: string): (lines: seq<string>)
    ensures |lines| == 5 && lines[4] == ""
    ensures (forall i :: 0 <= i < 5 ==> Lines.NoCr(lines[i])) <==> Lines.NoCr(accept)
  {
    assert Lines.NoCr(StatusLine) && Lines.NoCr(UpgradeLine) && Lines.NoCr(ConnectionLine);
    assert Lines.NoCr(AcceptFieldName) && Lines.NoCr("");
    Lines.NoCrAppend(AcceptFieldName, accept);
    var lines := [StatusLine, UpgradeLine, ConnectionLine, AcceptFieldName + accept, ""];
    assert lines[3] == AcceptFieldName + accept;
    lines
  }

  /**
   * The response head written back on the socket: each of the five lines
   * with CRLF appended, concatenated.  Any key, the absent one included,
   * yields one, and a client splitting it at its CRLFs reads back exactly
   * the five lines, in order.
   */
  function PrepareHandShakeHeaders(key: KeyHeader, sha1: Sha1): (response: string)
    ensures Lines.SplitLines(response) == Some(HeaderLines(CreateSocketAccept(key, sha1)))
  {
    var accept := CreateSocketAccept(key, sha1);
    Base64HasNoCr(accept);
    Lines.SplitConcat(HeaderLines(accept));
    Lines.Concat(Lines.AppendCrlfToEach(HeaderLines(accept)))
  }

  /** Base64 text never contains a carriage return. */
  lemma {:induction false} Base64HasNoCr(text: string)
    requires forall i :: 0 <= i < |text| ==> Base64.IsAlphabetChar(text[i]) || text[i] == Base64.Pad
    ensures Lines.NoCr(text)
  {
  }

  /**
   * The response text: the status line, Upgrade, Connection, the accept
   * field, each with its CRLF, then the CRLF of the empty line.
   */
  lemma {:induction false} ResponseText(key: KeyHeader, sha1: Sha1)
    ensures PrepareHandShakeHeaders(key, sha1) ==
      StatusLine + Crlf + UpgradeLine + Crlf + ConnectionLine + Crlf
      + AcceptFieldName + CreateSocketAccept(key, sha1) + Crlf + Crlf
  {
    var accept := CreateSocketAccept(key, sha1);
    var head := StatusLine + Crlf + UpgradeLine + Crlf + ConnectionLine + Crlf;
    Lines.WriteHead(StatusLine, UpgradeLine, ConnectionLine, AcceptFieldName + accept);
    assert head + (AcceptFieldName + accept) == head + AcceptFieldName + accept;
  }

  /** The text that follows a prefix of known length. */
  lemma {:induction false} AfterPrefix(prefix: string, value: string, suffix: string, text: string)
    requires text == prefix + value + suffix
    ensures text[..|prefix|] == prefix
    ensures text[|prefix|..] == value + suffix
    ensures text[|prefix|..|prefix| + |value|] == value
  {
    assert text == prefix + (value + suffix);
  }

  /** The response begins with the status line and its CRLF. */
  lemma {:induction false} ResponseStartsWithStatusLine(key: KeyHeader, sha1: Sha1)
    ensures var response := PrepareHandShakeHeaders(key, sha1);
      |response| >= 34 && response[..34] == StatusLine + Crlf
  {
    var lines := HeaderLines(CreateSocketAccept(key, sha1));
    Lines.WriteFirstLine(lines);
    AfterPrefix(StatusLine + Crlf, Lines.Concat(Lines.AppendCrlfToEach(lines[1..])), [], PrepareHandShakeHeaders(key, sha1));
  }

  /** The response ends with the CRLF of the accept line and that of the empty line. */
  lemma {:induction false} ResponseEndsWithBlankLine(key: KeyHeader, sha1: Sha1)
    ensures var response := PrepareHandShakeHeaders(key, sha1);
      |response| >= 4 && response[|response| - 4..] == Crlf + Crlf
  {
    ResponseText(key, sha1);
    EndsWithBlankLine(StatusLine + Crlf + UpgradeLine + Crlf + ConnectionLine + Crlf + AcceptFieldName + CreateSocketAccept(key, sha1),
      PrepareHandShakeHeaders(key, sha1));
  }

  /** A text that ends with two CRLFs ends with CRLF CRLF. */
  lemma {:induction false} EndsWithBlankLine(front: string, text: string)
    requires text == front + Crlf + Crlf
    ensures |text| >= 4 && text[|text| - 4..] == Crlf + Crlf
  {
    assert text == front + (Crlf + Crlf);
  }

  /** The response is the 101 characters of fixed text plus the 28 of the accept value. */
  lemma {:induction false} ResponseLength(key: KeyHeader, sha1: Sha1)
    ensures |PrepareHandShakeHeaders(key, sha1)| == 101 + |CreateSocketAccept(key, sha1)| == 129
  {
    ResponseText(key, sha1);
  }

  /** In a head ending with a field and the blank line, the field's value runs up to the first CRLF after its name. */
  lemma {:induction false} FieldBeforeBlankLine(head: string, name: string, value: string, text: string)
    requires text == head + name + value + Crlf + Crlf && Lines.NoCr(value)
    ensures |text| >= |head| + |name| + |value| && text[|head|..|head| + |name|] == name
    ensures Lines.FindCrlf(text[|head| + |name|..]) == Some(|value|)
    ensures text[|head| + |name|..|head| + |name| + |value|] == value
  {
    var at := |head| + |name|;
    assert text == (head + name) + (value + Crlf + Crlf);
    assert text[at..] == value + Crlf + Crlf;
    assert text[..at] == head + name;
    assert text[|head|..at] == (head + name)[|head|..];
    Lines.FindCrlfAfterLine(value, Crlf);
  }

  /**
   * The text after "Sec-WebSocket-Accept: " and before the next CRLF is the
   * accept value, unchanged.
   */
  lemma {:induction false} AcceptFieldValue(key: KeyHeader, sha1: Sha1)
    ensures var response, accept := PrepareHandShakeHeaders(key, sha1), CreateSocketAccept(key, sha1);
      |response| >= 97 && response[75..97] == AcceptFieldName &&
      Lines.FindCrlf(response[97..]) == Some(|accept|) && response[97..97 + |accept|] == accept
  {
    var accept := CreateSocketAccept(key, sha1);
    ResponseText(key, sha1);
    Base64HasNoCr(accept);
    FieldBeforeBlankLine(StatusLine + Crlf + UpgradeLine + Crlf + ConnectionLine + Crlf,
      AcceptFieldName, accept, PrepareHandShakeHeaders(key, sha1));
  }

  /** The key of the sample handshake in RFC 6455, section 1.3. */
  const Rfc6455SampleKey: string := "dGhlIHNhbXBsZSBub25jZQ=="

  /**
   * The sample handshake of RFC 6455, section 1.3: when SHA-1 yields the
   * digest the RFC gives for its sample key, the accept value is
   * "s3pPLMBiTxaQ9kYGzzhZRbK+xOo=" and the response carries it.
   */
  lemma {:induction false} Rfc6455SampleHandshake(sha1: Sha1)
    requires sha1(HashInput(Present(Rfc6455SampleKey))) == Base64.Rfc6455SampleDigest
    ensures CreateSocketAccept(Present(Rfc6455SampleKey), sha1) == "s3pPLMBiTxaQ9kYGzzhZRbK+xOo="
    ensures PrepareHandShakeHeaders(Present(Rfc6455SampleKey), sha1) ==
      StatusLine + Crlf + UpgradeLine + Crlf + ConnectionLine + Crlf
      + AcceptFieldName + "s3pPLMBiTxaQ9kYGzzhZRbK+xOo=" + Crlf + Crlf
  {
    Base64.Rfc6455SampleAccept();
    ResponseText(Present(Rfc6455SampleKey), sha1);
  }
}
