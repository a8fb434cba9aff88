# WebSocket opening handshake: verified model

This project models the server side of the WebSocket opening handshake
(RFC 6455, section 4.2.2) as `server.mjs` implements it. When an HTTP
Upgrade request arrives, the server takes the client's `Sec-WebSocket-Key`
header and appends the GUID `258EAFA5-E914-47DA-95CA-C5AB0DC85B11`. It
hashes the result with SHA-1 and encodes the digest in base64, which gives
the `Sec-WebSocket-Accept` value. It then writes a
`101 Switching Protocols` response head carrying that value: four header
lines and an empty line, each ended by CRLF.

The model has one module per concern:

- `Wrappers`: the `Option` type.
- `Octets`: bytes, as the integers 0 to 255.
- `Utf8`: the UTF-8 encoding (RFC 3629) that Node's `hash.update(string)`
  applies to the key text. A strict decoder is its inverse, and both round
  trips are proved.
- `Base64`: the base64 encoding of RFC 4648, section 4, as produced by
  `digest("base64")`. The decoder accepts exactly the canonical texts, so
  decoding and encoding are proved inverse in both directions.
- `Lines`: the `.map(l => l.concat('\r\n'))` / `.join('')` writer. A
  CRLF line splitter is its inverse.
- `Handshake`: the GUID, `createSocketAccept`, `prepareHandShakeHeaders`,
  properties of the response text, and the sample handshake of RFC 6455,
  section 1.3.

SHA-1 is a parameter of type `seq<byte> -> Digest`, where a `Digest` is
any 20-byte sequence. Every result holds for whatever function is
supplied. The RFC sample is stated under the assumption that SHA-1 returns
the digest the RFC prints.

The header value the server reads is `KeyHeader`: either the header's text
or JavaScript's `undefined`. When the header is absent, `key + GUID`
concatenates the text "undefined". RFC 6455, section 4.2.1, expects the
header to be present, but the code does not check for it, so the absent
key is modelled as a real input rather than excluded by a precondition.

## Model

| member | source | states |
|---|---|---|
| Handshake.MagicStringIsAscii | server.mjs:5 | the GUID is 36 characters, all ASCII, so each becomes one byte |
| Handshake.KeyText | server.mjs:35 | the key text `+` puts first: it is "undefined" exactly when the header is absent or the client sent "undefined" itself, so the two cannot be told apart |
| Handshake.HashInput | server.mjs:35 | the bytes hashed are the UTF-8 encoding of the key text, followed directly by the 36 GUID bytes with no separator |
| Handshake.AsciiKeyHashInput | server.mjs:35 | for an ASCII key (such as a base64 nonce), the hash input has one byte per key character with that character's code, and is 36 bytes longer than the key |
| Handshake.UndefinedKeyHashInput | server.mjs:15-17 | with no Sec-WebSocket-Key header, the hash input is that of the text "undefined"; no error path exists |
| Handshake.CreateSocketAccept | server.mjs:33-36 | the accept value decodes (base64) to exactly the SHA-1 digest of the hash input; it is 28 characters: 27 alphabet characters and one trailing "=" |
| Handshake.PrepareHandShakeHeaders | server.mjs:21-31 | splitting the written response at its CRLFs gives back exactly the five lines, in order: status line, Upgrade, Connection, accept field, empty line; any key, absent included, yields a response |
| Handshake.HeaderLines | server.mjs:23-28 | the five lines of the array literal, the last one empty; no line contains a carriage return exactly when the accept value contains none, since the fixed lines contain none (with PrepareHandShakeHeaders and ResponseText fixing their order and text) |
| Handshake.ResponseText | server.mjs:23-30 | the response is the status line, Upgrade, Connection and the accept field, each followed by CRLF, then one more CRLF |
| Handshake.ResponseStartsWithStatusLine | server.mjs:24-30 | the response starts with "HTTP/1.1 101 Switching Protocols" and its CRLF |
| Handshake.ResponseEndsWithBlankLine | server.mjs:27-30 | the response ends with CRLF CRLF, which terminates the HTTP head |
| Handshake.ResponseLength | server.mjs:23-30 | the response is 101 fixed characters plus the accept value: 129 characters for every key |
| Handshake.AcceptFieldValue | server.mjs:27-30 | after "Sec-WebSocket-Accept: " at offset 75, the text up to the next CRLF is exactly the accept value |
| Handshake.Rfc6455SampleHandshake | server.mjs:21-36 | for the sample key "dGhlIHNhbXBsZSBub25jZQ==" with the RFC's digest, the accept value is "s3pPLMBiTxaQ9kYGzzhZRbK+xOo=" and the response carries it |
| Utf8.EncodeChar | server.mjs:35 | a character encodes to 1 to 4 bytes; one byte holding its value iff it is ASCII; later bytes are continuation bytes |
| Utf8.Encode | server.mjs:35 | a string encodes to between 1 and 4 bytes per character |
| Utf8.DecodeFirstEncodeChar | server.mjs:35 | the decoder reads back the first encoded character and its byte count |
| Utf8.DecodeFirstSound | server.mjs:35 | any character the decoder accepts is the shortest-form encoding of the character it returns |
| Utf8.EncodeAppend | server.mjs:35 | encoding `key + GUID` is encoding `key` followed by encoding the GUID |
| Utf8.EncodeAscii | server.mjs:35 | ASCII text encodes to one byte per character, with the same value |
| Utf8.EncodeAsciiSuffix | server.mjs:35 | the text's bytes come first, then one byte per character of an ASCII suffix |
| Utf8.DecodeEncode | server.mjs:35 | decoding the encoding of any string gives the string back |
| Utf8.EncodeDecode | server.mjs:35 | whatever the decoder accepts is the encoding of what it returns |
| Utf8.DecodeIffEncode | server.mjs:35 | Decode(b) == Some(s) exactly when Encode(s) == b |
| Base64.CharOf | server.mjs:35 | every 6-bit value maps to an alphabet character other than the pad |
| Base64.ValueOf | server.mjs:35 | the value of an alphabet character is below 64 and maps back to that character |
| Base64.EncodeGroup | server.mjs:35 | three bytes become four alphabet characters, none of them a pad (GroupRoundTrip decodes them back) |
| Base64.EncodeFinal | server.mjs:35 | a final one or two bytes become four characters: two or three alphabet characters, then "==" or "=" respectively (FinalRoundTrip decodes them back) |
| Base64.Encode | server.mjs:35 | the text has 4 characters per started group of 3 bytes, and every character is in the alphabet or is "=" |
| Base64.GroupRoundTrip | server.mjs:35 | a full 3-byte group decodes back from its 4 characters |
| Base64.FinalRoundTrip | server.mjs:35 | a final quantum of 1 or 2 bytes decodes back from its padded 4 characters |
| Base64.FinalSound | server.mjs:35 | any last quantum the decoder accepts is the encoding of the bytes it returns |
| Base64.DecodeEncode | server.mjs:35 | decoding the encoding of any byte sequence gives it back |
| Base64.EncodeDecode | server.mjs:35 | whatever the decoder accepts is the encoding of the bytes it returns |
| Base64.DecodeIffEncode | server.mjs:35 | Decode(s) == Some(b) exactly when Encode(b) == s |
| Base64.EncodePadding | server.mjs:35 | the text ends in exactly (3 - n mod 3) mod 3 pads for n bytes, and no other character is a pad |
| Base64.DigestEncoding | server.mjs:35 | a 20-byte digest encodes to 28 characters: 27 alphabet characters, then one "=" |
| Base64.Rfc6455SampleAccept | server.mjs:35 | the digest of the RFC 6455 sample encodes to "s3pPLMBiTxaQ9kYGzzhZRbK+xOo=" |
| Lines.AppendCrlfToEach | server.mjs:29 | the same number of lines, each being the original line followed by CRLF |
| Lines.ConcatAppend | server.mjs:30 | Concat, the `.join('')`, of two lists one after the other is the join of the first followed by the join of the second |
| Lines.FindCrlf | server.mjs:29-30 | returns the position of the first CR LF pair, or None exactly when there is none |
| Lines.WriteFirstLine | server.mjs:29-30 | the written lines are the first line and its CRLF, then the rest written |
| Lines.WriteHead | server.mjs:23-30 | four lines and the empty line are written as the four lines, each with CRLF, then a final CRLF |
| Lines.FindCrlfAfterLine | server.mjs:29-30 | in a line without CR, the first CRLF is the one appended to it |
| Lines.SplitConcat | server.mjs:29-30 | splitting Concat (the `.join('')`) of AppendCrlfToEach of lines that contain no CR gives back the same lines |
| Lines.ConcatSplit | server.mjs:29-30 | any text the splitter accepts is Concat (the `.join('')`) of AppendCrlfToEach of the lines it returns |

## Left out

- The plain HTTP server (server.mjs:7-12): listening on port 1337 and the `200` reply with "hey there" are I/O with no logic to model.
- Upgrade wiring and writing to the socket (server.mjs:14-19, 38): reading the header from `req.headers` is modelled only as its result, a `KeyHeader`. `socket.write` is the response string itself.
- Process-level error logging (server.mjs:40-45): console output only.
- SHA-1 (FIPS 180-4) internals: the hash comes from Node's crypto library, so it is a parameter and only its 20-byte output length is used.
- Lone UTF-16 surrogates in the key: JavaScript strings can contain them, and Node encodes them as U+FFFD. Dafny characters are Unicode scalar values, so such keys cannot be expressed.
- Repeated `Sec-WebSocket-Key` headers: joining them is done by Node's HTTP parser, which is not part of this model; the key is taken as the single text it yields.
- A frame codec (decoding masked client frames, encoding server frames): no such code exists in server.mjs. The only server code is the handshake, so there is nothing to model.
- Handshake.UndefinedKeyHashInput: states equality with the hash input of the text "undefined", not the 45 literal bytes. The byte-level content follows from Handshake.AsciiKeyHashInput and Handshake.HashInput.
