/** gRPC-Web framing (app/platform/net/grpc.go): the Length-Prefixed-Message of gRPC over HTTP/2, read
    back from a body that may be cut short. */
module GrpcFrames {
  import opened Wrappers
  import opened Text

  type Fields = map<string, string>

  datatype Response = Response(messages: seq<Bytes>, trailers: Fields)

  /** The decoders that framing relies on: standard base64, bytes to text, and percent escapes. */
  datatype Codec = Codec(base64: Bytes -> Option<Bytes>, text: Bytes -> string, unescape: string -> Option<string>)

  /** A response, or the error raised at a compressed frame; the response so far comes with it. */
  datatype Parsed = Complete(response: Response) | Compressed(response: Response) | BadBase64

  // ---- Encoding -----------------------------------------------------------

  /** The low 32 bits of a length, most significant byte first. */
  function BigEndian32(n: nat): (b: Bytes)
    ensures |b| == 4
  {
    [(n / 256 / 256 / 256 % 256) as byte, (n / 256 / 256 % 256) as byte, (n / 256 % 256) as byte, (n % 256) as byte]
  }

  function Length32(b: Bytes): (n: nat)
    requires |b| == 4
  {
    ((b[0] as int * 256 + b[1] as int) * 256 + b[2] as int) * 256 + b[3] as int
  }

  /** A length reads back exactly when it is below 2^32: at that size it wraps. */
  lemma LengthRoundTrip(n: nat)
    ensures Length32(BigEndian32(n)) == n <==> n < 0x1_0000_0000
    ensures Length32(BigEndian32(n)) <= n
    ensures n < 0x1_0000_0000 ==>
      var b := BigEndian32(n);
      n == 0x100_0000 * b[0] as int + 0x1_0000 * b[1] as int + 0x100 * b[2] as int + b[3] as int
  {
    var second := n / 256;
    var third := second / 256;
    assert n == second * 256 + n % 256 && second == third * 256 + second % 256;
    assert third == third / 256 * 256 + third % 256;
  }

  function Frame(flag: byte, payload: Bytes): Bytes {
    [flag] + BigEndian32(|payload|) + payload
  }

  method EncodePayload(data: Bytes) returns (frame: Bytes)
    ensures frame == Frame(0, data)
    ensures |frame| == 5 + |data| && frame[0] == 0 && frame[5..] == data
    ensures |data| < 0x1_0000_0000 ==>
      |data| == 0x100_0000 * frame[1] as int + 0x1_0000 * frame[2] as int + 0x100 * frame[3] as int + frame[4] as int
  {
    LengthRoundTrip(|data|);
    hide BigEndian32, Length32;
    var buffer := new byte[5 + |data|](_ => 0);
    var header := BigEndian32(|data|);
    for i := 0 to 4
      invariant buffer[0] == 0 && forall k :: 0 <= k < i ==> buffer[1 + k] == header[k]
    {
      buffer[1 + i] := header[i];
    }
    for i := 0 to |data|
      invariant buffer[0] == 0 && forall k :: 0 <= k < 4 ==> buffer[1 + k] == header[k]
      invariant forall k :: 0 <= k < i ==> buffer[5 + k] == data[k]
    {
      buffer[5 + i] := data[i];
    }
    frame := buffer[..];
    assert frame == [0] + header + data;
  }

  // ---- Text transport -----------------------------------------------------

  predicate Contains(s: string, part: string) {
    |part| <= |s| && (s[..|part|] == part || (s != "" && Contains(s[1..], part)))
  }

  predicate IsText(contentType: string) {
    Contains(Lower(contentType), "grpc-web-text")
  }

  predicate Base64Char(b: byte) {
    || 65 <= b <= 90 || 97 <= b <= 122 || 48 <= b <= 57
    || b == 43 || b == 47 || b == 61 || b == 13 || b == 10
  }

  function Compact(data: Bytes): Bytes {
    if data == [] then []
    else (if data[0] in {32, 9, 13, 10} then [] else [data[0]]) + Compact(data[1..])
  }

  predicate IsBase64Head(head: Bytes) {
    forall b :: b in head ==> Base64Char(b)
  }

  /** A text response must decode; any other is decoded only when its first 2048 bytes could be base64 and
      the whole of it is. */
  function MaybeDecode(decode: Bytes -> Option<Bytes>, body: Bytes, contentType: string): Option<Bytes> {
    if IsText(contentType) then decode(Compact(body))
    else
      var head := if |body| > 2048 then body[..2048] else body;
      if head != [] && IsBase64Head(head) && decode(Compact(body)).Some? then decode(Compact(body))
      else Some(body)
  }

  ghost predicate OccursAt(s: string, part: string, i: int) {
    0 <= i <= |s| - |part| && s[i..i + |part|] == part
  }

  lemma {:induction false} ContainsMeans(s: string, part: string)
    ensures Contains(s, part) <==> exists i :: OccursAt(s, part, i)
  {
    if |part| <= |s| && s[..|part|] == part {
      assert OccursAt(s, part, 0);
    } else if s != "" {
      ContainsMeans(s[1..], part);
      if i :| OccursAt(s, part, i) {
        assert i > 0 && OccursAt(s[1..], part, i - 1);
      }
      if i :| OccursAt(s[1..], part, i) {
        assert OccursAt(s, part, i + 1);
      }
    }
  }

  /** Compacting leaves out spaces, tabs, carriage returns and line feeds and keeps the other bytes in order. */
  lemma {:induction false} CompactMeans(a: Bytes, b: byte, rest: Bytes)
    ensures Compact(a + [b] + rest) ==
      Compact(a) + (if b as char in " \t\r\n" then [] else [b]) + Compact(rest)
  {
    if a == [] {
      assert ([] + [b] + rest)[1..] == rest;
    } else {
      assert (a + [b] + rest)[1..] == a[1..] + [b] + rest;
      CompactMeans(a[1..], b, rest);
    }
  }

  /** A character of base64, its padding, or a line end. */
  predicate InBase64(c: char) {
    'A' <= c <= 'Z' || 'a' <= c <= 'z' || '0' <= c <= '9' || c in {'+', '/', '=', '\r', '\n'}
  }

  lemma Alphabet(b: byte)
    ensures Base64Char(b) <==> InBase64(b as char)
  {
  }

  /** There is a body, and its first 2048 bytes have nothing outside the alphabet, padding and line ends. */
  predicate LooksEncoded(body: Bytes) {
    body != [] && forall i :: 0 <= i < |body| && i < 2048 ==> InBase64(body[i] as char)
  }

  lemma HeadMeans(body: Bytes)
    ensures var head := if |body| > 2048 then body[..2048] else body;
      head != [] && IsBase64Head(head) <==> LooksEncoded(body)
  {
    hide Base64Char, InBase64;
    var head := if |body| > 2048 then body[..2048] else body;
    forall i | 0 <= i < |body| ensures Base64Char(body[i]) <==> InBase64(body[i] as char) {
      Alphabet(body[i]);
    }
    assert forall i :: 0 <= i < |head| ==> head[i] == body[i];
    assert IsBase64Head(head) <==> forall i :: 0 <= i < |head| ==> Base64Char(head[i]);
  }

  /** How a body is read. Under a content type that names the text form, in letters of either case, its base64 must
      decode. Under any other it is taken for base64 only if it looks like it and all of it decodes. */
  lemma DecodedAs(decode: Bytes -> Option<Bytes>, body: Bytes, contentType: string)
    ensures var text := exists i :: OccursAt(Lower(contentType), "grpc-web-text", i);
      MaybeDecode(decode, body, contentType) ==
        if text || (LooksEncoded(body) && decode(Compact(body)).Some?) then decode(Compact(body)) else Some(body)
  {
    hide Contains, OccursAt, LooksEncoded, Lower, Compact, IsBase64Head;
    ContainsMeans(Lower(contentType), "grpc-web-text");
    HeadMeans(body);
    if IsText(contentType) {
      assert exists i :: OccursAt(Lower(contentType), "grpc-web-text", i);
      assert MaybeDecode(decode, body, contentType) == decode(Compact(body));
    } else if LooksEncoded(body) && decode(Compact(body)).Some? {
      assert MaybeDecode(decode, body, contentType) == decode(Compact(body));
    } else {
      assert MaybeDecode(decode, body, contentType) == Some(body);
    }
  }

  /** A binary body that starts with a message frame is never taken for base64. */
  lemma FramesAreNotText(decode: Bytes -> Option<Bytes>, body: Bytes, contentType: string)
    requires !IsText(contentType) && (body == [] || body[0] == 0)
    ensures MaybeDecode(decode, body, contentType) == Some(body)
  {
    if body != [] {
      var head := if |body| > 2048 then body[..2048] else body;
      assert head[0] in head && !Base64Char(head[0]);
    }
  }

  // ---- Trailers -----------------------------------------------------------

  const STATUS := "grpc-status"
  const MESSAGE := "grpc-message"

  /** Every `\r\n` becomes a `\n`. */
  function Unix(s: string): string {
    if |s| >= 2 && s[0] == '\r' && s[1] == '\n' then ['\n'] + Unix(s[2..])
    else if s == "" then ""
    else [s[0]] + Unix(s[1..])
  }

  /** The text before the first `c` and, when there is one, the text after it. */
  function Cut(s: string, c: char): (r: (string, Option<string>))
    ensures c !in r.0
    ensures s == r.0 + if r.1.Some? then [c] + r.1.value else ""
  {
    if s == "" then ("", None)
    else if s[0] == c then ("", Some(s[1..]))
    else var (before, after) := Cut(s[1..], c); ([s[0]] + before, after)
  }

  function Unquote(c: Codec, key: string, value: string): string {
    if key == MESSAGE then c.unescape(value).GetOr(value) else value
  }

  /** One line; without a colon it says nothing. */
  function Line(c: Codec, line: string): Fields {
    var (key, value) := Cut(line, ':');
    if value.None? then map[]
    else var k := Lower(Trim(key)); map[k := Unquote(c, k, Trim(value.value))]
  }

  /** The fields of the lines; later lines win. */
  function Lines(c: Codec, s: string): Fields
    decreases |s|
  {
    var (line, rest) := Cut(s, '\n');
    if rest.None? then Line(c, line) else Line(c, line) + Lines(c, rest.value)
  }

  function ParseTrailers(c: Codec, payload: Bytes): Fields {
    Lines(c, Unix(c.text(payload)))
  }

  method ParseGrpcTrailers(c: Codec, payload: Bytes) returns (fields: Fields)
    ensures fields == ParseTrailers(c, payload)
  {
    hide Lines, Line, Cut, Unquote;
    fields := map[];
    var rest := Unix(c.text(payload));
    ghost var whole := Lines(c, rest);
    assert map[] + whole == whole;
    while true
      invariant fields + Lines(c, rest) == whole
      decreases |rest|
    {
      var (line, after) := Cut(rest, '\n');
      var (key, value) := Cut(line, ':');
      LineAdds(c, fields, line);
      LinesStep(c, fields, rest);
      if value.Some? {
        var k := Lower(Trim(key));
        fields := fields[k := Unquote(c, k, Trim(value.value))];
      }
      if after.None? {
        return;
      }
      rest := after.value;
    }
  }

  lemma LineAdds(c: Codec, fields: Fields, line: string)
    ensures var (key, value) := Cut(line, ':');
      fields + Line(c, line) ==
        if value.None? then fields
        else var k := Lower(Trim(key)); fields[k := Unquote(c, k, Trim(value.value))]
  {
    hide Unquote, Cut;
  }

  lemma LinesStep(c: Codec, fields: Fields, s: string)
    ensures var (line, rest) := Cut(s, '\n');
      && (rest.None? ==> fields + Lines(c, s) == fields + Line(c, line))
      && (rest.Some? ==>
            |rest.value| < |s| && fields + Lines(c, s) == (fields + Line(c, line)) + Lines(c, rest.value))
  {
    hide Line;
  }

  predicate Merged(key: string) {
    key == STATUS || key == MESSAGE
  }

  /** Headers stand in for a missing status or message, whatever their case; they never override a trailer,
      and nothing else is taken from them. */
  ghost predicate HeadersMerged(c: Codec, before: Fields, headers: Fields, after: Fields) {
    && (forall k :: k in before ==> k in after && after[k] == before[k])
    && (forall k :: k in after && k !in before ==>
          Merged(k) && exists h :: h in headers && Lower(h) == k && after[k] == Unquote(c, k, Trim(headers[h])))
    && (forall h :: h in headers && Merged(Lower(h)) ==> Lower(h) in after)
  }

  /** Of the headers only status and message count, and of the fields only the message is escaped. */
  lemma StatusAndMessage(c: Codec, key: string, value: string)
    ensures Merged(key) <==> key == "grpc-status" || key == "grpc-message"
    ensures Unquote(c, key, value) ==
      if key == "grpc-message" && c.unescape(value).Some? then c.unescape(value).value else value
  {
  }

  method MergeHeaderTrailers(c: Codec, trailers: Fields, headers: Fields) returns (merged: Fields)
    ensures HeadersMerged(c, trailers, headers, merged)
  {
    merged := trailers;
    var todo := headers.Keys;
    while todo != {}
      invariant todo <= headers.Keys
      invariant forall k :: k in trailers ==> k in merged && merged[k] == trailers[k]
      invariant forall k :: k in merged && k !in trailers ==>
        Merged(k) && exists h :: h in headers && Lower(h) == k && merged[k] == Unquote(c, k, Trim(headers[h]))
      invariant forall h :: h in headers && h !in todo && Merged(Lower(h)) ==> Lower(h) in merged
      decreases todo
    {
      var h :| h in todo;
      todo := todo - {h};
      var key := Lower(h);
      if key != STATUS && key != MESSAGE {
        continue;
      }
      if key in merged {
        continue;
      }
      merged := merged[key := Unquote(c, key, Trim(headers[h]))];
    }
  }

  // ---- Parsing ------------------------------------------------------------

  predicate IsTrailer(flag: byte) {
    flag >= 128
  }

  predicate IsCompressed(flag: byte) {
    flag % 2 == 1
  }

  /** The high bit of the flag marks a trailer, the low bit a compressed frame. */
  lemma FlagBits(flag: byte)
    ensures IsTrailer(flag) <==> (flag as bv8) & 0x80 != 0
    ensures IsCompressed(flag) <==> (flag as bv8) & 0x01 != 0
  {
  }

  /** The frames at the head of the data; a frame that is cut short ends the parse without an error. */
  function ParseFrames(c: Codec, data: Bytes, soFar: Response): Parsed {
    if |data| < 5 then Complete(soFar)
    else
      var n := Length32(data[1..5]);
      if |data| - 5 < n then Complete(soFar)
      else
        var payload, rest := data[5..5 + n], data[5 + n..];
        if IsTrailer(data[0]) then
          ParseFrames(c, rest, soFar.(trailers := soFar.trailers + ParseTrailers(c, payload)))
        else if IsCompressed(data[0]) then Compressed(soFar)
        else ParseFrames(c, rest, soFar.(messages := soFar.messages + [payload]))
  }

  /** The frames of the decoded body, and on success the headers that fill in for trailers. */
  ghost predicate IsParse(c: Codec, body: Bytes, contentType: string, headers: Fields, r: Parsed) {
    match MaybeDecode(c.base64, body, contentType)
    case None => r == BadBase64
    case Some(data) =>
      var p := ParseFrames(c, data, Response([], map[]));
      if p.Complete? then
        && r.Complete? && r.response.messages == p.response.messages
        && HeadersMerged(c, p.response.trailers, headers, r.response.trailers)
      else r == p
  }

  method ParseResponse(c: Codec, body: Bytes, contentType: string, headers: Fields) returns (r: Parsed)
    ensures IsParse(c, body, contentType, headers, r)
  {
    hide MaybeDecode, ParseFrames, HeadersMerged;
    var decoded := MaybeDecode(c.base64, body, contentType);
    if decoded.None? {
      return BadBase64;
    }
    r := ReadFrames(c, decoded.value);
    if r.Complete? {
      var trailers := MergeHeaderTrailers(c, r.response.trailers, headers);
      r := Complete(r.response.(trailers := trailers));
    }
  }

  method ReadFrames(c: Codec, data: Bytes) returns (r: Parsed)
    ensures r == ParseFrames(c, data, Response([], map[]))
  {
    hide Length32, ParseTrailers;
    var response := Response([], map[]);
    var offset := 0;
    while offset < |data|
      invariant 0 <= offset <= |data|
      invariant ParseFrames(c, data[offset..], response) == ParseFrames(c, data, Response([], map[]))
    {
      if |data| - offset < 5 {
        break;
      }
      ghost var at, tail := offset, data[offset..];
      var flag := data[offset];
      var length := Length32(data[offset + 1..offset + 5]);
      assert data[offset + 1..offset + 5] == tail[1..5];
      offset := offset + 5;
      if |data| - offset < length {
        return Complete(response);
      }
      var payload := data[offset..offset + length];
      assert payload == tail[5..5 + length];
      assert data[at + 5 + length..] == tail[5 + length..];
      offset := offset + length;
      if IsTrailer(flag) {
        var fields := ParseGrpcTrailers(c, payload);
        response := response.(trailers := response.trailers + fields);
        continue;
      }
      if IsCompressed(flag) {
        return Compressed(response);
      }
      response := response.(messages := response.messages + [payload]);
    }
    return Complete(response);
  }

  // ---- Round trip ---------------------------------------------------------

  datatype Sent = Sent(flag: byte, payload: Bytes)

  function EncodeAll(frames: seq<Sent>): Bytes {
    if frames == [] then [] else Frame(frames[0].flag, frames[0].payload) + EncodeAll(frames[1..])
  }

  /** The payloads of the frames that are not trailers. */
  function Messages(frames: seq<Sent>): seq<Bytes> {
    if frames == [] then []
    else (if IsTrailer(frames[0].flag) then [] else [frames[0].payload]) + Messages(frames[1..])
  }

  /** The fields of the trailer frames; later ones win. */
  function Trailers(c: Codec, frames: seq<Sent>): Fields {
    if frames == [] then map[]
    else (if IsTrailer(frames[0].flag) then ParseTrailers(c, frames[0].payload) else map[]) + Trailers(c, frames[1..])
  }

  predicate Refused(f: Sent) {
    IsCompressed(f.flag) && !IsTrailer(f.flag)
  }

  /** How many frames precede the first compressed message. */
  function Accepted(frames: seq<Sent>): (k: nat)
    ensures k <= |frames|
    ensures forall i :: 0 <= i < k ==> !Refused(frames[i])
    ensures k < |frames| ==> Refused(frames[k])
  {
    if frames == [] || Refused(frames[0]) then 0 else 1 + Accepted(frames[1..])
  }

  /** What a receiver of whole frames must report: messages in order and the fields of the trailers, up to
      the first compressed message, which is an error. */
  function Delivered(c: Codec, frames: seq<Sent>, soFar: Response): Parsed {
    var k := Accepted(frames);
    var got := Response(soFar.messages + Messages(frames[..k]), soFar.trailers + Trailers(c, frames[..k]));
    if k < |frames| then Compressed(got) else Complete(got)
  }

  /** How many of the frames lie wholly within the first `cut` bytes of their encoding. */
  function Fitting(frames: seq<Sent>, cut: nat): (k: nat)
    ensures k <= |frames|
  {
    if frames == [] || cut < 5 + |frames[0].payload| then 0
    else 1 + Fitting(frames[1..], cut - 5 - |frames[0].payload|)
  }

  /** `Fitting` is the longest prefix whose encoding fits. */
  lemma {:induction false} FittingIsLongest(frames: seq<Sent>, cut: nat)
    ensures |EncodeAll(frames[..Fitting(frames, cut)])| <= cut
    ensures Fitting(frames, cut) < |frames| ==> |EncodeAll(frames[..Fitting(frames, cut) + 1])| > cut
  {
    var k := Fitting(frames, cut);
    if k == 0 {
      assert frames[..0] == [];
      if frames != [] {
        assert frames[..1][1..] == [];
      }
    } else {
      FittingIsLongest(frames[1..], cut - 5 - |frames[0].payload|);
      assert frames[..k][1..] == frames[1..][..k - 1];
      if k < |frames| {
        assert frames[..k + 1][1..] == frames[1..][..k];
      }
    }
  }

  predicate Sendable(frames: seq<Sent>) {
    forall f :: f in frames ==> |f.payload| < 0x1_0000_0000
  }

  /** A stream of frames cut anywhere parses to exactly what the frames that arrived whole deliver. */
  lemma {:induction false} TruncatedRoundTrip(c: Codec, frames: seq<Sent>, cut: nat, soFar: Response)
    requires Sendable(frames) && cut <= |EncodeAll(frames)|
    ensures ParseFrames(c, EncodeAll(frames)[..cut], soFar) == Delivered(c, frames[..Fitting(frames, cut)], soFar)
    decreases |frames|
  {
    hide ParseFrames, Delivered, ParseTrailers;
    var k := Fitting(frames, cut);
    if k == 0 {
      assert frames[..0] == [];
      DeliveredNothing(c, soFar);
      if frames == [] {
        ParseNothing(c, soFar);
      } else {
        assert EncodeAll(frames)[..cut] == Frame(frames[0].flag, frames[0].payload)[..cut];
        ParseCut(c, frames[0], cut, soFar);
      }
    } else {
      var f, rest := frames[0], EncodeAll(frames[1..]);
      var left := cut - 5 - |f.payload|;
      assert EncodeAll(frames)[..cut] == Frame(f.flag, f.payload) + rest[..left];
      ParseOne(c, f, rest[..left], soFar);
      DeliveredOne(c, frames[..k], soFar);
      assert frames[..k][1..] == frames[1..][..k - 1];
      if !Refused(f) {
        TruncatedRoundTrip(c, frames[1..], left, Receive(c, f, soFar));
      }
    }
  }

  function Receive(c: Codec, f: Sent, soFar: Response): Response {
    if IsTrailer(f.flag) then soFar.(trailers := soFar.trailers + ParseTrailers(c, f.payload))
    else soFar.(messages := soFar.messages + [f.payload])
  }

  lemma DeliveredNothing(c: Codec, soFar: Response)
    ensures Delivered(c, [], soFar) == Complete(soFar)
  {
    assert soFar.messages + [] == soFar.messages && soFar.trailers + map[] == soFar.trailers;
  }

  lemma DeliveredOne(c: Codec, frames: seq<Sent>, soFar: Response)
    requires frames != []
    ensures Refused(frames[0]) ==> Delivered(c, frames, soFar) == Compressed(soFar)
    ensures !Refused(frames[0]) ==> Delivered(c, frames, soFar) == Delivered(c, frames[1..], Receive(c, frames[0], soFar))
  {
    hide ParseTrailers;
    var k := Accepted(frames);
    if Refused(frames[0]) {
      DeliveredNothing(c, soFar);
      assert frames[..0] == [];
    } else {
      assert frames[..k][1..] == frames[1..][..k - 1];
      var messages, trailers := Messages(frames[1..][..k - 1]), Trailers(c, frames[1..][..k - 1]);
      var p := frames[0].payload;
      assert soFar.messages + ([p] + messages) == soFar.messages + [p] + messages;
      assert soFar.trailers + (ParseTrailers(c, p) + trailers) == soFar.trailers + ParseTrailers(c, p) + trailers;
      assert [] + messages == messages && map[] + trailers == trailers;
    }
  }

  lemma ParseNothing(c: Codec, soFar: Response)
    ensures ParseFrames(c, [], soFar) == Complete(soFar)
  {
  }

  /** A whole frame is read off the head of the data. */
  lemma ParseOne(c: Codec, f: Sent, tail: Bytes, soFar: Response)
    requires |f.payload| < 0x1_0000_0000
    ensures ParseFrames(c, Frame(f.flag, f.payload) + tail, soFar)
      == if Refused(f) then Compressed(soFar) else ParseFrames(c, tail, Receive(c, f, soFar))
  {
    hide BigEndian32, Length32, ParseTrailers;
    var n := |f.payload|;
    LengthRoundTrip(n);
    var data := Frame(f.flag, f.payload) + tail;
    assert data[1..5] == BigEndian32(n) && data[5..5 + n] == f.payload && data[5 + n..] == tail;
  }

  /** A frame cut short yields nothing. */
  lemma ParseCut(c: Codec, f: Sent, cut: nat, soFar: Response)
    requires |f.payload| < 0x1_0000_0000 && cut < 5 + |f.payload|
    ensures ParseFrames(c, Frame(f.flag, f.payload)[..cut], soFar) == Complete(soFar)
  {
    hide BigEndian32, Length32;
    LengthRoundTrip(|f.payload|);
    if cut >= 5 {
      assert Frame(f.flag, f.payload)[..cut][1..5] == BigEndian32(|f.payload|);
    }
  }

  lemma {:induction false} FittingAll(frames: seq<Sent>)
    ensures Fitting(frames, |EncodeAll(frames)|) == |frames|
  {
    if frames != [] {
      FittingAll(frames[1..]);
    }
  }

  function AsMessages(messages: seq<Bytes>): (frames: seq<Sent>)
    ensures |frames| == |messages|
  {
    seq(|messages|, i requires 0 <= i < |messages| => Sent(0, messages[i]))
  }

  lemma MessagesDelivered(c: Codec, messages: seq<Bytes>)
    ensures Delivered(c, AsMessages(messages), Response([], map[])) == Complete(Response(messages, map[]))
  {
    var frames := AsMessages(messages);
    assert frames[..Accepted(frames)] == frames;
    MessagePayloads(c, messages);
  }

  lemma {:induction false} MessagePayloads(c: Codec, messages: seq<Bytes>)
    ensures Messages(AsMessages(messages)) == messages
    ensures Trailers(c, AsMessages(messages)) == map[]
  {
    if messages != [] {
      MessagePayloads(c, messages[1..]);
      assert AsMessages(messages)[1..] == AsMessages(messages[1..]);
    }
  }

  /** The whole receive path: what `ParseResponse` makes of the concatenated `EncodePayload` frames of a
      list of messages under a binary content type is exactly the list, and of any truncation its fully
      contained prefix, without an error; its only trailers come from the headers. */
  lemma RoundTrip(c: Codec, messages: seq<Bytes>, contentType: string, headers: Fields, cut: nat, r: Parsed)
    requires !IsText(contentType) && cut <= |EncodeAll(AsMessages(messages))|
    requires forall m :: m in messages ==> |m| < 0x1_0000_0000
    requires IsParse(c, EncodeAll(AsMessages(messages))[..cut], contentType, headers, r)
    ensures var frames := AsMessages(messages);
      && r.Complete? && r.response.messages == messages[..Fitting(frames, cut)]
      && HeadersMerged(c, map[], headers, r.response.trailers)
      && (cut == |EncodeAll(frames)| ==> r.response.messages == messages)
  {
    hide MaybeDecode, ParseFrames, Delivered, HeadersMerged;
    var frames := AsMessages(messages);
    FramesAreNotText(c.base64, EncodeAll(frames)[..cut], contentType);
    TruncatedRoundTrip(c, frames, cut, Response([], map[]));
    FittingAll(frames);
    var k := Fitting(frames, cut);
    assert frames[..k] == AsMessages(messages[..k]);
    MessagesDelivered(c, messages[..k]);
  }

  /** Parsing never takes a message back. */
  lemma {:induction false} MessagesGrow(c: Codec, data: Bytes, soFar: Response)
    ensures var p := ParseFrames(c, data, soFar);
      !p.BadBase64? && soFar.messages <= p.response.messages
    decreases |data|
  {
    hide Length32, ParseTrailers;
    if |data| >= 5 {
      var n := Length32(data[1..5]);
      if |data| - 5 >= n {
        var rest := data[5 + n..];
        if IsTrailer(data[0]) {
          MessagesGrow(c, rest, soFar.(trailers := soFar.trailers + ParseTrailers(c, data[5..5 + n])));
        } else if !IsCompressed(data[0]) {
          MessagesGrow(c, rest, soFar.(messages := soFar.messages + [data[5..5 + n]]));
        }
      }
    }
  }

  /** A message too long for its length field is read back shorter than it was. */
  lemma ParseLong(c: Codec, m: Bytes, tail: Bytes, soFar: Response)
    requires |m| >= 0x1_0000_0000
    ensures var p := ParseFrames(c, Frame(0, m) + tail, soFar);
      !p.BadBase64? && |p.response.messages| > |soFar.messages| && p.response.messages[|soFar.messages|] != m
  {
    hide BigEndian32, Length32, ParseTrailers;
    LengthRoundTrip(|m|);
    var data, n := Frame(0, m) + tail, Length32(BigEndian32(|m|));
    assert data[1..5] == BigEndian32(|m|) && data[0] == 0;
    var next := soFar.(messages := soFar.messages + [data[5..5 + n]]);
    assert ParseFrames(c, data, soFar) == ParseFrames(c, data[5 + n..], next);
    hide ParseFrames;
    MessagesGrow(c, data[5 + n..], next);
    assert next.messages[|soFar.messages|] == data[5..5 + n] && |data[5..5 + n]| < |m|;
  }

  lemma {:induction false} TooLongIsLost(c: Codec, messages: seq<Bytes>, j: nat, soFar: Response)
    requires j < |messages| && |messages[j]| >= 0x1_0000_0000
    requires forall i :: 0 <= i < j ==> |messages[i]| < 0x1_0000_0000
    ensures var p := ParseFrames(c, EncodeAll(AsMessages(messages)), soFar);
      !p.BadBase64? && p.response.messages != soFar.messages + messages
  {
    hide ParseFrames, Frame;
    var frames := AsMessages(messages);
    var m, tail := messages[0], EncodeAll(frames[1..]);
    if j == 0 {
      ParseLong(c, m, tail, soFar);
      assert (soFar.messages + messages)[|soFar.messages|] == m;
    } else {
      ParseOne(c, frames[0], tail, soFar);
      assert frames[1..] == AsMessages(messages[1..]);
      var next := Receive(c, frames[0], soFar);
      TooLongIsLost(c, messages[1..], j - 1, next);
      assert next.messages + messages[1..] == soFar.messages + messages;
    }
  }

  lemma {:induction false} FirstLong(messages: seq<Bytes>, i: nat) returns (j: nat)
    requires i < |messages| && |messages[i]| >= 0x1_0000_0000
    ensures j < |messages| && |messages[j]| >= 0x1_0000_0000
    ensures forall k :: 0 <= k < j ==> |messages[k]| < 0x1_0000_0000
  {
    j := i;
    if k :| 0 <= k < i && |messages[k]| >= 0x1_0000_0000 {
      j := FirstLong(messages, k);
    }
  }

  /** A list of messages reads back from its frames, under a binary content type, exactly when every message
      is shorter than 2^32 bytes. */
  lemma ReadsBackIff(c: Codec, messages: seq<Bytes>, contentType: string, headers: Fields, r: Parsed)
    requires !IsText(contentType) && IsParse(c, EncodeAll(AsMessages(messages)), contentType, headers, r)
    ensures r.Complete? && r.response.messages == messages <==> forall m :: m in messages ==> |m| < 0x1_0000_0000
  {
    hide ParseFrames, HeadersMerged, MaybeDecode, IsText;
    var body := EncodeAll(AsMessages(messages));
    if forall m :: m in messages ==> |m| < 0x1_0000_0000 {
      assert body[..|body|] == body;
      RoundTrip(c, messages, contentType, headers, |body|, r);
    } else {
      var i :| 0 <= i < |messages| && |messages[i]| >= 0x1_0000_0000;
      var j := FirstLong(messages, i);
      StartsWithZero(messages);
      FramesAreNotText(c.base64, body, contentType);
      TooLongIsLost(c, messages, j, Response([], map[]));
      assert [] + messages == messages;
    }
  }

  lemma StartsWithZero(messages: seq<Bytes>)
    ensures var body := EncodeAll(AsMessages(messages)); body == [] || body[0] == 0
  {
  }

  // ---- Trailer round trip -------------------------------------------------

  /** A field that can be sent on a line: nothing in it ends the line or, in its name, the name. */
  predicate OnLine(key: string, value: string) {
    ':' !in key && NoBreak(key) && NoBreak(value)
  }

  /** A field that loses no white space and no upper case on the way. */
  predicate Plain(key: string, value: string) {
    OnLine(key, value) && IsLower(key) && NoOuterSpace(key) && NoOuterSpace(value)
  }

  predicate NoBreak(s: string) {
    '\n' !in s && '\r' !in s
  }

  function EncodeFields(fields: seq<(string, string)>): string {
    if fields == [] then "" else fields[0].0 + ":" + fields[0].1 + "\r\n" + EncodeFields(fields[1..])
  }

  /** What the lines say: each name with its last value, the message unescaped. */
  function FieldsOf(c: Codec, fields: seq<(string, string)>): Fields {
    if fields == [] then map[]
    else map[fields[0].0 := Unquote(c, fields[0].0, fields[0].1)] + FieldsOf(c, fields[1..])
  }

  /** The fields as they are read: names in lower case, names and values without outer white space. */
  function Cleaned(fields: seq<(string, string)>): (r: seq<(string, string)>)
    ensures |r| == |fields|
  {
    seq(|fields|, i requires 0 <= i < |fields| => (Lower(Trim(fields[i].0)), Trim(fields[i].1)))
  }

  lemma PlainIsClean(fields: seq<(string, string)>)
    requires forall f :: f in fields ==> Plain(f.0, f.1)
    ensures Cleaned(fields) == fields
  {
    forall i | 0 <= i < |fields| ensures Cleaned(fields)[i] == fields[i] {
      assert fields[i] in fields;
      TrimKeeps(fields[i].0);
      TrimKeeps(fields[i].1);
      LowerKeeps(fields[i].0);
    }
  }

  /** Encoded trailer fields read back cleaned of case and outer white space; plain ones as themselves. */
  lemma TrailerRoundTrip(c: Codec, payload: Bytes, fields: seq<(string, string)>)
    requires c.text(payload) == EncodeFields(fields) && forall f :: f in fields ==> OnLine(f.0, f.1)
    ensures ParseTrailers(c, payload) == FieldsOf(c, Cleaned(fields))
    ensures (forall f :: f in fields ==> Plain(f.0, f.1)) ==> ParseTrailers(c, payload) == FieldsOf(c, fields)
  {
    LinesRoundTrip(c, fields);
    if forall f :: f in fields ==> Plain(f.0, f.1) {
      PlainIsClean(fields);
    }
  }

  lemma {:induction false} LinesRoundTrip(c: Codec, fields: seq<(string, string)>)
    requires forall f :: f in fields ==> OnLine(f.0, f.1)
    ensures Lines(c, Unix(EncodeFields(fields))) == FieldsOf(c, Cleaned(fields))
  {
    hide Trim, Lower, Unquote;
    if fields == [] {
      assert Cut("", '\n') == ("", None);
    } else {
      var (key, value) := fields[0];
      var line, rest := key + ":" + value, EncodeFields(fields[1..]);
      assert OnLine(key, value);
      assert Cleaned(fields)[1..] == Cleaned(fields[1..]);
      assert EncodeFields(fields) == line + ("\r\n" + rest);
      assert NoBreak(line);
      UnixLine(line, rest);
      CutAt(line, Unix(rest), '\n');
      assert line == key + ([':'] + value);
      CutAt(key, value, ':');
      LinesRoundTrip(c, fields[1..]);
    }
  }

  lemma {:induction false} UnixLine(line: string, rest: string)
    requires NoBreak(line)
    ensures Unix(line + ("\r\n" + rest)) == line + (['\n'] + Unix(rest))
  {
    var s := line + ("\r\n" + rest);
    if line == "" {
      assert s == "\r\n" + rest && s[2..] == rest;
    } else {
      assert line[0] in line && s[1..] == line[1..] + ("\r\n" + rest);
      assert forall x :: x in line[1..] ==> x in line;
      UnixLine(line[1..], rest);
      assert [line[0]] + (line[1..] + (['\n'] + Unix(rest))) == line + (['\n'] + Unix(rest));
    }
  }

  lemma {:induction false} CutAt(before: string, after: string, c: char)
    requires c !in before
    ensures Cut(before + ([c] + after), c) == (before, Some(after))
  {
    var s := before + ([c] + after);
    if before == "" {
      assert s == [c] + after && s[1..] == after;
    } else {
      assert before[0] in before && s[1..] == before[1..] + ([c] + after);
      CutAt(before[1..], after, c);
      assert [before[0]] + before[1..] == before;
    }
  }
}
