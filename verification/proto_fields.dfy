/** The schema-less reading of protobuf messages in app/products/openai/dynamic_models.go: base-128 varints,
    then a tree of fields recovered by trying each length-delimited value as text and then as a message. */
module ProtoFields {
  import opened Wrappers

  const WORD: nat := 0x1_0000_0000_0000_0000
  const MAX_DEPTH: nat := 6
  const MAX_NUMBER: nat := 1000

  // ---- Varints ------------------------------------------------------------

  datatype Varint = Varint(value: nat, used: nat, ok: bool)

  /** The leading bytes whose continuation bit is set, at most `limit` of them. */
  function Continued(data: Bytes, limit: nat): (n: nat)
    ensures n <= |data| && n <= limit
    ensures n < |data| && n < limit ==> data[n] < 128
    ensures forall i :: 0 <= i < n ==> data[i] >= 128
  {
    if limit == 0 || data == [] || data[0] < 128 then 0 else 1 + Continued(data[1..], limit - 1)
  }

  /** The number whose base-128 digits, least significant first, are the low seven bits of the bytes. */
  function Digits(data: Bytes): nat {
    if data == [] then 0 else data[0] as int % 128 + 128 * Digits(data[1..])
  }

  /** A varint is at most ten bytes, of which the last alone has no continuation bit; its value is kept
      modulo 2^64. */
  function Read(data: Bytes): (r: Varint)
    ensures r.used <= |data|
    ensures r.ok ==> r.used > 0 && r.value < WORD
  {
    var n := Continued(data, 10);
    if n < |data| && n < 10 then Varint(Digits(data[..n + 1]) % WORD, n + 1, true) else Varint(0, n, false)
  }

  /** The weight of base-128 digit `k`. */
  function Weight(k: nat): (w: nat)
    ensures w > 0
  {
    if k == 0 then 1 else 128 * Weight(k - 1)
  }

  /** What a left shift by `n` multiplies by. */
  function Pow2(n: nat): nat {
    if n == 0 then 1 else 2 * Pow2(n - 1)
  }

  lemma {:induction false} ShiftIsWeight(k: nat)
    ensures Pow2(7 * k) == Weight(k)
  {
    if k > 0 {
      ShiftIsWeight(k - 1);
      var n := 7 * (k - 1);
      assert Pow2(n + 7) == 2 * Pow2(n + 6) && Pow2(n + 6) == 2 * Pow2(n + 5) && Pow2(n + 5) == 2 * Pow2(n + 4);
      assert Pow2(n + 4) == 2 * Pow2(n + 3) && Pow2(n + 3) == 2 * Pow2(n + 2) && Pow2(n + 2) == 2 * Pow2(n + 1);
    }
  }

  lemma {:induction false} DigitsAppend(data: Bytes, b: byte)
    ensures Digits(data + [b]) == Digits(data) + b as int % 128 * Weight(|data|)
  {
    if data == [] {
      assert Digits([b]) == b as int % 128 + 128 * Digits([]);
    } else {
      assert (data + [b])[1..] == data[1..] + [b];
      DigitsAppend(data[1..], b);
    }
  }

  lemma AddModWord(x: nat, y: nat)
    ensures (x % WORD + y) % WORD == (x + y) % WORD
  {
    assert x + y == x % WORD + y + x / WORD * WORD;
  }

  /** The bits of a new byte lie above all those read before, so or-ing them in is adding them; those
      shifted past bit 63 are lost. */
  method ReadVarint(data: Bytes, start: nat) returns (value: nat, offset: nat, ok: bool)
    requires start <= |data|
    ensures offset >= start && Varint(value, offset - start, ok) == Read(data[start..])
  {
    hide Weight, Pow2, Continued;
    value, offset, ok := 0, start, false;
    var shift := 0;
    ghost var tail := data[start..];
    while offset < |data| && shift <= 63
      invariant start <= offset <= |data|
      invariant shift == 7 * (offset - start) <= 70
      invariant forall i :: 0 <= i < offset - start ==> tail[i] >= 128
      invariant value == Digits(tail[..offset - start]) % WORD
    {
      var b := data[offset];
      ghost var n := offset - start;
      DigitsAppend(tail[..n], b);
      ShiftIsWeight(n);
      AddModWord(Digits(tail[..n]), b as int % 128 * Pow2(shift));
      assert tail[..n + 1] == tail[..n] + [b];
      value := (value + b as int % 128 * Pow2(shift)) % WORD;
      offset := offset + 1;
      if b < 128 {
        ContinuedIs(tail, 10, n);
        return value, offset, true;
      }
      shift := shift + 7;
    }
    ContinuedIs(tail, 10, offset - start);
    return 0, offset, false;
  }

  lemma {:induction false} ContinuedIs(data: Bytes, limit: nat, n: nat)
    requires n <= |data| && n <= limit
    requires forall i :: 0 <= i < n ==> data[i] >= 128
    requires n == |data| || n == limit || data[n] < 128
    ensures Continued(data, limit) == n
  {
    if n > 0 {
      ContinuedIs(data[1..], limit - 1, n - 1);
    }
  }

  /** The base-128 encoding of the Protocol Buffers encoding specification. */
  function EncodeVarint(v: nat): (b: Bytes)
    ensures b != []
    ensures b[|b| - 1] < 128
    ensures forall i :: 0 <= i < |b| - 1 ==> b[i] >= 128
    ensures Digits(b) == v
  {
    if v < 128 then [v as byte] else [(128 + v % 128) as byte] + EncodeVarint(v / 128)
  }

  /** One and two bytes: the low seven bits come first. */
  lemma ShortVarints(v: nat, rest: Bytes)
    ensures v < 128 ==> EncodeVarint(v) == [v as byte]
    ensures 128 <= v < 16384 ==> EncodeVarint(v) == [(128 + v % 128) as byte, (v / 128) as byte]
    ensures v < 128 ==> Read([v as byte] + rest) == Varint(v, 1, true)
  {
    if v < 128 {
      assert ([v as byte] + rest)[..1] == [v as byte];
    }
  }

  lemma {:induction false} EncodedLength(v: nat, n: nat)
    requires n > 0
    ensures |EncodeVarint(v)| <= n <==> v < Weight(n)
  {
    if n == 1 {
      assert Weight(1) == 128;
    } else if v >= 128 {
      EncodedLength(v / 128, n - 1);
    }
  }

  const SEVENTY_BITS: nat := 0x40_0000_0000_0000_0000

  lemma TenDigits()
    ensures Weight(10) == SEVENTY_BITS
  {
    assert Weight(5) == 0x8_0000_0000;
  }

  /** Reading back an encoded number, whatever follows it: exact for every 64-bit number, modulo 2^64 for
      one of at most 70 bits, and a failure beyond that. */
  lemma VarintRoundTrip(v: nat, suffix: Bytes)
    ensures v < SEVENTY_BITS ==> Read(EncodeVarint(v) + suffix) == Varint(v % WORD, |EncodeVarint(v)|, true)
    ensures v >= SEVENTY_BITS ==> !Read(EncodeVarint(v) + suffix).ok
  {
    hide EncodeVarint, Weight, Digits;
    var b := EncodeVarint(v);
    EncodedLength(v, 10);
    TenDigits();
    if v < SEVENTY_BITS {
      ContinuedIs(b + suffix, 10, |b| - 1);
      assert (b + suffix)[..|b|] == b;
    } else {
      ContinuedIs(b + suffix, 10, 10);
    }
  }

  // ---- Fields -------------------------------------------------------------

  datatype Field = Field(number: nat, text: Bytes, children: seq<Field>)

  /** The fields recovered, and whether the whole input was read. */
  datatype Fields = Fields(list: seq<Field>, ok: bool)

  /** One field off the head of the data and the number of bytes it took. */
  function ParseField(isText: Bytes -> bool, data: Bytes, depth: nat): (r: Option<(Field, nat)>)
    requires depth <= MAX_DEPTH
    ensures r.Some? ==> 0 < r.value.1 <= |data|
    decreases MAX_DEPTH - depth, 1, 0
  {
    var tag := Read(data);
    var number, wire := tag.value / 8, tag.value % 8;
    if !tag.ok || number == 0 || number > MAX_NUMBER then None
    else
      var rest := data[tag.used..];
      var bare := Field(number, [], []);
      if wire == 0 then
        var v := Read(rest);
        if v.ok then Some((bare, tag.used + v.used)) else None
      else if wire == 1 then
        if |rest| < 8 then None else Some((bare, tag.used + 8))
      else if wire == 2 then
        var length := Read(rest);
        if !length.ok || length.value > |rest| - length.used then None
        else Some((ParseValue(isText, number, rest[length.used..length.used + length.value], depth),
                   tag.used + length.used + length.value))
      else if wire == 5 then
        if |rest| < 4 then None else Some((bare, tag.used + 4))
      else None
  }

  /** What the first byte of a field says, for the numbers that share it with the wire type: a varint, eight bytes,
      a length and that many, or four bytes follow; any other wire type, and number zero, is refused. */
  lemma WireTypes(isText: Bytes -> bool, number: nat, wire: nat, rest: Bytes, depth: nat)
    requires number < 16 && wire < 8 && depth <= MAX_DEPTH
    ensures var one := ParseField(isText, [(8 * number + wire) as byte] + rest, depth);
      && (number == 0 || wire == 3 || wire == 4 || wire == 6 || wire == 7 ==> one == None)
      && (number > 0 && wire == 0 ==>
            one == if Read(rest).ok then Some((Field(number, [], []), 1 + Read(rest).used)) else None)
      && (number > 0 && wire == 1 ==> one == if |rest| >= 8 then Some((Field(number, [], []), 9)) else None)
      && (number > 0 && wire == 5 ==> one == if |rest| >= 4 then Some((Field(number, [], []), 5)) else None)
      && (number > 0 && wire == 2 && |rest| > 0 && rest[0] < 128 ==>
            var n := rest[0] as nat;
            one == if |rest| >= 1 + n then Some((ParseValue(isText, number, rest[1..1 + n], depth), 2 + n)) else None)
  {
    hide Read, ParseValue;
    var tag := 8 * number + wire;
    ShortVarints(tag, rest);
    assert ([tag as byte] + rest)[1..] == rest && tag / 8 == number && tag % 8 == wire;
    if |rest| > 0 && rest[0] < 128 {
      ShortVarints(rest[0] as nat, rest[1..]);
      assert [rest[0]] + rest[1..] == rest;
    }
  }

  /** A length-delimited value is text, or else a nonempty message, or else opaque. */
  function ParseValue(isText: Bytes -> bool, number: nat, value: Bytes, depth: nat): Field
    requires depth <= MAX_DEPTH
    decreases MAX_DEPTH - depth, 0, 0
  {
    if isText(value) then Field(number, value, [])
    else
      var inner := if depth == MAX_DEPTH then Fields([], false) else Parse(isText, value, depth + 1);
      Field(number, [], if inner.ok then inner.list else [])
  }

  function Parse(isText: Bytes -> bool, data: Bytes, depth: nat): Fields
    decreases if depth > MAX_DEPTH then 0 else MAX_DEPTH - depth, 2, |data|
  {
    if depth > MAX_DEPTH then Fields([], false)
    else if data == [] then Fields([], true)
    else match ParseField(isText, data, depth)
      case None => Fields([], false)
      case Some(one) =>
        var rest := Parse(isText, data[one.1..], depth);
        Fields([one.0] + rest.list, rest.ok)
  }

  method ParseFields(isText: Bytes -> bool, data: Bytes, depth: nat) returns (fields: seq<Field>, ok: bool)
    ensures Fields(fields, ok) == Parse(isText, data, depth)
    decreases if depth > MAX_DEPTH then 0 else MAX_DEPTH - depth + 1, 1
  {
    hide ParseField;
    if depth > MAX_DEPTH {
      return [], false;
    }
    fields := [];
    var offset := 0;
    while offset < |data|
      invariant 0 <= offset <= |data|
      invariant var rest := Parse(isText, data[offset..], depth);
        Parse(isText, data, depth) == Fields(fields + rest.list, rest.ok)
    {
      ghost var tail := data[offset..];
      var one := NextField(isText, data, offset, depth);
      if one.None? {
        return fields, false;
      }
      assert tail[one.value.1..] == data[offset + one.value.1..];
      offset := offset + one.value.1;
      fields := fields + [one.value.0];
    }
    return fields, true;
  }

  /** The body of the loop: the field at an offset, and how far to move on. */
  method NextField(isText: Bytes -> bool, data: Bytes, start: nat, depth: nat) returns (r: Option<(Field, nat)>)
    requires depth <= MAX_DEPTH && start < |data|
    ensures r == ParseField(isText, data[start..], depth)
    decreases MAX_DEPTH - depth + 1, 0
  {
    hide Read, Parse;
    var tag, offset, read := ReadVarint(data, start);
    if !read {
      return None;
    }
    var number, wire := tag / 8, tag % 8;
    if number == 0 || number > MAX_NUMBER {
      return None;
    }
    ghost var rest := data[start..][offset - start..];
    assert rest == data[offset..];
    var field := Field(number, [], []);
    match wire {
      case 0 =>
        var _, end, ended := ReadVarint(data, offset);
        if !ended {
          return None;
        }
        offset := end;
      case 1 =>
        if offset + 8 > |data| {
          return None;
        }
        offset := offset + 8;
      case 2 =>
        var length, begin, known := ReadVarint(data, offset);
        if !known || length > |data| - begin {
          return None;
        }
        var value := data[begin..begin + length];
        SliceOf(data, offset, begin, length);
        offset := begin + length;
        if isText(value) {
          field := field.(text := value);
        } else {
          var children, whole := ParseFields(isText, value, depth + 1);
          TooDeep(isText, value);
          if whole && |children| > 0 {
            field := field.(children := children);
          }
        }
      case 5 =>
        if offset + 4 > |data| {
          return None;
        }
        offset := offset + 4;
      case _ =>
        return None;
    }
    return Some((field, offset - start));
  }

  /** A slice of the data is a slice of what is left of it. */
  lemma SliceOf(data: Bytes, offset: nat, begin: nat, length: nat)
    requires offset <= begin && begin + length <= |data|
    ensures data[begin..begin + length] == data[offset..][begin - offset..begin - offset + length]
  {
  }

  lemma TooDeep(isText: Bytes -> bool, data: Bytes)
    ensures Parse(isText, data, MAX_DEPTH + 1) == Fields([], false)
  {
  }

  // ---- What is recovered --------------------------------------------------

  /** Numbers are 1..1000 at every level, text and children exclude each other, and the tree below the
      field has at most `levels` more levels. */
  predicate Sound(f: Field, levels: nat)
    decreases f
  {
    && 1 <= f.number <= 1000
    && (f.text == [] || f.children == [])
    && (levels == 0 ==> f.children == [])
    && (levels > 0 ==> forall c :: c in f.children ==> Sound(c, levels - 1))
  }

  /** Fields and bytes of text in a tree. */
  function Weigh(fields: seq<Field>): nat {
    if fields == [] then 0 else 1 + |fields[0].text| + Weigh(fields[0].children) + Weigh(fields[1..])
  }

  /** Every byte string, even one that fails part-way, yields only sound fields, and no more fields and
      text than it has bytes. */
  lemma {:induction false} ParseSound(isText: Bytes -> bool, data: Bytes, depth: nat)
    requires depth <= 6
    ensures forall f :: f in Parse(isText, data, depth).list ==> Sound(f, 6 - depth)
    ensures Weigh(Parse(isText, data, depth).list) <= |data|
    decreases MAX_DEPTH - depth, 1, |data|
  {
    hide ParseField, ParseValue;
    if data != [] {
      var one := ParseField(isText, data, depth);
      if one.Some? {
        FieldSound(isText, data, depth);
        ParseSound(isText, data[one.value.1..], depth);
      }
    }
  }

  lemma FieldSound(isText: Bytes -> bool, data: Bytes, depth: nat)
    requires depth <= MAX_DEPTH
    ensures var r := ParseField(isText, data, depth);
      r.Some? ==> Sound(r.value.0, MAX_DEPTH - depth) && 1 + |r.value.0.text| + Weigh(r.value.0.children) <= r.value.1
    decreases MAX_DEPTH - depth, 0, 1
  {
    hide Read, ParseValue;
    var tag := Read(data);
    if tag.ok && tag.value % 8 == 2 {
      var rest := data[tag.used..];
      var length := Read(rest);
      if length.ok && length.value <= |rest| - length.used && 1 <= tag.value / 8 <= MAX_NUMBER {
        ValueSound(isText, tag.value / 8, rest[length.used..length.used + length.value], depth);
      }
    }
  }

  lemma ValueSound(isText: Bytes -> bool, number: nat, value: Bytes, depth: nat)
    requires depth <= MAX_DEPTH && 1 <= number <= MAX_NUMBER
    ensures var f := ParseValue(isText, number, value, depth);
      Sound(f, MAX_DEPTH - depth) && |f.text| + Weigh(f.children) <= |value|
    decreases MAX_DEPTH - depth, 0, 0
  {
    hide Parse;
    if !isText(value) && depth < MAX_DEPTH {
      ParseSound(isText, value, depth + 1);
    }
  }

  // ---- Round trip ---------------------------------------------------------

  datatype Wire =
    | Scalar(number: nat, value: nat)
    | Fixed64(number: nat, body: Bytes)
    | Fixed32(number: nat, body: Bytes)
    | Text(number: nat, body: Bytes)
    | Message(number: nat, fields: seq<Wire>)

  function Tag(number: nat, wire: nat): Bytes {
    EncodeVarint(number * 8 + wire)
  }

  function Encode(w: Wire): Bytes
    decreases w
  {
    match w
    case Scalar(number, value) => Tag(number, 0) + EncodeVarint(value)
    case Fixed64(number, body) => Tag(number, 1) + body
    case Fixed32(number, body) => Tag(number, 5) + body
    case Text(number, body) => Tag(number, 2) + (EncodeVarint(|body|) + body)
    case Message(number, fields) =>
      var body := EncodeAll(fields);
      Tag(number, 2) + (EncodeVarint(|body|) + body)
  }

  function EncodeAll(ws: seq<Wire>): Bytes
    decreases ws
  {
    if ws == [] then [] else Encode(ws[0]) + EncodeAll(ws[1..])
  }

  /** A field the reader can recover: in range, of the right size, and not ambiguous between text and
      message. Below the depth limit nothing is asked, because nothing is read. */
  predicate Encodable(isText: Bytes -> bool, w: Wire, depth: nat)
    decreases w
  {
    && 1 <= w.number <= 1000
    && match w
       case Scalar(_, value) => value < WORD
       case Fixed64(_, body) => |body| == 8
       case Fixed32(_, body) => |body| == 4
       case Text(_, body) => |body| < WORD && isText(body)
       case Message(_, fields) =>
         && |EncodeAll(fields)| < WORD && !isText(EncodeAll(fields))
         && (depth < 6 ==> forall f :: f in fields ==> Encodable(isText, f, depth + 1))
  }

  /** What a reader at this depth should report: scalars lose their values, and a message at the depth
      limit loses its fields. */
  function View(w: Wire, depth: nat): Field
    decreases w
  {
    match w
    case Text(number, body) => Field(number, body, [])
    case Message(number, fields) =>
      Field(number, [], if depth < 6 then Views(fields, depth + 1) else [])
    case _ => Field(w.number, [], [])
  }

  function Views(ws: seq<Wire>, depth: nat): seq<Field>
    decreases ws
  {
    if ws == [] then [] else [View(ws[0], depth)] + Views(ws[1..], depth)
  }

  /** Reading an encoded message recovers its tree, down to the depth limit. */
  lemma {:induction false} TreeRoundTrip(isText: Bytes -> bool, ws: seq<Wire>, depth: nat)
    requires depth <= 6 && forall w :: w in ws ==> Encodable(isText, w, depth)
    ensures Parse(isText, EncodeAll(ws), depth) == Fields(Views(ws, depth), true)
    decreases ws
  {
    hide ParseField, Encodable, Encode, View;
    if ws != [] {
      var b, rest := Encode(ws[0]), EncodeAll(ws[1..]);
      FieldRoundTrip(isText, ws[0], rest, depth);
      assert (b + rest)[|b|..] == rest;
      TreeRoundTrip(isText, ws[1..], depth);
    }
  }

  lemma FieldRoundTrip(isText: Bytes -> bool, w: Wire, suffix: Bytes, depth: nat)
    requires depth <= MAX_DEPTH && Encodable(isText, w, depth)
    ensures Encode(w) != []
    ensures ParseField(isText, Encode(w) + suffix, depth) == Some((View(w, depth), |Encode(w)|))
    decreases w
  {
    hide Read, EncodeVarint, Parse, ParseField;
    match w {
      case Scalar(number, value) =>
        ScalarRead(isText, number, value, suffix, depth);
      case Fixed64(number, body) =>
        FixedRead(isText, number, 1, body, suffix, depth);
      case Fixed32(number, body) =>
        FixedRead(isText, number, 5, body, suffix, depth);
      case Text(number, body) =>
        DelimitedRead(isText, number, body, suffix, depth);
      case Message(number, fields) =>
        DelimitedRead(isText, number, EncodeAll(fields), suffix, depth);
        if depth < MAX_DEPTH {
          TreeRoundTrip(isText, fields, depth + 1);
        }
    }
  }

  lemma ScalarRead(isText: Bytes -> bool, number: nat, value: nat, suffix: Bytes, depth: nat)
    requires depth <= MAX_DEPTH && 1 <= number <= MAX_NUMBER && value < WORD
    ensures var b := Tag(number, 0) + EncodeVarint(value);
      ParseField(isText, b + suffix, depth) == Some((Field(number, [], []), |b|))
  {
    hide Read, EncodeVarint, ParseValue;
    TagRead(number, 0, EncodeVarint(value), suffix);
    VarintRoundTrip(value, suffix);
  }

  lemma FixedRead(isText: Bytes -> bool, number: nat, wire: nat, body: Bytes, suffix: Bytes, depth: nat)
    requires depth <= MAX_DEPTH && 1 <= number <= MAX_NUMBER
    requires (wire == 1 && |body| == 8) || (wire == 5 && |body| == 4)
    ensures ParseField(isText, Tag(number, wire) + body + suffix, depth)
      == Some((Field(number, [], []), |Tag(number, wire) + body|))
  {
    hide Read, EncodeVarint, ParseValue;
    TagRead(number, wire, body, suffix);
  }

  lemma DelimitedRead(isText: Bytes -> bool, number: nat, body: Bytes, suffix: Bytes, depth: nat)
    requires depth <= MAX_DEPTH && 1 <= number <= MAX_NUMBER && |body| < WORD
    ensures var b := Tag(number, 2) + (EncodeVarint(|body|) + body);
      ParseField(isText, b + suffix, depth) == Some((ParseValue(isText, number, body, depth), |b|))
  {
    hide Read, EncodeVarint, ParseValue;
    TagRead(number, 2, EncodeVarint(|body|) + body, suffix);
    LengthRead(body, suffix);
  }

  lemma TagRead(number: nat, wire: nat, body: Bytes, suffix: Bytes)
    requires 1 <= number <= MAX_NUMBER && wire < 8
    ensures var data := Tag(number, wire) + body + suffix;
      && Read(data) == Varint(number * 8 + wire, |Tag(number, wire)|, true)
      && data[|Tag(number, wire)|..] == body + suffix
      && Tag(number, wire) != []
  {
    hide Read, EncodeVarint;
    VarintRoundTrip(number * 8 + wire, body + suffix);
    assert Tag(number, wire) + body + suffix == Tag(number, wire) + (body + suffix);
  }

  lemma LengthRead(body: Bytes, suffix: Bytes)
    requires |body| < WORD
    ensures var data := EncodeVarint(|body|) + body + suffix;
      var n := |EncodeVarint(|body|)|;
      && Read(data) == Varint(|body|, n, true)
      && data[n..n + |body|] == body
  {
    hide Read, EncodeVarint;
    VarintRoundTrip(|body|, body + suffix);
    assert EncodeVarint(|body|) + body + suffix == EncodeVarint(|body|) + (body + suffix);
  }
}
