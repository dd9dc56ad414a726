/**
 * What `parse_create_instruction` promises, proved about CreateEvent.ParseCreate:
 * the header is ignored, well-formed payloads round-trip, overruns are
 * clipped rather than rejected, and the two failure causes.
 */
module CreateEventLaws {
  import opened Wrappers
  import opened Bytes
  import Utf8
  import opened CreateEvent

  /** A CreateEvent as its producer writes it: three texts and six 32-byte keys. */
  datatype Event = Event(
    name: string, symbol: string, uri: string,
    mint: seq<Byte>, bondingCurve: seq<Byte>, associatedBondingCurve: seq<Byte>,
    associatedUser: seq<Byte>, user: seq<Byte>, source: seq<Byte>)

  /** A string whose UTF-8 encoding fits a u32 length prefix. */
  predicate Encodable(s: string)
  {
    |Utf8.Encode(s)| < U32Limit
  }

  predicate WellFormed(e: Event)
  {
    && Encodable(e.name) && Encodable(e.symbol) && Encodable(e.uri)
    && |e.mint| == KeyLength && |e.bondingCurve| == KeyLength
    && |e.associatedBondingCurve| == KeyLength && |e.associatedUser| == KeyLength
    && |e.user| == KeyLength && |e.source| == KeyLength
  }

  /** A length-prefixed byte string: u32 little-endian byte count, then the bytes. */
  function LengthPrefixed(u: seq<Byte>): (b: seq<Byte>)
    requires |u| < U32Limit
    ensures |b| == LengthPrefixSize + |u|
  {
    U32LEBytes(|u|) + u
  }

  /** A length-prefixed string: its UTF-8 bytes with their count in front. */
  function EncodeString(s: string): (b: seq<Byte>)
    requires Encodable(s)
  {
    LengthPrefixed(Utf8.Encode(s))
  }

  /** The six keys, back to back. */
  function KeyBytes(e: Event): (b: seq<Byte>)
    requires WellFormed(e)
    ensures |b| == 6 * KeyLength
  {
    e.mint + e.bondingCurve + e.associatedBondingCurve + e.associatedUser + e.user + e.source
  }

  /** The payload: 8 header bytes, the fields in schema order, then anything. */
  function Serialize(header: seq<Byte>, e: Event, trailing: seq<Byte>): seq<Byte>
    requires WellFormed(e)
  {
    header + EncodeString(e.name) + EncodeString(e.symbol) + EncodeString(e.uri) + KeyBytes(e) + trailing
  }

  /** The dictionary the decoder should return for `e`, keys spelled as in the source. */
  function Rendered(e: Event, b58: Base58): Record
  {
    map[
      "name" := e.name, "symbol" := e.symbol, "uri" := e.uri,
      "mint" := b58(e.mint), "bondingCurve" := b58(e.bondingCurve),
      "associatedBondingCurve " := b58(e.associatedBondingCurve),
      "associatedUser " := b58(e.associatedUser),
      "user" := b58(e.user), "source" := b58(e.source)]
  }

  /** `x` occurs in `d` starting at offset `o`. */
  predicate SegmentAt(d: seq<Byte>, o: nat, x: seq<Byte>)
  {
    o + |x| <= |d| && d[o..o + |x|] == x
  }

  /** Both halves of a concatenation, where they start. */
  lemma ConcatSegments(x: seq<Byte>, y: seq<Byte>)
    ensures SegmentAt(x + y, 0, x) && SegmentAt(x + y, |x|, y)
  {
    assert (x + y)[0..|x|] == x;
    assert (x + y)[|x|..|x| + |y|] == y;
  }

  /** Where each part of a payload starts. */
  lemma PayloadParts(h: seq<Byte>, a: seq<Byte>, b: seq<Byte>, c: seq<Byte>, k: seq<Byte>, t: seq<Byte>)
    ensures SegmentAt(h + a + b + c + k + t, |h|, a)
    ensures SegmentAt(h + a + b + c + k + t, |h + a|, b)
    ensures SegmentAt(h + a + b + c + k + t, |h + a + b|, c)
    ensures SegmentAt(h + a + b + c + k + t, |h + a + b + c|, k)
  {
    var d1, d2, d3, d4 := h + a, h + a + b, h + a + b + c, h + a + b + c + k;
    var d := d4 + t;
    ConcatSegments(d4, t);
    ConcatSegments(d3, k);
    ConcatSegments(d2, c);
    ConcatSegments(d1, b);
    ConcatSegments(h, a);
    SegmentWithin(d, 0, d4, |d3|, k);
    SegmentWithin(d, 0, d4, 0, d3);
    SegmentWithin(d, 0, d3, |d2|, c);
    SegmentWithin(d, 0, d3, 0, d2);
    SegmentWithin(d, 0, d2, |d1|, b);
    SegmentWithin(d, 0, d2, 0, d1);
    SegmentWithin(d, 0, d1, |h|, a);
  }

  /** Where each key starts in `KeyBytes`. */
  lemma KeyParts(e: Event)
    requires WellFormed(e)
    ensures SegmentAt(KeyBytes(e), 0, e.mint)
    ensures SegmentAt(KeyBytes(e), 32, e.bondingCurve)
    ensures SegmentAt(KeyBytes(e), 64, e.associatedBondingCurve)
    ensures SegmentAt(KeyBytes(e), 96, e.associatedUser)
    ensures SegmentAt(KeyBytes(e), 128, e.user)
    ensures SegmentAt(KeyBytes(e), 160, e.source)
  {
    var k1 := e.mint + e.bondingCurve;
    var k2 := k1 + e.associatedBondingCurve;
    var k3 := k2 + e.associatedUser;
    var k4 := k3 + e.user;
    var k := k4 + e.source;
    assert k == KeyBytes(e);
    ConcatSegments(k4, e.source);
    ConcatSegments(k3, e.user);
    ConcatSegments(k2, e.associatedUser);
    ConcatSegments(k1, e.associatedBondingCurve);
    ConcatSegments(e.mint, e.bondingCurve);
    SegmentWithin(k, 0, k4, 128, e.user);
    SegmentWithin(k, 0, k4, 0, k3);
    SegmentWithin(k, 0, k3, 96, e.associatedUser);
    SegmentWithin(k, 0, k3, 0, k2);
    SegmentWithin(k, 0, k2, 64, e.associatedBondingCurve);
    SegmentWithin(k, 0, k2, 0, k1);
    SegmentWithin(k, 0, k1, 32, e.bondingCurve);
    SegmentWithin(k, 0, k1, 0, e.mint);
  }

  /** A segment of a segment. */
  lemma SegmentWithin(d: seq<Byte>, o: nat, x: seq<Byte>, p: nat, y: seq<Byte>)
    requires SegmentAt(d, o, x) && SegmentAt(x, p, y)
    ensures SegmentAt(d, o + p, y)
  {
    forall i | 0 <= i < |y|
      ensures d[o + p + i] == y[i]
    {
      assert d[o..o + |x|][p + i] == x[p + i];
    }
  }

  /**
   * A string field at offset `o` of `data` declares `n` bytes and its
   * (possibly clipped) slice of text bytes is `u`: the facts the decoder
   * reads, with no reference to how they were written.
   */
  predicate StringFieldAt(data: seq<Byte>, o: nat, n: nat, u: seq<Byte>)
  {
    && |Slice(data, o, o + LengthPrefixSize)| == LengthPrefixSize
    && U32LE(Slice(data, o, o + LengthPrefixSize)) == n
    && Slice(data, o + LengthPrefixSize, o + LengthPrefixSize + n) == u
  }

  /**
   * A u32 count `n` followed by bytes `v` at `o`: either exactly `n` of
   * them, or fewer running to the end of the input, which the slice clips.
   */
  lemma CountedBytes(data: seq<Byte>, o: nat, n: nat, v: seq<Byte>)
    requires n < U32Limit && |v| <= n
    requires SegmentAt(data, o, U32LEBytes(n) + v)
    requires |v| == n || o + LengthPrefixSize + |v| == |data|
    ensures StringFieldAt(data, o, n, v)
  {
    var e := U32LEBytes(n) + v;
    assert Slice(data, o, o + LengthPrefixSize) == e[..LengthPrefixSize] == U32LEBytes(n);
    U32LERoundTrip(n);
    assert Slice(data, o + LengthPrefixSize, o + LengthPrefixSize + n) == e[LengthPrefixSize..] == v;
  }

  /** A string field is read as the UTF-8 text of its bytes, and the offset moves past the declared count. */
  lemma ReadStringField(data: seq<Byte>, o: nat, n: nat, u: seq<Byte>, decode: TextDecoder, b58: Base58)
    requires StringFieldAt(data, o, n, u)
    ensures ReadField(data, o, StringField, decode, b58)
         == match decode(u)
            case None => None
            case Some(text) => Some((text, o + LengthPrefixSize + n))
  {
  }

  /** A string field whose bytes are valid UTF-8 adds their text and moves on past the declared count. */
  lemma StringStep(data: seq<Byte>, o: nat, n: nat, u: seq<Byte>, text: string, next: nat, fields: seq<Field>,
                   i: nat, name: string, m: Record, decode: TextDecoder, b58: Base58)
    requires StringFieldAt(data, o, n, u) && decode(u) == Some(text) && next == o + LengthPrefixSize + n
    requires i < |fields| && fields[i] == Field(name, StringField)
    ensures ParseFieldsFrom(data, fields, i, o, m, decode, b58) == ParseFieldsFrom(data, fields, i + 1, next, m[name := text], decode, b58)
  {
    ReadStringField(data, o, n, u, decode, b58);
    FieldSucceeds(data, fields, i, o, m, decode, b58, text, next);
  }

  /** A string field whose bytes are not valid UTF-8 ends the parse with nothing. */
  lemma StringFails(data: seq<Byte>, o: nat, n: nat, u: seq<Byte>, fields: seq<Field>, i: nat, m: Record,
                    decode: TextDecoder, b58: Base58)
    requires StringFieldAt(data, o, n, u) && decode(u).None?
    requires i < |fields| && fields[i].kind == StringField
    ensures ParseFieldsFrom(data, fields, i, o, m, decode, b58).None?
  {
    ReadStringField(data, o, n, u, decode, b58);
    FieldFails(data, fields, i, o, m, decode, b58);
  }

  /** The dictionary after the three strings, each key read from its clipped 32-byte slice at `o` and on. */
  function KeysAt(name: string, symbol: string, uri: string, data: seq<Byte>, o: nat, b58: Base58): Record
  {
    map[
      "name" := name, "symbol" := symbol, "uri" := uri,
      "mint" := b58(Slice(data, o, o + 32)),
      "bondingCurve" := b58(Slice(data, o + 32, o + 64)),
      "associatedBondingCurve " := b58(Slice(data, o + 64, o + 96)),
      "associatedUser " := b58(Slice(data, o + 96, o + 128)),
      "user" := b58(Slice(data, o + 128, o + 160)),
      "source" := b58(Slice(data, o + 160, o + 192))]
  }

  /** The key part of the schema: six public keys after the three strings. */
  predicate KeyLayout(fields: seq<Field>)
  {
    && |fields| == 9
    && fields[3] == Field("mint", PublicKeyField)
    && fields[4] == Field("bondingCurve", PublicKeyField)
    && fields[5] == Field("associatedBondingCurve ", PublicKeyField)
    && fields[6] == Field("associatedUser ", PublicKeyField)
    && fields[7] == Field("user", PublicKeyField)
    && fields[8] == Field("source", PublicKeyField)
  }

  /** A key field at `o` reads the clipped 32-byte slice there; it never fails. */
  lemma KeyStep(data: seq<Byte>, fields: seq<Field>, i: nat, name: string, o: nat, m: Record, decode: TextDecoder, b58: Base58)
    requires i < |fields| && fields[i] == Field(name, PublicKeyField)
    ensures ParseFieldsFrom(data, fields, i, o, m, decode, b58)
         == ParseFieldsFrom(data, fields, i + 1, o + KeyLength, m[name := b58(Slice(data, o, o + KeyLength))], decode, b58)
  {
    FieldSucceeds(data, fields, i, o, m, decode, b58, b58(Slice(data, o, o + KeyLength)), o + KeyLength);
  }

  /** The six key fields read from `o` on always succeed, each with its clipped slice. */
  lemma KeysRead(data: seq<Byte>, o: nat, fields: seq<Field>, parsed: Record, decode: TextDecoder, b58: Base58)
    requires KeyLayout(fields)
    ensures ParseFieldsFrom(data, fields, 3, o, parsed, decode, b58) == Some(parsed[
      "mint" := b58(Slice(data, o, o + 32))][
      "bondingCurve" := b58(Slice(data, o + 32, o + 64))][
      "associatedBondingCurve " := b58(Slice(data, o + 64, o + 96))][
      "associatedUser " := b58(Slice(data, o + 96, o + 128))][
      "user" := b58(Slice(data, o + 128, o + 160))][
      "source" := b58(Slice(data, o + 160, o + 192))])
  {
    var F := fields;
    var m3 := parsed;
    var m4 := m3["mint" := b58(Slice(data, o, o + 32))];
    var m5 := m4["bondingCurve" := b58(Slice(data, o + 32, o + 64))];
    var m6 := m5["associatedBondingCurve " := b58(Slice(data, o + 64, o + 96))];
    var m7 := m6["associatedUser " := b58(Slice(data, o + 96, o + 128))];
    var m8 := m7["user" := b58(Slice(data, o + 128, o + 160))];
    var m9 := m8["source" := b58(Slice(data, o + 160, o + 192))];
    calc {
      ParseFieldsFrom(data, F, 3, o, m3, decode, b58);
      { KeyStep(data, F, 3, "mint", o, m3, decode, b58); }
      ParseFieldsFrom(data, F, 4, o + 32, m4, decode, b58);
      { KeyStep(data, F, 4, "bondingCurve", o + 32, m4, decode, b58); }
      ParseFieldsFrom(data, F, 5, o + 64, m5, decode, b58);
      { KeyStep(data, F, 5, "associatedBondingCurve ", o + 64, m5, decode, b58); }
      ParseFieldsFrom(data, F, 6, o + 96, m6, decode, b58);
      { KeyStep(data, F, 6, "associatedUser ", o + 96, m6, decode, b58); }
      ParseFieldsFrom(data, F, 7, o + 128, m7, decode, b58);
      { KeyStep(data, F, 7, "user", o + 128, m7, decode, b58); }
      ParseFieldsFrom(data, F, 8, o + 160, m8, decode, b58);
      { KeyStep(data, F, 8, "source", o + 160, m8, decode, b58); }
      ParseFieldsFrom(data, F, 9, o + 192, m9, decode, b58);
      { FieldsDone(data, F, o + 192, m9, decode, b58); }
      Some(m9);
    }
  }

  /** The whole schema: three strings, then six keys. */
  predicate Layout(fields: seq<Field>)
  {
    && KeyLayout(fields)
    && fields[0] == Field("name", StringField)
    && fields[1] == Field("symbol", StringField)
    && fields[2] == Field("uri", StringField)
  }

  lemma CreateEventFieldsLayout()
    ensures Layout(CreateEventFields)
  {
  }

  /** Three string fields with valid UTF-8, back to back from `HeaderLength`, are read in turn. */
  lemma StringsRead(data: seq<Byte>, nn: nat, un: seq<Byte>, ns: nat, us: seq<Byte>, nu: nat, uu: seq<Byte>,
                    name: string, symbol: string, uri: string, o1: nat, o2: nat, o3: nat,
                    fields: seq<Field>, decode: TextDecoder, b58: Base58)
    requires Layout(fields)
    requires StringFieldAt(data, HeaderLength, nn, un) && decode(un) == Some(name)
    requires o1 == HeaderLength + LengthPrefixSize + nn
    requires StringFieldAt(data, o1, ns, us) && decode(us) == Some(symbol)
    requires o2 == o1 + LengthPrefixSize + ns
    requires StringFieldAt(data, o2, nu, uu) && decode(uu) == Some(uri)
    requires o3 == o2 + LengthPrefixSize + nu
    ensures ParseFieldsFrom(data, fields, 0, HeaderLength, map[], decode, b58)
         == ParseFieldsFrom(data, fields, 3, o3, map["name" := name]["symbol" := symbol]["uri" := uri], decode, b58)
  {
    var m1 := map["name" := name];
    var m2 := m1["symbol" := symbol];
    calc {
      ParseFieldsFrom(data, fields, 0, HeaderLength, map[], decode, b58);
      { StringStep(data, HeaderLength, nn, un, name, o1, fields, 0, "name", map[], decode, b58); }
      ParseFieldsFrom(data, fields, 1, o1, m1, decode, b58);
      { StringStep(data, o1, ns, us, symbol, o2, fields, 1, "symbol", m1, decode, b58); }
      ParseFieldsFrom(data, fields, 2, o2, m2, decode, b58);
      { StringStep(data, o2, nu, uu, uri, o3, fields, 2, "uri", m2, decode, b58); }
      ParseFieldsFrom(data, fields, 3, o3, m2["uri" := uri], decode, b58);
    }
  }

  /** Three string fields with valid UTF-8, back to back from `HeaderLength`: the parse succeeds, keys clipped. */
  lemma FieldsOfLayout(data: seq<Byte>, nn: nat, un: seq<Byte>, ns: nat, us: seq<Byte>, nu: nat, uu: seq<Byte>,
                       name: string, symbol: string, uri: string, o1: nat, o2: nat, o3: nat,
                       fields: seq<Field>, decode: TextDecoder, b58: Base58)
    requires Layout(fields)
    requires StringFieldAt(data, HeaderLength, nn, un) && decode(un) == Some(name)
    requires o1 == HeaderLength + LengthPrefixSize + nn
    requires StringFieldAt(data, o1, ns, us) && decode(us) == Some(symbol)
    requires o2 == o1 + LengthPrefixSize + ns
    requires StringFieldAt(data, o2, nu, uu) && decode(uu) == Some(uri)
    requires o3 == o2 + LengthPrefixSize + nu
    ensures ParseFieldsFrom(data, fields, 0, HeaderLength, map[], decode, b58) == Some(KeysAt(name, symbol, uri, data, o3, b58))
  {
    StringsRead(data, nn, un, ns, us, nu, uu, name, symbol, uri, o1, o2, o3, fields, decode, b58);
    KeysRead(data, o3, fields, map["name" := name]["symbol" := symbol]["uri" := uri], decode, b58);
  }

  /**
   * Clipping: once the three strings read as valid UTF-8 (each maybe cut
   * short by the end of the input), the parse succeeds whatever follows,
   * each key rendered from its 32-byte slice clipped to the input.
   */
  lemma ParseStrings(data: seq<Byte>, nn: nat, un: seq<Byte>, ns: nat, us: seq<Byte>, nu: nat, uu: seq<Byte>,
                     name: string, symbol: string, uri: string, o1: nat, o2: nat, o3: nat, b58: Base58)
    requires StringFieldAt(data, HeaderLength, nn, un) && Utf8.Decode(un) == Some(name)
    requires o1 == HeaderLength + LengthPrefixSize + nn
    requires StringFieldAt(data, o1, ns, us) && Utf8.Decode(us) == Some(symbol)
    requires o2 == o1 + LengthPrefixSize + ns
    requires StringFieldAt(data, o2, nu, uu) && Utf8.Decode(uu) == Some(uri)
    requires o3 == o2 + LengthPrefixSize + nu
    ensures ParseCreate(data, b58) == Some(KeysAt(name, symbol, uri, data, o3, b58))
  {
    CreateEventFieldsLayout();
    FieldsOfLayout(data, nn, un, ns, us, nu, uu, name, symbol, uri, o1, o2, o3, CreateEventFields, Utf8.Decode, b58);
  }

  /** The three length-prefixed strings of a payload, as the decoder reads them. */
  lemma StringsOfPayload(h: seq<Byte>, a: seq<Byte>, b: seq<Byte>, c: seq<Byte>, k: seq<Byte>, t: seq<Byte>,
                         un: seq<Byte>, us: seq<Byte>, uu: seq<Byte>)
    requires |un| < U32Limit && |us| < U32Limit && |uu| < U32Limit
    requires a == LengthPrefixed(un) && b == LengthPrefixed(us) && c == LengthPrefixed(uu)
    ensures StringFieldAt(h + a + b + c + k + t, |h|, |un|, un)
    ensures StringFieldAt(h + a + b + c + k + t, |h + a|, |us|, us)
    ensures StringFieldAt(h + a + b + c + k + t, |h + a + b|, |uu|, uu)
  {
    var d := h + a + b + c + k + t;
    PayloadParts(h, a, b, c, k, t);
    CountedBytes(d, |h|, |un|, un);
    CountedBytes(d, |h + a|, |us|, us);
    CountedBytes(d, |h + a + b|, |uu|, uu);
  }

  /** The six keys of a payload, as the decoder reads them from `o` on. */
  lemma KeysOfPayload(d: seq<Byte>, o: nat, e: Event, b58: Base58)
    requires WellFormed(e) && SegmentAt(d, o, KeyBytes(e))
    ensures KeysAt(e.name, e.symbol, e.uri, d, o, b58) == Rendered(e, b58)
  {
    var k := KeyBytes(e);
    KeyParts(e);
    SegmentWithin(d, o, k, 0, e.mint);
    SegmentWithin(d, o, k, 32, e.bondingCurve);
    SegmentWithin(d, o, k, 64, e.associatedBondingCurve);
    SegmentWithin(d, o, k, 96, e.associatedUser);
    SegmentWithin(d, o, k, 128, e.user);
    SegmentWithin(d, o, k, 160, e.source);
    SliceOfSegment(d, o, o + 32, e.mint);
    SliceOfSegment(d, o + 32, o + 64, e.bondingCurve);
    SliceOfSegment(d, o + 64, o + 96, e.associatedBondingCurve);
    SliceOfSegment(d, o + 96, o + 128, e.associatedUser);
    SliceOfSegment(d, o + 128, o + 160, e.user);
    SliceOfSegment(d, o + 160, o + 192, e.source);
  }

  /** A segment read back with the decoder's clipping slice. */
  lemma SliceOfSegment(d: seq<Byte>, lo: nat, hi: nat, y: seq<Byte>)
    requires SegmentAt(d, lo, y) && hi == lo + |y|
    ensures Slice(d, lo, hi) == y
  {
  }

  /** Round trip: the decoder returns exactly the event its producer serialized, whatever the header and trailer. */
  lemma RoundTrip(header: seq<Byte>, e: Event, trailing: seq<Byte>, b58: Base58)
    requires |header| == HeaderLength && WellFormed(e)
    ensures ParseCreate(Serialize(header, e, trailing), b58) == Some(Rendered(e, b58))
  {
    var un, us, uu := Utf8.Encode(e.name), Utf8.Encode(e.symbol), Utf8.Encode(e.uri);
    var a, b, c, k := LengthPrefixed(un), LengthPrefixed(us), LengthPrefixed(uu), KeyBytes(e);
    var d := header + a + b + c + k + trailing;
    StringsOfPayload(header, a, b, c, k, trailing, un, us, uu);
    Utf8.DecodeEncode(e.name);
    Utf8.DecodeEncode(e.symbol);
    Utf8.DecodeEncode(e.uri);
    ParseStrings(d, |un|, un, |us|, us, |uu|, uu, e.name, e.symbol, e.uri,
                 |header + a|, |header + a + b|, |header + a + b + c|, b58);
    PayloadParts(header, a, b, c, k, trailing);
    KeysOfPayload(d, |header + a + b + c|, e, b58);
  }

  /** Two payloads that differ at most in their first `HeaderLength` bytes. */
  predicate SameAfterHeader(d1: seq<Byte>, d2: seq<Byte>)
  {
    |d1| == |d2| && forall i | HeaderLength <= i < |d1| :: d1[i] == d2[i]
  }

  lemma SliceAfterHeader(d1: seq<Byte>, d2: seq<Byte>, lo: nat, hi: nat)
    requires SameAfterHeader(d1, d2) && HeaderLength <= lo <= hi
    ensures Slice(d1, lo, hi) == Slice(d2, lo, hi)
  {
    var s1, s2 := Slice(d1, lo, hi), Slice(d2, lo, hi);
    assert |s1| == |s2|;
    forall i | 0 <= i < |s1|
      ensures s1[i] == s2[i]
    {
      assert d1[lo + i] == d2[lo + i];
    }
  }

  /** A read past the header sees the same bytes in both payloads. */
  lemma ReadAfterHeader(d1: seq<Byte>, d2: seq<Byte>, o: nat, kind: FieldType, decode: TextDecoder, b58: Base58)
    requires SameAfterHeader(d1, d2) && HeaderLength <= o
    ensures ReadField(d1, o, kind, decode, b58) == ReadField(d2, o, kind, decode, b58)
  {
    match kind
    case StringField =>
      SliceAfterHeader(d1, d2, o, o + LengthPrefixSize);
      var lengthBytes := Slice(d1, o, o + LengthPrefixSize);
      if |lengthBytes| == LengthPrefixSize {
        SliceAfterHeader(d1, d2, o + LengthPrefixSize, o + LengthPrefixSize + U32LE(lengthBytes));
      }
    case PublicKeyField =>
      SliceAfterHeader(d1, d2, o, o + KeyLength);
  }

  /** The field loop past the header runs the same on both payloads. */
  lemma {:induction false} FieldsAfterHeader(d1: seq<Byte>, d2: seq<Byte>, fields: seq<Field>, i: nat, o: nat,
                                             parsed: Record, decode: TextDecoder, b58: Base58)
    requires SameAfterHeader(d1, d2) && HeaderLength <= o && i <= |fields|
    ensures ParseFieldsFrom(d1, fields, i, o, parsed, decode, b58) == ParseFieldsFrom(d2, fields, i, o, parsed, decode, b58)
    decreases |fields| - i
  {
    if i < |fields| {
      ReadAfterHeader(d1, d2, o, fields[i].kind, decode, b58);
      match ReadField(d1, o, fields[i].kind, decode, b58)
      case None =>
      case Some((value, next)) =>
        FieldsAfterHeader(d1, d2, fields, i + 1, next, parsed[fields[i].name := value], decode, b58);
    }
  }

  /** The 8-byte header is never inspected: payloads that differ only there decode alike. */
  lemma HeaderIgnored(d1: seq<Byte>, d2: seq<Byte>, b58: Base58)
    requires SameAfterHeader(d1, d2)
    ensures ParseCreate(d1, b58) == ParseCreate(d2, b58)
  {
    if |d1| >= HeaderLength {
      FieldsAfterHeader(d1, d2, CreateEventFields, 0, HeaderLength, map[], Utf8.Decode, b58);
    }
  }

  /** A payload that ends inside the name's 4-byte count decodes to nothing (struct.error). */
  lemma ShortCountFails(data: seq<Byte>, b58: Base58)
    requires HeaderLength <= |data| < HeaderLength + LengthPrefixSize
    ensures ParseCreate(data, b58).None?
  {
    CreateEventFieldsLayout();
    FieldFails(data, CreateEventFields, 0, HeaderLength, map[], Utf8.Decode, b58);
  }

  /** A name whose bytes are not strict UTF-8 makes the whole decode fail (UnicodeDecodeError). */
  lemma InvalidNameFails(data: seq<Byte>, n: nat, u: seq<Byte>, b58: Base58)
    requires StringFieldAt(data, HeaderLength, n, u) && !Utf8.Valid(u)
    ensures ParseCreate(data, b58).None?
  {
    Utf8.DecodeValid(u);
    CreateEventFieldsLayout();
    StringFails(data, HeaderLength, n, u, CreateEventFields, 0, map[], Utf8.Decode, b58);
  }

  /** The field loop after a name that leaves no room for the next 4-byte count fails. */
  lemma NameOverrunFieldsFail(data: seq<Byte>, n: nat, u: seq<Byte>, fields: seq<Field>, decode: TextDecoder,
                              b58: Base58)
    requires Layout(fields) && StringFieldAt(data, HeaderLength, n, u)
    requires |data| < HeaderLength + LengthPrefixSize + n + LengthPrefixSize
    ensures ParseFieldsFrom(data, fields, 0, HeaderLength, map[], decode, b58).None?
  {
    var o1 := HeaderLength + LengthPrefixSize + n;
    match decode(u)
    case None =>
      StringFails(data, HeaderLength, n, u, fields, 0, map[], decode, b58);
    case Some(name) =>
      StringStep(data, HeaderLength, n, u, name, o1, fields, 0, "name", map[], decode, b58);
      FieldFails(data, fields, 1, o1, map["name" := name], decode, b58);
  }

  /**
   * A name whose declared length leaves no room for the symbol's 4-byte
   * count: the next count read fails.
   */
  lemma NameOverrunFails(data: seq<Byte>, n: nat, u: seq<Byte>, b58: Base58)
    requires StringFieldAt(data, HeaderLength, n, u)
    requires |data| < HeaderLength + LengthPrefixSize + n + LengthPrefixSize
    ensures ParseCreate(data, b58).None?
  {
    CreateEventFieldsLayout();
    NameOverrunFieldsFail(data, n, u, CreateEventFields, Utf8.Decode, b58);
  }

  /** The dictionary of a payload whose keys all lie past its end: every key is the rendering of no bytes. */
  function EmptyKeys(name: string, symbol: string, uri: string, b58: Base58): Record
  {
    map[
      "name" := name, "symbol" := symbol, "uri" := uri,
      "mint" := b58([]), "bondingCurve" := b58([]),
      "associatedBondingCurve " := b58([]), "associatedUser " := b58([]),
      "user" := b58([]), "source" := b58([])]
  }

  lemma KeysPastEnd(name: string, symbol: string, uri: string, data: seq<Byte>, o: nat, b58: Base58)
    requires |data| <= o
    ensures KeysAt(name, symbol, uri, data, o, b58) == EmptyKeys(name, symbol, uri, b58)
  {
  }

  /** The three strings of a payload that ends inside the uri, as the decoder reads them. */
  lemma StringsOfClippedPayload(h: seq<Byte>, a: seq<Byte>, b: seq<Byte>, c: seq<Byte>,
                                un: seq<Byte>, us: seq<Byte>, n: nat, v: seq<Byte>)
    requires |un| < U32Limit && |us| < U32Limit && |v| < n < U32Limit
    requires a == LengthPrefixed(un) && b == LengthPrefixed(us) && c == U32LEBytes(n) + v
    ensures StringFieldAt(h + a + b + c, |h|, |un|, un)
    ensures StringFieldAt(h + a + b + c, |h + a|, |us|, us)
    ensures StringFieldAt(h + a + b + c, |h + a + b|, n, v)
  {
    var d := h + a + b + c;
    assert d == h + a + b + c + [] + [];
    PayloadParts(h, a, b, c, [], []);
    CountedBytes(d, |h|, |un|, un);
    CountedBytes(d, |h + a|, |us|, us);
    CountedBytes(d, |h + a + b|, n, v);
  }

  /**
   * A uri whose declared length runs past the end of the payload is not
   * an error: it is cut short, and the six keys read nothing.
   */
  lemma UriOverrunClipped(header: seq<Byte>, name: string, symbol: string, n: nat, v: seq<Byte>, uri: string,
                          b58: Base58)
    requires |header| == HeaderLength && Encodable(name) && Encodable(symbol)
    requires |v| < n < U32Limit && Utf8.Decode(v) == Some(uri)
    ensures ParseCreate(header + EncodeString(name) + EncodeString(symbol) + (U32LEBytes(n) + v), b58)
         == Some(EmptyKeys(name, symbol, uri, b58))
  {
    var un, us := Utf8.Encode(name), Utf8.Encode(symbol);
    var a, b, c := LengthPrefixed(un), LengthPrefixed(us), U32LEBytes(n) + v;
    var d := header + a + b + c;
    var o3 := |header + a + b| + LengthPrefixSize + n;
    StringsOfClippedPayload(header, a, b, c, un, us, n, v);
    Utf8.DecodeEncode(name);
    Utf8.DecodeEncode(symbol);
    ParseStrings(d, |un|, un, |us|, us, n, v, name, symbol, uri, |header + a|, |header + a + b|, o3, b58);
    KeysPastEnd(name, symbol, uri, d, o3, b58);
  }
}
