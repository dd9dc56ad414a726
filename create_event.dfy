/**
 * The CreateEvent payload decoder of listen.py (`parse_create_instruction`):
 * skip an 8-byte header, then read a fixed list of nine fields with one
 * running byte offset. Strings are a u32 little-endian length followed by
 * that many UTF-8 bytes; public keys are 32 bytes rendered as base58 text.
 * Reads use Python's clipping slices, so a length or key that runs past the
 * end is cut short rather than rejected; only a short length prefix and
 * invalid UTF-8 make the decoder return `None`.
 */
module CreateEvent {
  import opened Wrappers
  import opened Bytes
  import Utf8

  datatype FieldType = StringField | PublicKeyField

  datatype Field = Field(name: string, kind: FieldType)

  /** The 8 bytes skipped before the first field (never inspected). */
  const HeaderLength: nat := 8
  /** The size of a string's length prefix. */
  const LengthPrefixSize: nat := 4
  /** The size of a public key. */
  const KeyLength: nat := 32

  /**
   * The field list, in reading order, with the dictionary keys exactly as
   * spelled in the source: two of them carry a trailing space.
   */
  const CreateEventFields: seq<Field> := [
    Field("name", StringField),
    Field("symbol", StringField),
    Field("uri", StringField),
    Field("mint", PublicKeyField),
    Field("bondingCurve", PublicKeyField),
    Field("associatedBondingCurve ", PublicKeyField),
    Field("associatedUser ", PublicKeyField),
    Field("user", PublicKeyField),
    Field("source", PublicKeyField)
  ]

  const CreateEventKeys: set<string> := {
    "name", "symbol", "uri", "mint", "bondingCurve",
    "associatedBondingCurve ", "associatedUser ", "user", "source"
  }

  /** The dictionary the decoder fills in: field name to text. */
  type Record = map<string, string>

  /** `base58.b58encode(b).decode('utf-8')`, a library codec taken as a parameter. */
  type Base58 = seq<Byte> -> string

  /**
   * `bytes.decode('utf-8')`: `None` where it raises. The field reads take
   * it as a parameter; ParseCreate fixes it to the strict Utf8.Decode.
   */
  type TextDecoder = seq<Byte> -> Option<string>

  /** The names of the fields from index `i` on. */
  function NamesFrom(fields: seq<Field>, i: nat): set<string>
  {
    set j | i <= j < |fields| :: fields[j].name
  }

  /**
   * One iteration of the field loop at `offset`: the value read and the new
   * offset, or `None` where Python raises (struct.error on a short length
   * prefix, UnicodeDecodeError on bad UTF-8).
   */
  function ReadField(data: seq<Byte>, offset: nat, kind: FieldType, decode: TextDecoder, b58: Base58): (r: Option<(string, nat)>)
    ensures kind == PublicKeyField ==> r == Some((b58(Slice(data, offset, offset + KeyLength)), offset + KeyLength))
    ensures r.Some? && kind == StringField ==> r.value.1 >= offset + LengthPrefixSize
    ensures r.None? ==> kind == StringField
  {
    match kind
    case StringField =>
      var lengthBytes := Slice(data, offset, offset + LengthPrefixSize);
      if |lengthBytes| != LengthPrefixSize then None
      else
        var length := U32LE(lengthBytes);
        var start := offset + LengthPrefixSize;
        (match decode(Slice(data, start, start + length))
         case None => None
         case Some(text) => Some((text, start + length)))
    case PublicKeyField =>
      Some((b58(Slice(data, offset, offset + KeyLength)), offset + KeyLength))
  }

  /**
   * With the strict decoder, a read fails exactly for a string whose 4-byte
   * count is cut short or whose (clipped) bytes are not valid UTF-8.
   */
  lemma ReadFieldFails(data: seq<Byte>, offset: nat, kind: FieldType, b58: Base58)
    ensures ReadField(data, offset, kind, Utf8.Decode, b58).None? <==>
      && kind == StringField
      && (|data| < offset + LengthPrefixSize
          || !Utf8.Valid(Slice(data, offset + LengthPrefixSize,
                               offset + LengthPrefixSize + U32LE(Slice(data, offset, offset + LengthPrefixSize)))))
  {
    if kind == StringField && |data| >= offset + LengthPrefixSize {
      Utf8.DecodeValid(Slice(data, offset + LengthPrefixSize,
                             offset + LengthPrefixSize + U32LE(Slice(data, offset, offset + LengthPrefixSize))));
    }
  }

  /**
   * The field loop from field `i` on, with the dictionary `parsed` built so
   * far: the finished dictionary, or `None` as soon as one read raises.
   */
  function ParseFieldsFrom(data: seq<Byte>, fields: seq<Field>, i: nat, offset: nat, parsed: Record, decode: TextDecoder, b58: Base58): (r: Option<Record>)
    requires i <= |fields|
    ensures r.Some? ==> r.value.Keys == parsed.Keys + NamesFrom(fields, i)
    decreases |fields| - i
  {
    if i == |fields| then Some(parsed)
    else
      match ReadField(data, offset, fields[i].kind, decode, b58)
      case None => None
      case Some((value, next)) =>
        var r := ParseFieldsFrom(data, fields, i + 1, next, parsed[fields[i].name := value], decode, b58);
        assert r.Some? ==> NamesFrom(fields, i) == {fields[i].name} + NamesFrom(fields, i + 1);
        r
  }

  /** Past the last field the loop returns what it has built. */
  lemma FieldsDone(data: seq<Byte>, fields: seq<Field>, offset: nat, parsed: Record, decode: TextDecoder, b58: Base58)
    ensures ParseFieldsFrom(data, fields, |fields|, offset, parsed, decode, b58) == Some(parsed)
  {
  }

  /** A read that raises ends the field loop with `None`. */
  lemma FieldFails(data: seq<Byte>, fields: seq<Field>, i: nat, offset: nat, parsed: Record, decode: TextDecoder, b58: Base58)
    requires i < |fields| && ReadField(data, offset, fields[i].kind, decode, b58).None?
    ensures ParseFieldsFrom(data, fields, i, offset, parsed, decode, b58).None?
  {
  }

  /** A read that succeeds stores its value and moves the loop on. */
  lemma FieldSucceeds(data: seq<Byte>, fields: seq<Field>, i: nat, offset: nat, parsed: Record, decode: TextDecoder, b58: Base58,
                      value: string, next: nat)
    requires i < |fields| && ReadField(data, offset, fields[i].kind, decode, b58) == Some((value, next))
    ensures ParseFieldsFrom(data, fields, i, offset, parsed, decode, b58)
         == ParseFieldsFrom(data, fields, i + 1, next, parsed[fields[i].name := value], decode, b58)
  {
  }

  /** The key set is exactly the set of names in the field list. */
  lemma CreateEventNames()
    ensures NamesFrom(CreateEventFields, 0) == CreateEventKeys
  {
    var F := CreateEventFields;
    assert F[0].name == "name" && F[1].name == "symbol" && F[2].name == "uri";
    assert F[3].name == "mint" && F[4].name == "bondingCurve";
    assert F[5].name == "associatedBondingCurve " && F[6].name == "associatedUser ";
    assert F[7].name == "user" && F[8].name == "source";
  }

  /**
   * `parse_create_instruction(data)`: `None` for inputs under 8 bytes or
   * when a read raises; otherwise a dictionary with exactly the nine keys.
   */
  function ParseCreate(data: seq<Byte>, b58: Base58): (r: Option<Record>)
    ensures |data| < HeaderLength ==> r.None?
    ensures r.Some? ==> r.value.Keys == CreateEventKeys
  {
    if |data| < HeaderLength then None
    else
      CreateEventNames();
      ParseFieldsFrom(data, CreateEventFields, 0, HeaderLength, map[], Utf8.Decode, b58)
  }

  /** The loop of `parse_create_instruction`, proved equal to ParseCreate. */
  method ParseCreateInstruction(data: seq<Byte>, b58: Base58) returns (r: Option<Record>)
    ensures r == ParseCreate(data, b58)
  {
    if |data| < HeaderLength {
      return None;
    }
    var offset: nat := HeaderLength;
    var parsed: Record := map[];
    for i := 0 to |CreateEventFields|
      invariant ParseFieldsFrom(data, CreateEventFields, i, offset, parsed, Utf8.Decode, b58) == ParseCreate(data, b58)
    {
      var field := CreateEventFields[i];
      var read := ReadField(data, offset, field.kind, Utf8.Decode, b58);
      if read.None? {
        FieldFails(data, CreateEventFields, i, offset, parsed, Utf8.Decode, b58);
        return None;
      }
      var (value, next) := read.value;
      FieldSucceeds(data, CreateEventFields, i, offset, parsed, Utf8.Decode, b58, value, next);
      parsed := parsed[field.name := value];
      offset := next;
    }
    return Some(parsed);
  }
}
