/** Field types, field values and the byte encoding of fields. */
module Types {
  import opened Common

  datatype FieldType = IntType | StringType

  /** The longest string a string field stores. */
  const STRING_LEN: nat := 128

  /** Bytes a field of the given type occupies on a page: a 4-byte int, or a
      4-byte length followed by STRING_LEN bytes of characters. */
  function TypeLen(t: FieldType): (n: nat)
    ensures n > 0
  {
    match t
    case IntType => 4
    case StringType => STRING_LEN + 4
  }

  /** A field value: compared by value, as the engine's fields are. */
  datatype Field = IntField(intValue: int) | StringField(stringValue: string)

  function TypeOf(f: Field): FieldType
  {
    if f.IntField? then IntType else StringType
  }

  /** The field codec: `Field.serialize` and `Type.parse`. Their byte layout
      lives in classes outside this model, so the engine's code is written
      against any codec; the page-level results assume only what is stated
      as a premise. */
  datatype Codec = Codec(enc: Field -> seq<Byte>, dec: (FieldType, seq<Byte>) -> Field)

  /** Every field encodes at its type's width and parsing yields a field of
      the requested type. */
  ghost predicate WellBehaved(c: Codec)
  {
    && (forall f :: |c.enc(f)| == TypeLen(TypeOf(f)))
    && (forall t, b :: TypeOf(c.dec(t, b)) == t)
  }

  /** Parsing the encoding of this particular field gives it back. */
  ghost predicate RoundTrips(c: Codec, f: Field)
  {
    c.dec(TypeOf(f), c.enc(f)) == f
  }
}
