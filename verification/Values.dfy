// Dynamically typed component values.

module Values {
  import opened Words
  import opened Wrappers

  /** A Go string: its bytes. Also used for the names of fields, cases and flags. */
  type Bytes = seq<byte>

  /**
    One constructor per kind; Nil is the zero Val, whose payload is nil. Integers carry their
    mathematical value, floats their bit pattern, and an absent pointer is None.
   */
  datatype Val =
    | Nil
    | Bool(b: bool)
    | S8(s8: int8) | U8(u8: byte)
    | S16(s16: int16) | U16(u16: uint16)
    | S32(s32: int32) | U32(u32: uint32)
    | S64(s64: int64) | U64(u64: uint64)
    | F32(f32: uint32) | F64(f64: uint64)
    | Char(rune: int32)
    | String(text: Bytes)
    | List(elems: seq<Val>)
    | Record(fields: map<Bytes, Val>)
    | Tuple(items: seq<Val>)
    | Variant(caseName: Bytes, payload: Option<Val>)
    | Enum(name: Bytes)
    | Optional(some: Option<Val>)
    | ResultOf(isOk: bool, ok: Option<Val>, err: Option<Val>)
    | Flags(flags: map<Bytes, bool>)
    | Own(own: uint32) | Borrow(borrow: uint32)
}
