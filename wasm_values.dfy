// The host runtime's dynamic component value, as far as the conversions
// see it: the same cases as the shared value type plus a resource handle,
// which is opaque here. Floating-point numbers are carried as their bit
// patterns.
module WasmValues {
  import opened Wrappers
  import opened Ints

  datatype WasmVal =
    | Bool(b: bool)
    | S8(s8: int8)
    | S16(s16: int16)
    | S32(s32: int32)
    | S64(s64: int64)
    | U8(u8: uint8)
    | U16(u16: uint16)
    | U32(u32: uint32)
    | U64(u64: uint64)
    | Float32(f32: bv32)
    | Float64(f64: bv64)
    | Char(c: char)
    | String(s: string)
    | Enum(name: string)
    | List(items: seq<WasmVal>)
    | Option(payload: Option<WasmVal>)
    | Record(fields: seq<(string, WasmVal)>)
    | Result(outcome: Result<Option<WasmVal>, Option<WasmVal>>)
    | Tuple(elems: seq<WasmVal>)
    | Variant(caseName: string, payload: Option<WasmVal>)
    | Flags(names: seq<string>)
    | Resource(handle: nat)
}
