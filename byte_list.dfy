// The host's byte plumbing around a component call: a byte string is
// passed as a list of `u8` values, and a result list of `u8` values is
// read back as bytes.
module CliInvoke {
  import opened Wrappers
  import opened Ints
  import opened WasmValues

  /** Why a runtime value is not a byte list. */
  datatype ByteListError =
    | NotAList(raw: WasmVal)
    | NonU8Element(item: WasmVal)

  /** The bytes-to-list step of `execute_component_function`: one `U8` per byte, in order. */
  function BytesToU8List(bytes: seq<uint8>): (vs: seq<WasmVal>)
    ensures |vs| == |bytes|
    ensures forall i :: 0 <= i < |bytes| ==> vs[i] == U8(bytes[i])
  {
    seq(|bytes|, i requires 0 <= i < |bytes| => U8(bytes[i]))
  }

  /**
   * `try_wasm_list_u8_to_vec_u8`: a list of `U8` values gives their bytes
   * in order; the first element of another kind fails the whole
   * conversion; a value that is not a list fails.
   */
  function TryListToBytes(raw: WasmVal): (r: Result<seq<uint8>, ByteListError>)
    ensures !raw.List? <==> r == Err(NotAList(raw))
    ensures raw.List? && r.Ok? ==> |r.value| == |raw.items| && forall i :: 0 <= i < |raw.items| ==> raw.items[i] == U8(r.value[i])
    ensures raw.List? && r.Err? ==>
      exists i :: 0 <= i < |raw.items| && r.error == NonU8Element(raw.items[i])
        && !raw.items[i].U8? && forall j :: 0 <= j < i ==> raw.items[j].U8?
  {
    match raw
    case List(vs) => CollectBytes(vs)
    case _ => Err(NotAList(raw))
  }

  /** Collecting the list's elements, stopping at the first that is not a `U8`. */
  function CollectBytes(vs: seq<WasmVal>): (r: Result<seq<uint8>, ByteListError>)
    ensures r.Ok? ==> |r.value| == |vs| && forall i :: 0 <= i < |vs| ==> vs[i] == U8(r.value[i])
    ensures r.Ok? <==> forall i :: 0 <= i < |vs| ==> vs[i].U8?
    ensures r.Err? ==>
      exists i :: 0 <= i < |vs| && r.error == NonU8Element(vs[i])
        && !vs[i].U8? && forall j :: 0 <= j < i ==> vs[j].U8?
  {
    if |vs| == 0 then Ok([])
    else if !vs[0].U8? then Err(NonU8Element(vs[0]))
    else match CollectBytes(vs[1..])
      case Ok(rest) => Ok([vs[0].u8] + rest)
      case Err(e) =>
        ghost var i :| 0 <= i < |vs[1..]| && e == NonU8Element(vs[1..][i])
          && !vs[1..][i].U8? && forall j :: 0 <= j < i ==> vs[1..][j].U8?;
        assert vs[i + 1] == vs[1..][i];
        assert forall j :: 1 <= j < i + 1 ==> vs[j] == vs[1..][j - 1];
        Err(e)
  }

  /** Bytes passed as a `U8` list read back as the same bytes. */
  lemma BytesRoundTrip(bytes: seq<uint8>)
    ensures TryListToBytes(List(BytesToU8List(bytes))) == Ok(bytes)
  {
    var r := TryListToBytes(List(BytesToU8List(bytes)));
    var vs := BytesToU8List(bytes);
    assert forall i :: 0 <= i < |vs| ==> vs[i].U8?;
    assert r.Ok? && |r.value| == |bytes|;
    forall i | 0 <= i < |bytes| ensures r.value[i] == bytes[i] {
      assert vs[i] == U8(r.value[i]) && vs[i] == U8(bytes[i]);
    }
    assert r.value == bytes;
  }

  /** A list read back as bytes is the `U8` list of those bytes. */
  lemma ListRoundTrip(raw: WasmVal)
    requires TryListToBytes(raw).Ok?
    ensures raw == List(BytesToU8List(TryListToBytes(raw).value))
  {
  }
}
