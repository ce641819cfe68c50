// The shared dynamic value type that extensions exchange with the host,
// and its conversions to and from the host runtime's value type: each case
// maps to the case of the same name, containers element by element. The
// runtime's resource handles have no counterpart; converting one aborts.
module ComponentInvoke {
  import opened Wrappers
  import opened Ints
  import W = WasmValues

  datatype Val =
    | Bool(b: bool)
    | S8(s8: int8)
    | S16(s16: int16)
    | S32(s32: int32)
    | S64(s64: int64)
    | U8(u8: uint8)
    | U16(u16: uint16)
    | U32(u32: uint32)
    | U64(u64: uint64)
    | Float32(f32: bv32)
    | Float64(f64: bv64)
    | Char(c: char)
    | String(s: string)
    | Enum(name: string)
    | List(items: seq<Val>)
    | Option(payload: Option<Val>)
    | Record(fields: seq<(string, Val)>)
    | Result(outcome: Result<Option<Val>, Option<Val>>)
    | Tuple(elems: seq<Val>)
    | Variant(caseName: string, payload: Option<Val>)
    | Flags(names: seq<string>)

  // ---------------------------------------------------------------------
  // Val to runtime value (`From<Val> for WasmVal`)

  /** The runtime value of the same case; never a resource. */
  function ToWasm(v: Val): (w: W.WasmVal)
    ensures !HasResource(w)
    decreases v, 1
  {
    match v
    case Bool(x) => W.Bool(x)
    case S8(x) => W.S8(x)
    case S16(x) => W.S16(x)
    case S32(x) => W.S32(x)
    case S64(x) => W.S64(x)
    case U8(x) => W.U8(x)
    case U16(x) => W.U16(x)
    case U32(x) => W.U32(x)
    case U64(x) => W.U64(x)
    case Float32(x) => W.Float32(x)
    case Float64(x) => W.Float64(x)
    case Char(x) => W.Char(x)
    case String(x) => W.String(x)
    case Enum(x) => W.Enum(x)
    case List(vs) => W.List(ToWasmAll(vs))
    case Option(p) => W.Option(PayloadToWasm(p))
    case Record(fs) => W.Record(FieldsToWasm(fs))
    case Result(Ok(p)) => W.Result(Ok(PayloadToWasm(p)))
    case Result(Err(p)) => W.Result(Err(PayloadToWasm(p)))
    case Tuple(vs) => W.Tuple(ToWasmAll(vs))
    case Variant(k, p) => W.Variant(k, PayloadToWasm(p))
    case Flags(names) => W.Flags(names)
  }

  /** A list or tuple: same length, each element converted in place. */
  function ToWasmAll(vs: seq<Val>): (ws: seq<W.WasmVal>)
    ensures |ws| == |vs|
    ensures forall i :: 0 <= i < |vs| ==> ws[i] == ToWasm(vs[i])
    ensures !AnyResource(ws)
    decreases vs, 0
  {
    if |vs| == 0 then []
    else
      var ws := [ToWasm(vs[0])] + ToWasmAll(vs[1..]);
      assert ws[1..] == ToWasmAll(vs[1..]);
      ws
  }

  /** A record: same field names in the same order, each value converted. */
  function FieldsToWasm(fs: seq<(string, Val)>): (ws: seq<(string, W.WasmVal)>)
    ensures |ws| == |fs|
    ensures forall i :: 0 <= i < |fs| ==> ws[i] == FieldToWasm(fs[i])
    ensures !FieldHasResource(ws)
    decreases fs, 0
  {
    if |fs| == 0 then []
    else
      var ws := [FieldToWasm(fs[0])] + FieldsToWasm(fs[1..]);
      assert ws[1..] == FieldsToWasm(fs[1..]);
      ws
  }

  /** One record field: the name kept, the value converted. */
  function FieldToWasm(f: (string, Val)): (g: (string, W.WasmVal))
    ensures g.0 == f.0 && !HasResource(g.1)
    decreases f, 1
  {
    (f.0, ToWasm(f.1))
  }

  /** An optional payload: none stays none. */
  function PayloadToWasm(p: Option<Val>): (q: Option<W.WasmVal>)
    ensures q.None? <==> p.None?
    ensures !PayloadHasResource(q)
    decreases p, 0
  {
    match p
    case None => None
    case Some(x) => Some(ToWasm(x))
  }

  // ---------------------------------------------------------------------
  // Runtime value to Val (`From<WasmVal> for Val`)

  /** A resource handle occurs somewhere in the value. */
  predicate HasResource(w: W.WasmVal)
    decreases w, 1
  {
    match w
    case Resource(_) => true
    case List(ws) => AnyResource(ws)
    case Tuple(ws) => AnyResource(ws)
    case Option(p) => PayloadHasResource(p)
    case Variant(_, p) => PayloadHasResource(p)
    case Result(Ok(p)) => PayloadHasResource(p)
    case Result(Err(p)) => PayloadHasResource(p)
    case Record(fs) => FieldHasResource(fs)
    case _ => false
  }

  predicate AnyResource(ws: seq<W.WasmVal>)
    decreases ws, 0
  {
    |ws| > 0 && (HasResource(ws[0]) || AnyResource(ws[1..]))
  }

  predicate FieldHasResource(fs: seq<(string, W.WasmVal)>)
    decreases fs, 0
  {
    |fs| > 0 && (FieldResource(fs[0]) || FieldHasResource(fs[1..]))
  }

  predicate FieldResource(f: (string, W.WasmVal))
    decreases f, 1
  {
    HasResource(f.1)
  }

  predicate PayloadHasResource(p: Option<W.WasmVal>)
    decreases p, 0
  {
    p.Some? && HasResource(p.value)
  }

  /**
   * The value of the same case, or `None` where the conversion aborts (a
   * resource anywhere inside: it is not implemented).
   */
  function FromWasm(w: W.WasmVal): (r: Option<Val>)
    ensures r.Some? <==> !HasResource(w)
    decreases w, 1
  {
    match w
    case Bool(x) => Some(Bool(x))
    case S8(x) => Some(S8(x))
    case S16(x) => Some(S16(x))
    case S32(x) => Some(S32(x))
    case S64(x) => Some(S64(x))
    case U8(x) => Some(U8(x))
    case U16(x) => Some(U16(x))
    case U32(x) => Some(U32(x))
    case U64(x) => Some(U64(x))
    case Float32(x) => Some(Float32(x))
    case Float64(x) => Some(Float64(x))
    case Char(x) => Some(Char(x))
    case String(x) => Some(String(x))
    case Enum(x) => Some(Enum(x))
    case List(ws) => (match FromWasmAll(ws) case Some(vs) => Some(List(vs)) case None => None)
    case Option(p) => (match PayloadFromWasm(p) case Some(q) => Some(Option(q)) case None => None)
    case Record(fs) => (match FieldsFromWasm(fs) case Some(gs) => Some(Record(gs)) case None => None)
    case Result(Ok(p)) => (match PayloadFromWasm(p) case Some(q) => Some(Result(Ok(q))) case None => None)
    case Result(Err(p)) => (match PayloadFromWasm(p) case Some(q) => Some(Result(Err(q))) case None => None)
    case Tuple(ws) => (match FromWasmAll(ws) case Some(vs) => Some(Tuple(vs)) case None => None)
    case Variant(k, p) => (match PayloadFromWasm(p) case Some(q) => Some(Variant(k, q)) case None => None)
    case Flags(names) => Some(Flags(names))
    case Resource(_) => None
  }

  /** Converts every element, or aborts when one of them does. */
  function FromWasmAll(ws: seq<W.WasmVal>): (r: Option<seq<Val>>)
    ensures r.Some? <==> !AnyResource(ws)
    ensures r.Some? ==> |r.value| == |ws|
    decreases ws, 0
  {
    if |ws| == 0 then Some([])
    else match (FromWasm(ws[0]), FromWasmAll(ws[1..]))
      case (Some(v), Some(vs)) => Some([v] + vs)
      case _ => None
  }

  function FieldsFromWasm(fs: seq<(string, W.WasmVal)>): (r: Option<seq<(string, Val)>>)
    ensures r.Some? <==> !FieldHasResource(fs)
    ensures r.Some? ==> |r.value| == |fs|
    ensures r.Some? ==> forall i :: 0 <= i < |fs| ==> r.value[i].0 == fs[i].0
    decreases fs, 0
  {
    if |fs| == 0 then Some([])
    else match (FieldFromWasm(fs[0]), FieldsFromWasm(fs[1..]))
      case (Some(g), Some(gs)) => Some([g] + gs)
      case _ => None
  }

  function FieldFromWasm(f: (string, W.WasmVal)): (r: Option<(string, Val)>)
    ensures r.Some? <==> !FieldResource(f)
    ensures r.Some? ==> r.value.0 == f.0
    decreases f, 1
  {
    match FromWasm(f.1)
    case Some(v) => Some((f.0, v))
    case None => None
  }

  /** An optional payload converts to `Some(None)` when absent. */
  function PayloadFromWasm(p: Option<W.WasmVal>): (r: Option<Option<Val>>)
    ensures p.None? ==> r == Some(None)
    ensures r.Some? ==> (r.value.None? <==> p.None?)
    decreases p, 0
  {
    match p
    case None => Some(None)
    case Some(x) => (match FromWasm(x) case Some(v) => Some(Some(v)) case None => None)
  }

  // ---------------------------------------------------------------------
  // Each conversion at a collection, unfolded once

  lemma ListToWasm(vs: seq<Val>)
    ensures ToWasm(List(vs)) == W.List(ToWasmAll(vs))
  {
  }

  lemma TupleToWasm(vs: seq<Val>)
    ensures ToWasm(Tuple(vs)) == W.Tuple(ToWasmAll(vs))
  {
  }

  lemma RecordToWasm(fs: seq<(string, Val)>)
    ensures ToWasm(Record(fs)) == W.Record(FieldsToWasm(fs))
  {
  }

  lemma ListFromWasm(ws: seq<W.WasmVal>)
    ensures FromWasm(W.List(ws)) == (if FromWasmAll(ws).Some? then Some(List(FromWasmAll(ws).value)) else None)
  {
  }

  lemma TupleFromWasm(ws: seq<W.WasmVal>)
    ensures FromWasm(W.Tuple(ws)) == (if FromWasmAll(ws).Some? then Some(Tuple(FromWasmAll(ws).value)) else None)
  {
  }

  lemma RecordFromWasm(fs: seq<(string, W.WasmVal)>)
    ensures FromWasm(W.Record(fs)) == (if FieldsFromWasm(fs).Some? then Some(Record(FieldsFromWasm(fs).value)) else None)
  {
  }

  // ---------------------------------------------------------------------
  // The two conversions are inverse

  /** Converting to the runtime value and back gives the value itself. */
  lemma {:induction false} RoundTrip(v: Val)
    ensures FromWasm(ToWasm(v)) == Some(v)
    decreases v, 2
  {
    if v.List? || v.Tuple? || v.Record? {
      RoundTripCollection(v);
    } else if v.Option? || v.Variant? || v.Result? {
      RoundTripWrapper(v);
    }
  }

  /** Lists, tuples and records. */
  lemma {:induction false} RoundTripCollection(v: Val)
    requires v.List? || v.Tuple? || v.Record?
    ensures FromWasm(ToWasm(v)) == Some(v)
    decreases v, 1
  {
    match v
    case List(vs) =>
      RoundTripAll(vs);
      RoundTripList(vs);
    case Tuple(vs) =>
      RoundTripAll(vs);
      RoundTripTuple(vs);
    case Record(fs) =>
      RoundTripFields(fs);
      RoundTripRecord(fs);
  }

  lemma RoundTripList(vs: seq<Val>)
    requires FromWasmAll(ToWasmAll(vs)) == Some(vs)
    ensures FromWasm(ToWasm(List(vs))) == Some(List(vs))
  {
    ListToWasm(vs);
    ListFromWasm(ToWasmAll(vs));
  }

  lemma RoundTripTuple(vs: seq<Val>)
    requires FromWasmAll(ToWasmAll(vs)) == Some(vs)
    ensures FromWasm(ToWasm(Tuple(vs))) == Some(Tuple(vs))
  {
    TupleToWasm(vs);
    TupleFromWasm(ToWasmAll(vs));
  }

  lemma RoundTripRecord(fs: seq<(string, Val)>)
    requires FieldsFromWasm(FieldsToWasm(fs)) == Some(fs)
    ensures FromWasm(ToWasm(Record(fs))) == Some(Record(fs))
  {
    RecordToWasm(fs);
    RecordFromWasm(FieldsToWasm(fs));
  }

  /** Options, variants and results. */
  lemma {:induction false} RoundTripWrapper(v: Val)
    requires v.Option? || v.Variant? || v.Result?
    ensures FromWasm(ToWasm(v)) == Some(v)
    decreases v, 1
  {
    match v
    case Option(p) => RoundTripPayload(p);
    case Variant(_, p) => RoundTripPayload(p);
    case Result(Ok(p)) => RoundTripPayload(p);
    case Result(Err(p)) => RoundTripPayload(p);
  }

  lemma {:induction false} RoundTripAll(vs: seq<Val>)
    ensures FromWasmAll(ToWasmAll(vs)) == Some(vs)
    decreases vs, 0
  {
    if |vs| > 0 {
      RoundTrip(vs[0]);
      RoundTripAll(vs[1..]);
      assert ToWasmAll(vs)[1..] == ToWasmAll(vs[1..]);
      assert [vs[0]] + vs[1..] == vs;
    }
  }

  lemma {:induction false} RoundTripFields(fs: seq<(string, Val)>)
    ensures FieldsFromWasm(FieldsToWasm(fs)) == Some(fs)
    decreases fs, 0
  {
    if |fs| > 0 {
      RoundTripField(fs[0]);
      RoundTripFields(fs[1..]);
      assert FieldsToWasm(fs)[1..] == FieldsToWasm(fs[1..]);
      assert [(fs[0].0, fs[0].1)] + fs[1..] == fs;
    }
  }

  lemma {:induction false} RoundTripField(f: (string, Val))
    ensures FieldFromWasm(FieldToWasm(f)) == Some(f)
    decreases f, 1
  {
    RoundTrip(f.1);
  }

  lemma {:induction false} RoundTripPayload(p: Option<Val>)
    ensures PayloadFromWasm(PayloadToWasm(p)) == Some(p)
    decreases p, 0
  {
    if p.Some? {
      RoundTrip(p.value);
    }
  }

  /**
   * Converting a runtime value succeeds exactly when it holds no resource,
   * and then converting back gives the runtime value itself.
   */
  lemma {:induction false} BackAndForth(w: W.WasmVal)
    ensures FromWasm(w).Some? <==> !HasResource(w)
    ensures FromWasm(w).Some? ==> ToWasm(FromWasm(w).value) == w
    decreases w, 2
  {
    if w.List? || w.Tuple? || w.Record? {
      BackAndForthCollection(w);
    } else if w.Option? || w.Variant? || w.Result? {
      BackAndForthWrapper(w);
    }
  }

  /** Lists, tuples and records. */
  lemma {:induction false} BackAndForthCollection(w: W.WasmVal)
    requires w.List? || w.Tuple? || w.Record?
    ensures FromWasm(w).Some? <==> !HasResource(w)
    ensures FromWasm(w).Some? ==> ToWasm(FromWasm(w).value) == w
    decreases w, 1
  {
    match w
    case List(ws) =>
      BackAndForthAll(ws);
      BackAndForthList(ws);
    case Tuple(ws) =>
      BackAndForthAll(ws);
      BackAndForthTuple(ws);
    case Record(fs) =>
      BackAndForthFields(fs);
      BackAndForthRecord(fs);
  }

  lemma BackAndForthList(ws: seq<W.WasmVal>)
    requires FromWasmAll(ws).Some? <==> !AnyResource(ws)
    requires FromWasmAll(ws).Some? ==> ToWasmAll(FromWasmAll(ws).value) == ws
    ensures FromWasm(W.List(ws)).Some? <==> !HasResource(W.List(ws))
    ensures FromWasm(W.List(ws)).Some? ==> ToWasm(FromWasm(W.List(ws)).value) == W.List(ws)
  {
    ListFromWasm(ws);
    if FromWasmAll(ws).Some? {
      ListToWasm(FromWasmAll(ws).value);
    }
  }

  lemma BackAndForthTuple(ws: seq<W.WasmVal>)
    requires FromWasmAll(ws).Some? <==> !AnyResource(ws)
    requires FromWasmAll(ws).Some? ==> ToWasmAll(FromWasmAll(ws).value) == ws
    ensures FromWasm(W.Tuple(ws)).Some? <==> !HasResource(W.Tuple(ws))
    ensures FromWasm(W.Tuple(ws)).Some? ==> ToWasm(FromWasm(W.Tuple(ws)).value) == W.Tuple(ws)
  {
    TupleFromWasm(ws);
    if FromWasmAll(ws).Some? {
      TupleToWasm(FromWasmAll(ws).value);
    }
  }

  lemma BackAndForthRecord(fs: seq<(string, W.WasmVal)>)
    requires FieldsFromWasm(fs).Some? <==> !FieldHasResource(fs)
    requires FieldsFromWasm(fs).Some? ==> FieldsToWasm(FieldsFromWasm(fs).value) == fs
    ensures FromWasm(W.Record(fs)).Some? <==> !HasResource(W.Record(fs))
    ensures FromWasm(W.Record(fs)).Some? ==> ToWasm(FromWasm(W.Record(fs)).value) == W.Record(fs)
  {
    RecordFromWasm(fs);
    if FieldsFromWasm(fs).Some? {
      RecordToWasm(FieldsFromWasm(fs).value);
    }
  }

  /** Options, variants and results. */
  lemma {:induction false} BackAndForthWrapper(w: W.WasmVal)
    requires w.Option? || w.Variant? || w.Result?
    ensures FromWasm(w).Some? <==> !HasResource(w)
    ensures FromWasm(w).Some? ==> ToWasm(FromWasm(w).value) == w
    decreases w, 1
  {
    match w
    case Option(p) => BackAndForthPayload(p);
    case Variant(_, p) => BackAndForthPayload(p);
    case Result(Ok(p)) => BackAndForthPayload(p);
    case Result(Err(p)) => BackAndForthPayload(p);
  }

  lemma {:induction false} BackAndForthAll(ws: seq<W.WasmVal>)
    ensures FromWasmAll(ws).Some? <==> !AnyResource(ws)
    ensures FromWasmAll(ws).Some? ==> ToWasmAll(FromWasmAll(ws).value) == ws
    decreases ws, 0
  {
    if |ws| > 0 {
      BackAndForth(ws[0]);
      BackAndForthAll(ws[1..]);
      if FromWasmAll(ws).Some? {
        var vs := FromWasmAll(ws).value;
        assert vs[1..] == FromWasmAll(ws[1..]).value;
        assert ToWasmAll(vs) == [ToWasm(vs[0])] + ToWasmAll(vs[1..]);
        assert [ws[0]] + ws[1..] == ws;
      }
    }
  }

  lemma {:induction false} BackAndForthFields(fs: seq<(string, W.WasmVal)>)
    ensures FieldsFromWasm(fs).Some? <==> !FieldHasResource(fs)
    ensures FieldsFromWasm(fs).Some? ==> FieldsToWasm(FieldsFromWasm(fs).value) == fs
    decreases fs, 0
  {
    if |fs| > 0 {
      BackAndForthField(fs[0]);
      BackAndForthFields(fs[1..]);
      if FieldsFromWasm(fs).Some? {
        var gs := FieldsFromWasm(fs).value;
        assert gs[1..] == FieldsFromWasm(fs[1..]).value;
        assert FieldsToWasm(gs) == [FieldToWasm(gs[0])] + FieldsToWasm(gs[1..]);
        assert [fs[0]] + fs[1..] == fs;
      }
    }
  }

  lemma {:induction false} BackAndForthField(f: (string, W.WasmVal))
    ensures FieldFromWasm(f).Some? <==> !FieldResource(f)
    ensures FieldFromWasm(f).Some? ==> FieldToWasm(FieldFromWasm(f).value) == f
    decreases f, 1
  {
    BackAndForth(f.1);
  }

  lemma {:induction false} BackAndForthPayload(p: Option<W.WasmVal>)
    ensures PayloadFromWasm(p).Some? <==> !PayloadHasResource(p)
    ensures PayloadFromWasm(p).Some? ==> PayloadToWasm(PayloadFromWasm(p).value) == p
    decreases p, 0
  {
    if p.Some? {
      BackAndForth(p.value);
    }
  }
}
