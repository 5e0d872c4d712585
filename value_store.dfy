/**
 * The value store: `m_values` (one value per spec, in schema order, starting from the
 * defaults the builder collected) and `m_arguments_found` (whether each spec was
 * supplied). A tagged union takes the place of `std::any`, so reading a value back
 * can no longer fail on a bad cast.
 */
module ValueStore {
  import opened Wrappers
  import opened Schema
  import opened Conversion

  datatype Value = BoolValue(b: bool) | StringValue(s: string) | IntValue(i: int)

  predicate HasParamType(v: Value, t: ParamType)
  {
    match t
    case Text => v.StringValue?
    case Integer => v.IntValue? && MinInt32 <= v.i <= MaxInt32
  }

  /** The value a spec of this kind holds: a bool for a flag, its declared type otherwise. */
  predicate HasType(v: Value, kind: Kind)
  {
    match kind
    case Flag => v.BoolValue?
    case Named(t) => HasParamType(v, t)
    case OptionallyNamed(t) => HasParamType(v, t)
  }

  datatype Store = Store(values: seq<Value>, found: seq<bool>)

  /** The two arrays run parallel to the schema and each value has its spec's type. */
  predicate WellTyped(schema: seq<Spec>, store: Store)
  {
    |store.values| == |schema| && |store.found| == |schema| &&
    forall i :: 0 <= i < |schema| ==> HasType(store.values[i], schema[i].kind)
  }

  /** The defaults the builder collects: `false` for each flag, the caller's default of the
      declared type for each parameter. */
  predicate DefaultsFit(schema: seq<Spec>, defaults: seq<Value>)
  {
    |defaults| == |schema| &&
    forall i :: 0 <= i < |schema| ==>
      HasType(defaults[i], schema[i].kind) && (schema[i].kind.Flag? ==> defaults[i] == BoolValue(false))
  }

  /** The store a freshly created parser holds: the defaults, nothing found yet. */
  function InitialStore(schema: seq<Spec>, defaults: seq<Value>): (store: Store)
    requires DefaultsFit(schema, defaults)
    ensures WellTyped(schema, store)
    ensures forall i :: 0 <= i < |schema| ==> !store.found[i] && store.values[i] == defaults[i]
  {
    Store(defaults, seq(|defaults|, _ => false))
  }

  /** `stream << text; stream >> result` into a value of type `t`; `None` when the
      stream's failbit is set. */
  function Convert(t: ParamType, text: string): (r: Option<Value>)
    ensures r.Some? ==> HasParamType(r.value, t)
    ensures t == Text ==> (r.Some? <==> ExtractWord(text).Some?)
    ensures t == Integer ==> (r.Some? <==> ExtractInt(text).Some?)
    ensures t == Text && r.Some? ==> r.value == StringValue(ExtractWord(text).value)
    ensures t == Integer && r.Some? ==> r.value == IntValue(ExtractInt(text).value)
  {
    match t
    case Text =>
      (match ExtractWord(text)
       case Some(word) => Some(StringValue(word))
       case None => None)
    case Integer =>
      (match ExtractInt(text)
       case Some(n) => Some(IntValue(n))
       case None => None)
  }

  /** `try_store_at(index, text)` with `store_at_impl`: the spec is marked found first,
      then the text is converted; only a successful conversion overwrites the value.
      The first component tells whether the conversion succeeded. */
  function TryStoreAt(schema: seq<Spec>, store: Store, index: nat, text: string): (r: (bool, Store))
    requires WellTyped(schema, store) && index < |schema| && !schema[index].kind.Flag?
    ensures WellTyped(schema, r.1)
    ensures r.1.found[index]
    ensures r.0 <==> Convert(schema[index].kind.valueType, text).Some?
    ensures r.0 ==> r.1.values[index] == Convert(schema[index].kind.valueType, text).value
    ensures !r.0 ==> r.1.values == store.values
    ensures forall k :: 0 <= k < |schema| && k != index ==>
              r.1.values[k] == store.values[k] && r.1.found[k] == store.found[k]
  {
    var found := store.found[index := true];
    match Convert(schema[index].kind.valueType, text)
    case Some(v) => (true, Store(store.values[index := v], found))
    case None => (false, Store(store.values, found))
  }

  /** `set_flag(index)`: the flag reads `true` and counts as found; nothing else changes. */
  function SetFlag(schema: seq<Spec>, store: Store, index: nat): (r: Store)
    requires WellTyped(schema, store) && index < |schema| && schema[index].kind.Flag?
    ensures WellTyped(schema, r)
    ensures r.found[index] && r.values[index] == BoolValue(true)
    ensures forall k :: 0 <= k < |schema| && k != index ==>
              r.values[k] == store.values[k] && r.found[k] == store.found[k]
  {
    Store(store.values[index := BoolValue(true)], store.found[index := true])
  }
}
