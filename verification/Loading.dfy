/**
 Model loading: the recursive interpretation of annotations, loaders compiled once per field, and a registry
 that remembers field lists, load plans and adapter selections. The registry is proved against the
 interpretation, which remembers nothing.
 */
module Loading {
  import opened Ordering

  type ClassName = string

  /** A resolved annotation. `Special` is whatever is neither a class nor a form known here; `TupleOf([])` is a
      tuple without arguments. */
  datatype Annotation =
    | AnyType
    | Bare(cls: ClassName)
    | Union(options: seq<Annotation>)
    | ListOf(item: Annotation)
    | TupleOf(items: seq<Annotation>)
    | TupleAll(item: Annotation)
    | DictOf(key: Annotation, item: Annotation)
    | NoneType
    | TypedDict(cls: ClassName)
    | Scalar(cls: ClassName)
    | Enum(cls: ClassName)
    | Model(cls: ClassName)
    | Special
    | Alias(value: Annotation)
    | Annotated(inner: Annotation)

  datatype SequenceKind = AList | ATuple | OtherSequence(id: int)

  /** Whatever is neither text, a sequence nor a mapping is opaque. `Mapping(0, _)` is a plain dictionary. */
  datatype Value =
    | Null
    | Text(text: string)
    | Opaque(id: int)
    | Sequence(kind: SequenceKind, items: seq<Value>)
    | Mapping(id: int, entries: seq<Entry>)

  datatype Entry = Entry(key: Value, value: Value)

  datatype Named = Named(name: string, value: Value)

  datatype Reason =
    | Unsupported | Ambiguous | UnknownAdapter
    | NoUnionMember | ExpectedList | ExpectedTuple | ExpectedTupleItems | ExpectedMapping | ExpectedNone
    | MissingField(name: string) | UnknownFields

  /** `Raised` is an exception of some library or constructor; a union catches it if it is a `TypeError` or a
      `ValueError`, as every model error is. */
  datatype Failure = ModelError(reason: Reason) | Raised(caught: bool, id: int)

  datatype Outcome<T> = Ok(value: T) | Fail(failure: Failure)

  /** A sequence begun with `done` and continued by an outcome. */
  function Prepended<T>(done: seq<T>, rest: Outcome<seq<T>>): Outcome<seq<T>> {
    if rest.Fail? then rest else Ok(done + rest.value)
  }

  lemma PrependedNothing<T>(rest: Outcome<seq<T>>)
    ensures Prepended([], rest) == rest
  {
    if rest.Ok? {
      assert [] + rest.value == rest.value;
    }
  }

  lemma PrependedOneMore<T>(done: seq<T>, x: T, rest: Outcome<seq<T>>)
    ensures Prepended(done, Prepended([x], rest)) == Prepended(done + [x], rest)
  {
    if rest.Ok? {
      assert done + ([x] + rest.value) == done + [x] + rest.value;
    }
  }

  datatype AdapterKind = TypedDicts | Dataclasses | Foreign

  datatype Adapter = Adapter(name: string, kind: AdapterKind)

  datatype Field = Field(name: string, wireName: string, annotation: Annotation, required: bool)

  /** What the interpreter and the model libraries answer. `supports` asks about a class or, with its last
      argument set, about the values of a class; `settled` says that no forward reference is open. */
  datatype World = World(
    isInstance: (Value, ClassName) -> bool,
    convert: (ClassName, Value) -> Outcome<Value>,
    put: (Value, Value, Value) -> Outcome<Value>,
    supports: (Adapter, ClassName, bool) -> bool,
    fields: (Adapter, ClassName) -> Outcome<seq<Field>>,
    settled: ClassName -> bool,
    foreign: (Adapter, ClassName, Value) -> Outcome<Value>,
    construct: (ClassName, seq<Named>) -> Outcome<Value>)

  predicate Catches(f: Failure) {
    f.ModelError? || f.caught
  }

  // ----- Annotations behind aliases

  function Unroll(a: Annotation): (r: Annotation)
    ensures r == a || r < a
  {
    if a.Alias? then Unroll(a.value) else a
  }

  function Strip(a: Annotation): (r: Annotation)
    ensures (r == a || r < a) && !r.Annotated?
  {
    if a.Annotated? then Strip(a.inner) else a
  }

  /** Aliases are unrolled before `Annotated` is stripped, and not again inside it. */
  function Peel(a: Annotation): (r: Annotation)
    ensures (r == a || r < a) && !r.Annotated?
  {
    Strip(Unroll(a))
  }

  // ----- Adapter selection

  function Supporting(w: World, adapters: seq<Adapter>, cls: ClassName, byValue: bool): seq<Adapter> {
    if adapters == [] then []
    else
      var others := Supporting(w, adapters[1..], cls, byValue);
      if w.supports(adapters[0], cls, byValue) then [adapters[0]] + others else others
  }

  function ByName(adapters: seq<Adapter>, name: string): Option<Adapter> {
    if adapters == [] then None
    else if adapters[0].name == name then Some(adapters[0])
    else ByName(adapters[1..], name)
  }

  /** The one adapter that supports a class; a named adapter is asked alone. */
  function Selected(w: World, adapters: seq<Adapter>, cls: ClassName, byValue: bool,
                    name: Option<string>): Outcome<Adapter> {
    if name.Some? then
      var named := ByName(adapters, name.value);
      if named.None? then Fail(ModelError(UnknownAdapter))
      else if !w.supports(named.value, cls, byValue) then Fail(ModelError(Unsupported))
      else Ok(named.value)
    else
      var matches := Supporting(w, adapters, cls, byValue);
      if matches == [] then Fail(ModelError(Unsupported))
      else if |matches| > 1 then Fail(ModelError(Ambiguous))
      else Ok(matches[0])
  }

  /** The fields of a class as its adapter reads them, or as a named adapter does. */
  function FieldsOf(w: World, adapters: seq<Adapter>, cls: ClassName, name: Option<string> := None)
    : Outcome<seq<Field>>
  {
    var selected := Selected(w, adapters, cls, false, name);
    if selected.Fail? then Fail(selected.failure) else w.fields(selected.value, cls)
  }

  // ----- Compiled loaders

  /** The closure a field's annotation compiles to, with what it captures. */
  datatype Loader =
    | AsIs
    | BareLoader(cls: ClassName)
    | UnionLoader(candidates: seq<Annotation>, orNone: bool)
    | ListLoader(item: Annotation)
    | TupleLoader(items: seq<Annotation>)
    | TupleAllLoader(item: Annotation)
    | DictLoader(key: Annotation, item: Annotation)
    | NoneLoader
    | TypedDictLoader(adapter: Adapter, model: Annotation)
    | ConvertLoader(cls: ClassName)
    | ModelLoader(adapter: Adapter, model: Annotation)

  /** A loader that captured a model captured a class. */
  predicate Proper(load: Loader) {
    load.TypedDictLoader? || load.ModelLoader? ==> load.model.TypedDict? || load.model.Model?
  }

  datatype PlannedField = PlannedField(name: string, wireName: string, load: Loader, required: bool)

  function WithoutNone(options: seq<Annotation>): seq<Annotation> {
    if options == [] then []
    else (if options[0].NoneType? then [] else [options[0]]) + WithoutNone(options[1..])
  }

  function Compile(w: World, adapters: seq<Adapter>, a: Annotation): Outcome<Loader> {
    var head := Peel(a);
    match head
    case AnyType => Ok(AsIs)
    case Bare(cls) => Ok(BareLoader(cls))
    case Union(options) => Ok(UnionLoader(WithoutNone(options), NoneType in options))
    case ListOf(item) => Ok(ListLoader(item))
    case TupleOf(items) => Ok(TupleLoader(items))
    case TupleAll(item) => Ok(TupleAllLoader(item))
    case DictOf(key, item) => Ok(DictLoader(key, item))
    case NoneType => Ok(NoneLoader)
    case TypedDict(cls) =>
      var selected := Selected(w, adapters, cls, false, None);
      if selected.Fail? then Fail(selected.failure) else Ok(TypedDictLoader(selected.value, head))
    case Scalar(cls) => Ok(ConvertLoader(cls))
    case Enum(cls) => Ok(ConvertLoader(cls))
    case Model(cls) =>
      var selected := Selected(w, adapters, cls, false, None);
      if selected.Fail? then Fail(selected.failure) else Ok(ModelLoader(selected.value, head))
    case Special => Fail(ModelError(Unsupported))
    case Alias(_) => Fail(ModelError(Unsupported))
    case Annotated(_) => Fail(ModelError(Unsupported))
  }

  function CompileFields(w: World, adapters: seq<Adapter>, fields: seq<Field>): Outcome<seq<PlannedField>> {
    if fields == [] then Ok([])
    else
      var f := fields[0];
      var load := Compile(w, adapters, f.annotation);
      if load.Fail? then Fail(load.failure)
      else Prepended([PlannedField(f.name, f.wireName, load.value, f.required)],
                     CompileFields(w, adapters, fields[1..]))
  }

  function Plan(w: World, adapters: seq<Adapter>, cls: ClassName): Outcome<seq<PlannedField>> {
    var fields := FieldsOf(w, adapters, cls);
    if fields.Fail? then Fail(fields.failure) else CompileFields(w, adapters, fields.value)
  }

  // ----- The interpretation

  /** Where a mapping holds a field. */
  function Find(entries: seq<Entry>, name: string): (r: Option<nat>)
    ensures r.Some? ==> r.value < |entries| && entries[r.value].key == Text(name)
    ensures r.None? ==> forall i :: 0 <= i < |entries| ==> entries[i].key != Text(name)
  {
    if entries == [] then None
    else if entries[0].key == Text(name) then Some(0)
    else
      var later := Find(entries[1..], name);
      if later.None? then None else Some(later.value + 1)
  }

  predicate HasUnknown(entries: seq<Entry>, names: seq<string>) {
    exists i :: 0 <= i < |entries| && !(entries[i].key.Text? && entries[i].key.text in names)
  }

  function FieldNames(fields: seq<Field>): seq<string> {
    seq(|fields|, i requires 0 <= i < |fields| => fields[i].name)
  }

  function AsDict(named: seq<Named>): Value {
    Mapping(0, seq(|named|, i requires 0 <= i < |named| => Entry(Text(named[i].name), named[i].value)))
  }

  function Wrapped(kind: SequenceKind, items: Outcome<seq<Value>>): Outcome<Value> {
    if items.Fail? then Fail(items.failure) else Ok(Sequence(kind, items.value))
  }

  /** `_load`, with models read field by field from their annotations. */
  function Loaded(w: World, adapters: seq<Adapter>, a: Annotation, v: Value, name: Option<string>): Outcome<Value>
    decreases v, a, 2
  {
    LoadedHead(w, adapters, Peel(a), v, name)
  }

  function LoadedHead(w: World, adapters: seq<Adapter>, a: Annotation, v: Value, name: Option<string>): Outcome<Value>
    decreases v, a, 1
  {
    match a
    case AnyType => Ok(v)
    case Bare(cls) => if w.isInstance(v, cls) then Ok(v) else w.convert(cls, v)
    case Union(options) =>
      if v.Null? && NoneType in options then Ok(Null) else LoadedFirst(w, adapters, options, v)
    case ListOf(item) =>
      if !v.Sequence? then Fail(ModelError(ExpectedList)) else Wrapped(AList, LoadedEach(w, adapters, item, v.items))
    case TupleAll(item) =>
      if !v.Sequence? then Fail(ModelError(ExpectedTuple)) else Wrapped(ATuple, LoadedEach(w, adapters, item, v.items))
    case TupleOf(items) =>
      if !v.Sequence? then Fail(ModelError(ExpectedTuple))
      else if items == [] then Wrapped(ATuple, LoadedEach(w, adapters, AnyType, v.items))
      else if |items| != |v.items| then Fail(ModelError(ExpectedTupleItems))
      else Wrapped(ATuple, LoadedZip(w, adapters, items, v.items))
    case DictOf(key, item) =>
      if !v.Mapping? then Fail(ModelError(ExpectedMapping))
      else LoadedEntries(w, adapters, key, item, v.entries, Mapping(0, []))
    case NoneType => if v.Null? then Ok(Null) else Fail(ModelError(ExpectedNone))
    case TypedDict(cls) =>
      var selected := Selected(w, adapters, cls, false, name);
      if selected.Fail? then Fail(selected.failure) else LoadedModel(w, adapters, selected.value, a, v)
    case Scalar(cls) => if w.isInstance(v, cls) then Ok(v) else w.convert(cls, v)
    case Enum(cls) => if w.isInstance(v, cls) then Ok(v) else w.convert(cls, v)
    case Model(cls) =>
      if w.isInstance(v, cls) then Ok(v)
      else
        var selected := Selected(w, adapters, cls, false, name);
        if selected.Fail? then Fail(selected.failure) else LoadedModel(w, adapters, selected.value, a, v)
    case Special => Fail(ModelError(Unsupported))
    case Alias(_) => Fail(ModelError(Unsupported))
    case Annotated(_) => Fail(ModelError(Unsupported))
  }

  /** The first option that takes the value; an exception a union does not catch ends the search. */
  function LoadedFirst(w: World, adapters: seq<Adapter>, options: seq<Annotation>, v: Value): Outcome<Value>
    decreases v, options, 0
  {
    if options == [] then Fail(ModelError(NoUnionMember))
    else if options[0].NoneType? then LoadedFirst(w, adapters, options[1..], v)
    else
      var r := Loaded(w, adapters, options[0], v, None);
      if r.Fail? && Catches(r.failure) then LoadedFirst(w, adapters, options[1..], v) else r
  }

  function LoadedEach(w: World, adapters: seq<Adapter>, item: Annotation, items: seq<Value>): Outcome<seq<Value>>
    decreases items, item, 0
  {
    if items == [] then Ok([])
    else
      var first := Loaded(w, adapters, item, items[0], None);
      if first.Fail? then Fail(first.failure)
      else Prepended([first.value], LoadedEach(w, adapters, item, items[1..]))
  }

  function LoadedZip(w: World, adapters: seq<Adapter>, annotations: seq<Annotation>,
                     items: seq<Value>): Outcome<seq<Value>>
    requires |annotations| == |items|
    decreases items, annotations, 0
  {
    if items == [] then Ok([])
    else
      var first := Loaded(w, adapters, annotations[0], items[0], None);
      if first.Fail? then Fail(first.failure)
      else Prepended([first.value], LoadedZip(w, adapters, annotations[1..], items[1..]))
  }

  /** Each key and item is loaded and put into the dictionary before the next pair is looked at. */
  function LoadedEntries(w: World, adapters: seq<Adapter>, key: Annotation, item: Annotation,
                         entries: seq<Entry>, dict: Value): Outcome<Value>
    decreases entries, key, 0
  {
    if entries == [] then Ok(dict)
    else
      var e := entries[0];
      assert e.key < e && e.value < e;
      var k := Loaded(w, adapters, key, e.key, None);
      if k.Fail? then k
      else
        var x := Loaded(w, adapters, item, e.value, None);
        if x.Fail? then x
        else
          var next := w.put(dict, k.value, x.value);
          if next.Fail? then next else LoadedEntries(w, adapters, key, item, entries[1..], next.value)
  }

  /** An adapter's `load`. */
  function LoadedModel(w: World, adapters: seq<Adapter>, adapter: Adapter, a: Annotation, v: Value): Outcome<Value>
    requires a.TypedDict? || a.Model?
    decreases v, a, 0
  {
    if adapter.kind.Foreign? then w.foreign(adapter, a.cls, v)
    else if !v.Mapping? then Fail(ModelError(ExpectedMapping))
    else
      var plan := Plan(w, adapters, a.cls);
      if plan.Fail? then Fail(plan.failure)
      else
        var fields := FieldsOf(w, adapters, a.cls).value;
        if adapter.kind.TypedDicts? then
          if HasUnknown(v.entries, FieldNames(fields)) then Fail(ModelError(UnknownFields))
          else
            var named := LoadedFields(w, adapters, fields, v.entries, false);
            if named.Fail? then Fail(named.failure) else Ok(AsDict(named.value))
        else
          var named := LoadedFields(w, adapters, fields, v.entries, true);
          if named.Fail? then Fail(named.failure) else w.construct(a.cls, named.value)
  }

  /** The fields a mapping holds, by wire name or by name, in the model's order. */
  function LoadedFields(w: World, adapters: seq<Adapter>, fields: seq<Field>, entries: seq<Entry>, byWire: bool)
    : Outcome<seq<Named>>
    decreases entries, fields, 0
  {
    if fields == [] then Ok([])
    else
      var f := fields[0];
      var at := Find(entries, if byWire then f.wireName else f.name);
      if at.None? then
        if f.required then Fail(ModelError(MissingField(f.name)))
        else LoadedFields(w, adapters, fields[1..], entries, byWire)
      else
        var e := entries[at.value];
        assert e.value < e;
        var x := Loaded(w, adapters, f.annotation, e.value, None);
        if x.Fail? then Fail(x.failure)
        else Prepended([Named(f.name, x.value)], LoadedFields(w, adapters, fields[1..], entries, byWire))
  }

  /** One field of a model, then the others. */
  lemma NextField(w: World, adapters: seq<Adapter>, fields: seq<Field>, i: nat, entries: seq<Entry>, byWire: bool)
    requires i < |fields|
    ensures var f, rest := fields[i], LoadedFields(w, adapters, fields[i + 1..], entries, byWire);
            var at := Find(entries, if byWire then f.wireName else f.name);
            LoadedFields(w, adapters, fields[i..], entries, byWire) ==
              if at.None? then
                if f.required then Fail(ModelError(MissingField(f.name))) else rest
              else
                var x := Loaded(w, adapters, f.annotation, entries[at.value].value, None);
                if x.Fail? then Fail(x.failure) else Prepended([Named(f.name, x.value)], rest)
  {
    assert fields[i..][0] == fields[i] && fields[i..][1..] == fields[i + 1..];
  }

  // ----- Compiled and interpreted agree

  /** What a compiled loader makes of a value. */
  function Ran(w: World, adapters: seq<Adapter>, load: Loader, v: Value): Outcome<Value>
    requires Proper(load)
  {
    match load
    case AsIs => Ok(v)
    case BareLoader(cls) => if w.isInstance(v, cls) then Ok(v) else w.convert(cls, v)
    case UnionLoader(candidates, orNone) =>
      if v.Null? && orNone then Ok(Null) else LoadedFirst(w, adapters, candidates, v)
    case ListLoader(item) =>
      if !v.Sequence? then Fail(ModelError(ExpectedList)) else Wrapped(AList, LoadedEach(w, adapters, item, v.items))
    case TupleAllLoader(item) =>
      if !v.Sequence? then Fail(ModelError(ExpectedTuple)) else Wrapped(ATuple, LoadedEach(w, adapters, item, v.items))
    case TupleLoader(items) =>
      if !v.Sequence? then Fail(ModelError(ExpectedTuple))
      else if items == [] then Wrapped(ATuple, LoadedEach(w, adapters, AnyType, v.items))
      else if |items| != |v.items| then Fail(ModelError(ExpectedTupleItems))
      else Wrapped(ATuple, LoadedZip(w, adapters, items, v.items))
    case DictLoader(key, item) =>
      if !v.Mapping? then Fail(ModelError(ExpectedMapping))
      else LoadedEntries(w, adapters, key, item, v.entries, Mapping(0, []))
    case NoneLoader => if v.Null? then Ok(Null) else Fail(ModelError(ExpectedNone))
    case TypedDictLoader(adapter, model) => LoadedModel(w, adapters, adapter, model, v)
    case ConvertLoader(cls) => if w.isInstance(v, cls) then Ok(v) else w.convert(cls, v)
    case ModelLoader(adapter, model) =>
      if w.isInstance(v, model.cls) then Ok(v) else LoadedModel(w, adapters, adapter, model, v)
  }

  lemma {:induction false} NoneNeverLoads(w: World, adapters: seq<Adapter>, options: seq<Annotation>, v: Value)
    ensures LoadedFirst(w, adapters, WithoutNone(options), v) == LoadedFirst(w, adapters, options, v)
    decreases |options|
  {
    if options != [] {
      NoneNeverLoads(w, adapters, options[1..], v);
      var kept := WithoutNone(options);
      if options[0].NoneType? {
        assert kept == WithoutNone(options[1..]);
      } else {
        assert kept[0] == options[0] && kept[1..] == WithoutNone(options[1..]);
      }
    }
  }

  /** A field is refused exactly when its annotation peels to a special form, to a further alias, or to a class
      that not exactly one adapter supports. */
  lemma CompileRefuses(w: World, adapters: seq<Adapter>, a: Annotation)
    ensures var load, head := Compile(w, adapters, a), Peel(a);
            var byClass := head.Model? || head.TypedDict?;
            && (load.Ok? <==> !head.Special? && !head.Alias?
                              && (byClass ==> |Supporting(w, adapters, head.cls, false)| == 1))
            && (load.Ok? ==> Proper(load.value))
            && (load.Fail? ==>
                  var several := byClass && |Supporting(w, adapters, head.cls, false)| > 1;
                  load.failure == ModelError(if several then Ambiguous else Unsupported))
  {
  }

  /** A compiled loader does what interpreting its annotation does, result or failure, on every value. */
  lemma CompiledAgrees(w: World, adapters: seq<Adapter>, a: Annotation, v: Value)
    requires Compile(w, adapters, a).Ok?
    ensures Proper(Compile(w, adapters, a).value)
    ensures Ran(w, adapters, Compile(w, adapters, a).value, v) == Loaded(w, adapters, a, v, None)
  {
    var head := Peel(a);
    if head.Union? {
      NoneNeverLoads(w, adapters, head.options, v);
    }
  }

  /** Compiling and running differs from interpreting for exactly the instances of a class that no single
      adapter supports: `_load` passes them through, compiling has refused them already. */
  lemma CompiledAgreesIff(w: World, adapters: seq<Adapter>, a: Annotation, v: Value)
    ensures var load := Compile(w, adapters, a);
            && (load.Ok? ==> Proper(load.value))
            && ((if load.Fail? then Fail(load.failure) else Ran(w, adapters, load.value, v))
                 == Loaded(w, adapters, a, v, None)
                <==> !(Peel(a).Model? && Selected(w, adapters, Peel(a).cls, false, None).Fail?
                       && w.isInstance(v, Peel(a).cls)))
  {
    if Compile(w, adapters, a).Ok? {
      CompiledAgrees(w, adapters, a, v);
    }
  }

  /** An exception that is neither a `TypeError` nor a `ValueError` escapes a union at the first option that
      raises it, if the options before it all failed. */
  lemma {:induction false} UnionEscapes(w: World, adapters: seq<Adapter>, options: seq<Annotation>, v: Value, i: nat)
    requires i < |options| && !options[i].NoneType?
    requires forall j :: 0 <= j < i && !options[j].NoneType? ==>
      Loaded(w, adapters, options[j], v, None).Fail? && Catches(Loaded(w, adapters, options[j], v, None).failure)
    ensures var r := Loaded(w, adapters, options[i], v, None);
            (r.Ok? || !Catches(r.failure)) ==> LoadedFirst(w, adapters, options, v) == r
    decreases i
  {
    if i > 0 {
      var rest := options[1..];
      assert forall j :: 0 <= j < i - 1 ==> rest[j] == options[j + 1];
      UnionEscapes(w, adapters, rest, v, i - 1);
    }
  }

  /** A load plan holds, field by field, what its annotations compile to. */
  ghost predicate PlanFor(w: World, adapters: seq<Adapter>, fields: seq<Field>, plan: seq<PlannedField>) {
    |plan| == |fields| && forall i :: 0 <= i < |plan| ==>
      && plan[i].name == fields[i].name && plan[i].wireName == fields[i].wireName
      && plan[i].required == fields[i].required
      && Compile(w, adapters, fields[i].annotation) == Ok(plan[i].load)
  }

  /** The i-th field does not compile, for this reason, and every field before it does. */
  ghost predicate RefusedAt(w: World, adapters: seq<Adapter>, fields: seq<Field>, i: nat, why: Failure) {
    && i < |fields| && Compile(w, adapters, fields[i].annotation) == Fail(why)
    && forall j :: 0 <= j < i ==> Compile(w, adapters, fields[j].annotation).Ok?
  }

  lemma {:induction false} PlanOrRefusal(w: World, adapters: seq<Adapter>, fields: seq<Field>)
    ensures var plan := CompileFields(w, adapters, fields);
            && (plan.Ok? ==> PlanFor(w, adapters, fields, plan.value))
            && (plan.Fail? ==> exists i: nat :: RefusedAt(w, adapters, fields, i, plan.failure))
    decreases |fields|
  {
    if fields != [] {
      var first, rest := Compile(w, adapters, fields[0].annotation), CompileFields(w, adapters, fields[1..]);
      PlanOrRefusal(w, adapters, fields[1..]);
      if first.Fail? {
        assert RefusedAt(w, adapters, fields, 0, first.failure);
      } else if rest.Fail? {
        var i: nat :| RefusedAt(w, adapters, fields[1..], i, rest.failure);
        assert RefusedAt(w, adapters, fields, i + 1, rest.failure);
      }
    }
  }

  // ----- The registry

  /** Forward references resolve: answers already given about settled classes stay, others may change. */
  ghost predicate Resolves(before: World, after: World) {
    && after == before.(fields := after.fields, settled := after.settled)
    && (forall c :: before.settled(c) ==> after.settled(c))
    && (forall adapter, c :: before.settled(c) && before.fields(adapter, c).Ok? ==>
          after.fields(adapter, c) == before.fields(adapter, c))
  }

  /** Both loops of the source: aliases first, then what `Annotated` adds. */
  method Unwrap(a: Annotation) returns (r: Annotation)
    ensures r == Peel(a)
  {
    r := a;
    while r.Alias?
      invariant Unroll(r) == Unroll(a)
      decreases r
    {
      r := r.value;
    }
    while r.Annotated?
      invariant Strip(r) == Peel(a)
      decreases r
    {
      r := r.inner;
    }
  }

  class ModelAdapterRegistry {
    const adapters: seq<Adapter>
    /** Whether there are caches at all. */
    const remembering: bool
    var world: World
    var fieldLists: map<ClassName, seq<Field>>
    var loadPlans: map<ClassName, seq<PlannedField>>
    var adaptersByType: map<ClassName, Adapter>
    var adaptersByValue: map<ClassName, Adapter>

    /** Every remembered answer is the one a registry without caches would give. */
    ghost predicate Valid()
      reads this
    {
      && (forall c :: c in fieldLists ==> world.settled(c) && FieldsOf(world, adapters, c) == Ok(fieldLists[c]))
      && (forall c :: c in loadPlans ==> world.settled(c) && Plan(world, adapters, c) == Ok(loadPlans[c]))
      && (forall c :: c in adaptersByType ==> Selected(world, adapters, c, false, None) == Ok(adaptersByType[c]))
      && (forall c :: c in adaptersByValue ==> Selected(world, adapters, c, true, None) == Ok(adaptersByValue[c]))
    }

    constructor (adapters: seq<Adapter>, remembering: bool, world: World)
      ensures Valid() && this.adapters == adapters && this.remembering == remembering && this.world == world
    {
      this.adapters, this.remembering, this.world := adapters, remembering, world;
      fieldLists, loadPlans, adaptersByType, adaptersByValue := map[], map[], map[], map[];
    }

    method ClearFieldCache()
      modifies this
      ensures Valid() && world == old(world)
    {
      fieldLists, loadPlans, adaptersByType, adaptersByValue := map[], map[], map[], map[];
    }

    /** What was remembered stays right when open forward references resolve. */
    method Resolve(after: World)
      requires Valid() && Resolves(world, after)
      modifies this
      ensures Valid() && world == after
      ensures fieldLists == old(fieldLists) && loadPlans == old(loadPlans)
      ensures adaptersByType == old(adaptersByType) && adaptersByValue == old(adaptersByValue)
    {
      forall c ensures c in fieldLists ==> after.settled(c) && FieldsOf(after, adapters, c) == Ok(fieldLists[c])
        ensures c in loadPlans ==> after.settled(c) && Plan(after, adapters, c) == Ok(loadPlans[c])
        ensures c in adaptersByType ==> Selected(after, adapters, c, false, None) == Ok(adaptersByType[c])
        ensures c in adaptersByValue ==> Selected(after, adapters, c, true, None) == Ok(adaptersByValue[c])
      {
        SelectedStays(world, after, adapters, c, false);
        SelectedStays(world, after, adapters, c, true);
        if c in fieldLists {
          FieldsStay(world, after, adapters, c);
        }
        if c in loadPlans {
          PlanStays(world, after, adapters, c);
        }
      }
      world := after;
    }

    /** `_select`: the caches answer for unnamed selections, and only successes are remembered. */
    method Select(cls: ClassName, byValue: bool, name: Option<string>) returns (r: Outcome<Adapter>)
      requires Valid()
      modifies this`adaptersByType, this`adaptersByValue
      ensures Valid() && r == Selected(world, adapters, cls, byValue, name)
    {
      if name.Some? {
        r := SelectNamed(cls, byValue, name.value);
        return;
      }
      var remembered := if byValue then adaptersByValue else adaptersByType;
      if remembering && cls in remembered {
        return Ok(remembered[cls]);
      }
      var matches := Matches(cls, byValue);
      if matches == [] {
        return Fail(ModelError(Unsupported));
      }
      if |matches| > 1 {
        return Fail(ModelError(Ambiguous));
      }
      if remembering {
        if byValue {
          adaptersByValue := adaptersByValue[cls := matches[0]];
        } else {
          adaptersByType := adaptersByType[cls := matches[0]];
        }
      }
      r := Ok(matches[0]);
    }

    method Matches(cls: ClassName, byValue: bool) returns (matches: seq<Adapter>)
      ensures matches == Supporting(world, adapters, cls, byValue)
    {
      matches := [];
      var i := 0;
      while i < |adapters|
        invariant i <= |adapters|
        invariant Supporting(world, adapters, cls, byValue) == matches + Supporting(world, adapters[i..], cls, byValue)
      {
        if world.supports(adapters[i], cls, byValue) {
          matches := matches + [adapters[i]];
        }
        i := i + 1;
      }
    }

    method SelectNamed(cls: ClassName, byValue: bool, name: string) returns (r: Outcome<Adapter>)
      ensures r == Selected(world, adapters, cls, byValue, Some(name))
    {
      var i := 0;
      while i < |adapters|
        invariant i <= |adapters| && ByName(adapters, name) == ByName(adapters[i..], name)
      {
        if adapters[i].name == name {
          return if world.supports(adapters[i], cls, byValue) then Ok(adapters[i]) else Fail(ModelError(Unsupported));
        }
        i := i + 1;
      }
      return Fail(ModelError(UnknownAdapter));
    }

    /** A named adapter is asked past the cache, and its answer is not remembered. */
    method Fields(cls: ClassName, name: Option<string>) returns (r: Outcome<seq<Field>>)
      requires Valid()
      modifies this`fieldLists, this`adaptersByType, this`adaptersByValue
      ensures Valid() && r == FieldsOf(world, adapters, cls, name)
      ensures name.Some? ==> fieldLists == old(fieldLists)
    {
      if remembering && name.None? && cls in fieldLists {
        return Ok(fieldLists[cls]);
      }
      var selected := Select(cls, false, name);
      if selected.Fail? {
        return Fail(selected.failure);
      }
      r := world.fields(selected.value, cls);
      if remembering && name.None? && r.Ok? && world.settled(cls) {
        fieldLists := fieldLists[cls := r.value];
      }
    }

    /** `_compile_loader`: an adapter is selected now, nested annotations are kept for later. */
    method CompileLoader(a: Annotation) returns (r: Outcome<Loader>)
      requires Valid()
      modifies this`adaptersByType, this`adaptersByValue
      ensures Valid() && r == Compile(world, adapters, a)
    {
      var head := Unwrap(a);
      match head
      case AnyType => return Ok(AsIs);
      case Bare(cls) => return Ok(BareLoader(cls));
      case Union(options) => return Ok(UnionLoader(WithoutNone(options), NoneType in options));
      case ListOf(item) => return Ok(ListLoader(item));
      case TupleOf(items) => return Ok(TupleLoader(items));
      case TupleAll(item) => return Ok(TupleAllLoader(item));
      case DictOf(key, item) => return Ok(DictLoader(key, item));
      case NoneType => return Ok(NoneLoader);
      case TypedDict(cls) =>
        var selected := Select(cls, false, None);
        return if selected.Fail? then Fail(selected.failure) else Ok(TypedDictLoader(selected.value, head));
      case Scalar(cls) => return Ok(ConvertLoader(cls));
      case Enum(cls) => return Ok(ConvertLoader(cls));
      case Model(cls) =>
        var selected := Select(cls, false, None);
        return if selected.Fail? then Fail(selected.failure) else Ok(ModelLoader(selected.value, head));
      case Special => return Fail(ModelError(Unsupported));
      case Alias(_) => return Fail(ModelError(Unsupported));
      case Annotated(_) => return Fail(ModelError(Unsupported));
    }

    method BuildPlan(cls: ClassName) returns (r: Outcome<seq<PlannedField>>)
      requires Valid()
      modifies this`fieldLists, this`adaptersByType, this`adaptersByValue
      ensures Valid() && r == Plan(world, adapters, cls)
    {
      var fields := Fields(cls, None);
      if fields.Fail? {
        return Fail(fields.failure);
      }
      var plan: seq<PlannedField> := [];
      var i := 0;
      assert fields.value[0..] == fields.value;
      PrependedNothing(CompileFields(world, adapters, fields.value));
      while i < |fields.value|
        invariant i <= |fields.value| && Valid()
        invariant CompileFields(world, adapters, fields.value)
               == Prepended(plan, CompileFields(world, adapters, fields.value[i..]))
      {
        var f := fields.value[i];
        assert fields.value[i..][0] == f && fields.value[i..][1..] == fields.value[i + 1..];
        var load := CompileLoader(f.annotation);
        if load.Fail? {
          return Fail(load.failure);
        }
        var planned := PlannedField(f.name, f.wireName, load.value, f.required);
        PrependedOneMore(plan, planned, CompileFields(world, adapters, fields.value[i + 1..]));
        plan := plan + [planned];
        i := i + 1;
      }
      assert plan + [] == plan;
      r := Ok(plan);
    }

    method LoadPlan(cls: ClassName) returns (r: Outcome<seq<PlannedField>>)
      requires Valid()
      modifies this
      ensures Valid() && world == old(world) && r == Plan(world, adapters, cls)
    {
      if remembering && cls in loadPlans {
        return Ok(loadPlans[cls]);
      }
      r := BuildPlan(cls);
      if remembering && r.Ok? && world.settled(cls) {
        loadPlans := loadPlans[cls := r.value];
      }
    }

    /** `_load`: the same answer as interpreting, whatever the caches hold. */
    method Load(a: Annotation, v: Value, name: Option<string>) returns (r: Outcome<Value>)
      requires Valid()
      modifies this
      ensures Valid() && world == old(world) && r == Loaded(world, adapters, a, v, name)
      decreases v, a, 2
    {
      var head := Unwrap(a);
      match head
      case AnyType => return Ok(v);
      case Bare(cls) => return if world.isInstance(v, cls) then Ok(v) else world.convert(cls, v);
      case Union(options) =>
        if v.Null? && NoneType in options {
          return Ok(Null);
        }
        r := LoadUnion(options, v);
      case ListOf(item) => r := LoadList(item, v, AList, ExpectedList);
      case TupleAll(item) => r := LoadList(item, v, ATuple, ExpectedTuple);
      case TupleOf(items) => r := LoadTuple(items, v);
      case DictOf(key, item) => r := LoadDict(key, item, v);
      case NoneType => return if v.Null? then Ok(Null) else Fail(ModelError(ExpectedNone));
      case TypedDict(_) => r := LoadClass(head, v, name);
      case Scalar(cls) => return if world.isInstance(v, cls) then Ok(v) else world.convert(cls, v);
      case Enum(cls) => return if world.isInstance(v, cls) then Ok(v) else world.convert(cls, v);
      case Model(cls) =>
        if world.isInstance(v, cls) {
          return Ok(v);
        }
        r := LoadClass(head, v, name);
      case Special => return Fail(ModelError(Unsupported));
      case Alias(_) => return Fail(ModelError(Unsupported));
      case Annotated(_) => return Fail(ModelError(Unsupported));
    }

    /** `adapter_for_type`, then the adapter's `load`. */
    method LoadClass(a: Annotation, v: Value, name: Option<string>) returns (r: Outcome<Value>)
      requires Valid() && (a.TypedDict? || a.Model?)
      modifies this
      ensures Valid() && world == old(world)
      ensures var selected := Selected(world, adapters, a.cls, false, name);
              r == if selected.Fail? then Fail(selected.failure) else LoadedModel(world, adapters, selected.value, a, v)
      decreases v, a, 1
    {
      var selected := Select(a.cls, false, name);
      if selected.Fail? {
        return Fail(selected.failure);
      }
      r := LoadModel(selected.value, a, v);
    }

    /** A field's loader: nested annotations go back through `Load`. */
    method RunLoader(load: Loader, v: Value) returns (r: Outcome<Value>)
      requires Valid() && Proper(load)
      modifies this
      ensures Valid() && world == old(world) && r == Ran(world, adapters, load, v)
      decreases v, load, 0
    {
      match load
      case AsIs => return Ok(v);
      case BareLoader(cls) => return if world.isInstance(v, cls) then Ok(v) else world.convert(cls, v);
      case UnionLoader(candidates, orNone) =>
        if v.Null? && orNone {
          return Ok(Null);
        }
        r := LoadUnion(candidates, v);
      case ListLoader(item) => r := LoadList(item, v, AList, ExpectedList);
      case TupleAllLoader(item) => r := LoadList(item, v, ATuple, ExpectedTuple);
      case TupleLoader(items) => r := LoadTuple(items, v);
      case DictLoader(key, item) => r := LoadDict(key, item, v);
      case NoneLoader => return if v.Null? then Ok(Null) else Fail(ModelError(ExpectedNone));
      case TypedDictLoader(adapter, model) => r := LoadModel(adapter, model, v);
      case ConvertLoader(cls) => return if world.isInstance(v, cls) then Ok(v) else world.convert(cls, v);
      case ModelLoader(adapter, model) =>
        if world.isInstance(v, model.cls) {
          return Ok(v);
        }
        r := LoadModel(adapter, model, v);
    }

    method LoadUnion(options: seq<Annotation>, v: Value) returns (r: Outcome<Value>)
      requires Valid()
      modifies this
      ensures Valid() && world == old(world) && r == LoadedFirst(world, adapters, options, v)
      decreases v, options, 0
    {
      var i := 0;
      while i < |options|
        invariant i <= |options| && Valid() && world == old(world)
        invariant LoadedFirst(world, adapters, options, v) == LoadedFirst(world, adapters, options[i..], v)
      {
        assert options[i..][0] == options[i] && options[i..][1..] == options[i + 1..];
        if !options[i].NoneType? {
          r := Load(options[i], v, None);
          if r.Ok? || !Catches(r.failure) {
            return;
          }
        }
        i := i + 1;
      }
      r := Fail(ModelError(NoUnionMember));
    }

    method LoadList(item: Annotation, v: Value, kind: SequenceKind, expected: Reason) returns (r: Outcome<Value>)
      requires Valid()
      modifies this
      ensures Valid() && world == old(world)
      ensures r == if !v.Sequence? then Fail(ModelError(expected))
                   else Wrapped(kind, LoadedEach(world, adapters, item, v.items))
      decreases v, item, 0
    {
      if !v.Sequence? {
        return Fail(ModelError(expected));
      }
      var out: seq<Value> := [];
      var i := 0;
      assert v.items[0..] == v.items;
      PrependedNothing(LoadedEach(world, adapters, item, v.items));
      while i < |v.items|
        invariant i <= |v.items| && Valid() && world == old(world)
        invariant LoadedEach(world, adapters, item, v.items)
               == Prepended(out, LoadedEach(world, adapters, item, v.items[i..]))
      {
        assert v.items[i..][0] == v.items[i] && v.items[i..][1..] == v.items[i + 1..];
        var x := Load(item, v.items[i], None);
        if x.Fail? {
          return Fail(x.failure);
        }
        PrependedOneMore(out, x.value, LoadedEach(world, adapters, item, v.items[i + 1..]));
        out := out + [x.value];
        i := i + 1;
      }
      assert out + [] == out;
      r := Ok(Sequence(kind, out));
    }

    method LoadTuple(annotations: seq<Annotation>, v: Value) returns (r: Outcome<Value>)
      requires Valid()
      modifies this
      ensures Valid() && world == old(world)
      ensures r == if !v.Sequence? then Fail(ModelError(ExpectedTuple))
                   else if annotations == [] then Wrapped(ATuple, LoadedEach(world, adapters, AnyType, v.items))
                   else if |annotations| != |v.items| then Fail(ModelError(ExpectedTupleItems))
                   else Wrapped(ATuple, LoadedZip(world, adapters, annotations, v.items))
      decreases v, annotations, 0
    {
      if !v.Sequence? {
        return Fail(ModelError(ExpectedTuple));
      }
      if annotations == [] {
        EachAsIs(world, adapters, v.items);
        return Ok(Sequence(ATuple, v.items));
      }
      if |annotations| != |v.items| {
        return Fail(ModelError(ExpectedTupleItems));
      }
      var out: seq<Value> := [];
      var i := 0;
      assert v.items[0..] == v.items && annotations[0..] == annotations;
      PrependedNothing(LoadedZip(world, adapters, annotations, v.items));
      while i < |v.items|
        invariant i <= |v.items| && Valid() && world == old(world)
        invariant LoadedZip(world, adapters, annotations, v.items)
               == Prepended(out, LoadedZip(world, adapters, annotations[i..], v.items[i..]))
      {
        assert v.items[i..][0] == v.items[i] && v.items[i..][1..] == v.items[i + 1..];
        assert annotations[i..][0] == annotations[i] && annotations[i..][1..] == annotations[i + 1..];
        var x := Load(annotations[i], v.items[i], None);
        if x.Fail? {
          return Fail(x.failure);
        }
        PrependedOneMore(out, x.value, LoadedZip(world, adapters, annotations[i + 1..], v.items[i + 1..]));
        out := out + [x.value];
        i := i + 1;
      }
      assert out + [] == out;
      r := Ok(Sequence(ATuple, out));
    }

    method LoadDict(key: Annotation, item: Annotation, v: Value) returns (r: Outcome<Value>)
      requires Valid()
      modifies this
      ensures Valid() && world == old(world)
      ensures r == if !v.Mapping? then Fail(ModelError(ExpectedMapping))
                   else LoadedEntries(world, adapters, key, item, v.entries, Mapping(0, []))
      decreases v, key, 0
    {
      if !v.Mapping? {
        return Fail(ModelError(ExpectedMapping));
      }
      var dict := Mapping(0, []);
      var i := 0;
      while i < |v.entries|
        invariant i <= |v.entries| && Valid() && world == old(world)
        invariant LoadedEntries(world, adapters, key, item, v.entries, Mapping(0, []))
               == LoadedEntries(world, adapters, key, item, v.entries[i..], dict)
      {
        assert v.entries[i..][0] == v.entries[i] && v.entries[i..][1..] == v.entries[i + 1..];
        var e := v.entries[i];
        assert e.key < e && e.value < e;
        var k := Load(key, e.key, None);
        if k.Fail? {
          return k;
        }
        var x := Load(item, e.value, None);
        if x.Fail? {
          return x;
        }
        var next := world.put(dict, k.value, x.value);
        if next.Fail? {
          return next;
        }
        dict := next.value;
        i := i + 1;
      }
      r := Ok(dict);
    }

    /** An adapter's `load`, through the load plan. */
    method LoadModel(adapter: Adapter, a: Annotation, v: Value) returns (r: Outcome<Value>)
      requires Valid() && (a.TypedDict? || a.Model?)
      modifies this
      ensures Valid() && world == old(world) && r == LoadedModel(world, adapters, adapter, a, v)
      decreases v, a, 0
    {
      if adapter.kind.Foreign? {
        return world.foreign(adapter, a.cls, v);
      }
      if !v.Mapping? {
        return Fail(ModelError(ExpectedMapping));
      }
      var plan := LoadPlan(a.cls);
      ghost var fields := FieldsOf(world, adapters, a.cls);
      if fields.Ok? {
        PlanOrRefusal(world, adapters, fields.value);
      }
      if plan.Fail? {
        return Fail(plan.failure);
      }
      var typed := adapter.kind.TypedDicts?;
      assert PlanNames(plan.value) == FieldNames(fields.value);
      if typed && HasUnknown(v.entries, PlanNames(plan.value)) {
        return Fail(ModelError(UnknownFields));
      }
      var named := RunPlan(plan.value, v.entries, !typed, fields.value);
      if named.Fail? {
        return Fail(named.failure);
      }
      r := if typed then Ok(AsDict(named.value)) else world.construct(a.cls, named.value);
    }

    method RunPlan(plan: seq<PlannedField>, entries: seq<Entry>, byWire: bool, ghost fields: seq<Field>)
      returns (r: Outcome<seq<Named>>)
      requires Valid() && PlanFor(world, adapters, fields, plan)
      modifies this
      ensures Valid() && world == old(world) && r == LoadedFields(world, adapters, fields, entries, byWire)
      decreases entries, plan, 0
    {
      var named: seq<Named> := [];
      var i := 0;
      assert fields[0..] == fields;
      PrependedNothing(LoadedFields(world, adapters, fields, entries, byWire));
      while i < |plan|
        invariant i <= |plan| && Valid() && world == old(world)
        invariant LoadedFields(world, adapters, fields, entries, byWire)
               == Prepended(named, LoadedFields(world, adapters, fields[i..], entries, byWire))
      {
        var f := plan[i];
        NextField(world, adapters, fields, i, entries, byWire);
        var at := Find(entries, if byWire then f.wireName else f.name);
        if at.Some? {
          var e := entries[at.value];
          assert e.value < e;
          CompiledAgrees(world, adapters, fields[i].annotation, e.value);
          var x := RunLoader(f.load, e.value);
          if x.Fail? {
            return Fail(x.failure);
          }
          PrependedOneMore(named, Named(f.name, x.value),
                           LoadedFields(world, adapters, fields[i + 1..], entries, byWire));
          named := named + [Named(f.name, x.value)];
        } else if f.required {
          return Fail(ModelError(MissingField(f.name)));
        }
        i := i + 1;
      }
      assert named + [] == named;
      r := Ok(named);
    }
  }

  function PlanNames(plan: seq<PlannedField>): seq<string> {
    seq(|plan|, i requires 0 <= i < |plan| => plan[i].name)
  }

  lemma {:induction false} EachAsIs(w: World, adapters: seq<Adapter>, items: seq<Value>)
    ensures LoadedEach(w, adapters, AnyType, items) == Ok(items)
    decreases |items|
  {
    if items != [] {
      EachAsIs(w, adapters, items[1..]);
      assert Loaded(w, adapters, AnyType, items[0], None) == Ok(items[0]);
      assert [items[0]] + items[1..] == items;
    }
  }

  lemma {:induction false} SupportingStays(before: World, after: World, adapters: seq<Adapter>, cls: ClassName,
                                           byValue: bool)
    requires before.supports == after.supports
    ensures Supporting(before, adapters, cls, byValue) == Supporting(after, adapters, cls, byValue)
    decreases |adapters|
  {
    if adapters != [] {
      SupportingStays(before, after, adapters[1..], cls, byValue);
    }
  }

  lemma SelectedStays(before: World, after: World, adapters: seq<Adapter>, cls: ClassName, byValue: bool)
    requires before.supports == after.supports
    ensures Selected(before, adapters, cls, byValue, None) == Selected(after, adapters, cls, byValue, None)
  {
    SupportingStays(before, after, adapters, cls, byValue);
  }

  lemma FieldsStay(before: World, after: World, adapters: seq<Adapter>, cls: ClassName)
    requires Resolves(before, after) && before.settled(cls) && FieldsOf(before, adapters, cls).Ok?
    ensures FieldsOf(after, adapters, cls) == FieldsOf(before, adapters, cls)
  {
    SelectedStays(before, after, adapters, cls, false);
  }

  lemma {:induction false} CompileFieldsStays(before: World, after: World, adapters: seq<Adapter>, fields: seq<Field>)
    requires before.supports == after.supports
    ensures CompileFields(before, adapters, fields) == CompileFields(after, adapters, fields)
    decreases |fields|
  {
    if fields != [] {
      var head := Peel(fields[0].annotation);
      if head.Model? || head.TypedDict? {
        SelectedStays(before, after, adapters, head.cls, false);
      }
      CompileFieldsStays(before, after, adapters, fields[1..]);
    }
  }

  lemma PlanStays(before: World, after: World, adapters: seq<Adapter>, cls: ClassName)
    requires Resolves(before, after) && before.settled(cls) && Plan(before, adapters, cls).Ok?
    ensures Plan(after, adapters, cls) == Plan(before, adapters, cls)
  {
    FieldsStay(before, after, adapters, cls);
    CompileFieldsStays(before, after, adapters, FieldsOf(before, adapters, cls).value);
  }
}
