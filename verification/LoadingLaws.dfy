/**
 What the interpretation of an annotation gives, told from the value and the results of its parts: which option of
 a union decides, when a container loads and with what, which adapter is chosen, what a model is made of.
 */
module LoadingLaws {
  import opened Ordering
  import opened Loading

  // ----- Unions

  /** An option a union goes past: `None`, a model error, or an exception that is a `TypeError` or a `ValueError`. */
  predicate PassedOver(w: World, adapters: seq<Adapter>, option: Annotation, v: Value) {
    option.NoneType? ||
      match Loaded(w, adapters, option, v, None)
      case Ok(_) => false
      case Fail(ModelError(_)) => true
      case Fail(Raised(caught, _)) => caught
  }

  ghost predicate AllPassedOver(w: World, adapters: seq<Adapter>, options: seq<Annotation>, v: Value) {
    forall i :: 0 <= i < |options| ==> PassedOver(w, adapters, options[i], v)
  }

  /** The first option that is not gone past decides, with its value or its exception; without one nothing fits. */
  lemma {:induction false} UnionDecides(w: World, adapters: seq<Adapter>, options: seq<Annotation>, v: Value, i: nat)
    requires i <= |options| && AllPassedOver(w, adapters, options[..i], v)
    requires i < |options| ==> !PassedOver(w, adapters, options[i], v)
    ensures LoadedFirst(w, adapters, options, v)
         == if i < |options| then Loaded(w, adapters, options[i], v, None) else Fail(ModelError(NoUnionMember))
    decreases i
  {
    if i > 0 {
      assert PassedOver(w, adapters, options[..i][0], v);
      assert options[1..][..i - 1] == options[..i][1..];
      assert i < |options| ==> options[1..][i - 1] == options[i];
      UnionDecides(w, adapters, options[1..], v, i - 1);
    }
  }

  /** A union fails with no model error but that nothing fits, and with no exception that it catches. */
  lemma {:induction false} UnionFailures(w: World, adapters: seq<Adapter>, options: seq<Annotation>, v: Value)
    ensures var r := LoadedFirst(w, adapters, options, v);
            r.Fail? ==> r.failure == ModelError(NoUnionMember) || (r.failure.Raised? && !r.failure.caught)
    decreases |options|
  {
    if options != [] {
      UnionFailures(w, adapters, options[1..], v);
    }
  }

  // ----- Sequences and dictionaries

  /** The i-th result fails like this, and every one before it is fine. */
  ghost predicate FirstToFail<T>(results: nat -> Outcome<T>, i: nat, why: Failure) {
    results(i) == Fail(why) && forall k: nat :: k < i ==> results(k).Ok?
  }

  /** `r` gathers the first `n` results in order, or fails like the first that does. */
  ghost predicate Gathers<T>(results: nat -> Outcome<T>, n: nat, r: Outcome<seq<T>>) {
    match r
    case Ok(all) => |all| == n && forall i: nat :: i < n ==> results(i) == Ok(all[i])
    case Fail(why) => exists i: nat :: i < n && FirstToFail(results, i, why)
  }

  ghost function ItemResults(w: World, adapters: seq<Adapter>, annotations: seq<Annotation>, items: seq<Value>)
    : nat -> Outcome<Value>
  {
    (i: nat) =>
      if i < |annotations| && i < |items| then Loaded(w, adapters, annotations[i], items[i], None) else Ok(Null)
  }

  lemma GathersCons<T>(head: Outcome<T>, tail: nat -> Outcome<T>, all: nat -> Outcome<T>, n: nat, r: Outcome<seq<T>>)
    requires all(0) == head && (forall i: nat :: i < n ==> all(i + 1) == tail(i)) && Gathers(tail, n, r)
    ensures Gathers(all, n + 1, if head.Fail? then Fail(head.failure) else Prepended([head.value], r))
  {
    if head.Fail? {
      assert FirstToFail(all, 0, head.failure);
    } else if r.Fail? {
      var i: nat :| i < n && FirstToFail(tail, i, r.failure);
      forall k: nat | k < i + 1 ensures all(k).Ok? {
        assert k > 0 ==> all(k) == tail(k - 1);
      }
      assert FirstToFail(all, i + 1, r.failure);
    } else {
      var whole := [head.value] + r.value;
      forall i: nat | i < n + 1 ensures all(i) == Ok(whole[i]) {
        assert i > 0 ==> all(i) == tail(i - 1);
      }
    }
  }

  lemma {:induction false} ZipGathers(w: World, adapters: seq<Adapter>, annotations: seq<Annotation>, items: seq<Value>)
    requires |annotations| == |items|
    ensures Gathers(ItemResults(w, adapters, annotations, items), |items|, LoadedZip(w, adapters, annotations, items))
    decreases |items|
  {
    if items != [] {
      ZipGathers(w, adapters, annotations[1..], items[1..]);
      GathersCons(Loaded(w, adapters, annotations[0], items[0], None),
                  ItemResults(w, adapters, annotations[1..], items[1..]),
                  ItemResults(w, adapters, annotations, items), |items| - 1,
                  LoadedZip(w, adapters, annotations[1..], items[1..]));
    }
  }

  function Copies<T>(x: T, n: nat): (r: seq<T>)
    ensures |r| == n && forall i :: 0 <= i < n ==> r[i] == x
  {
    seq(n, _ => x)
  }

  lemma {:induction false} EachIsZip(w: World, adapters: seq<Adapter>, item: Annotation, items: seq<Value>)
    ensures LoadedEach(w, adapters, item, items) == LoadedZip(w, adapters, Copies(item, |items|), items)
    decreases |items|
  {
    if items != [] {
      assert Copies(item, |items|)[1..] == Copies(item, |items| - 1);
      EachIsZip(w, adapters, item, items[1..]);
    }
  }

  /** `r` is a sequence of this kind that holds what `items` load to, or fails like the first that does not. */
  ghost predicate Holds(w: World, adapters: seq<Adapter>, annotations: seq<Annotation>, items: seq<Value>,
                        kind: SequenceKind, r: Outcome<Value>)
  {
    match r
    case Ok(Sequence(k, all)) => k == kind && Gathers(ItemResults(w, adapters, annotations, items), |items|, Ok(all))
    case Ok(_) => false
    case Fail(why) => Gathers(ItemResults(w, adapters, annotations, items), |items|, Fail(why))
  }

  /** Lists and tuples: what is not a sequence is refused, a tuple also counts, and each item is loaded in place. */
  lemma SequencesLoad(w: World, adapters: seq<Adapter>, item: Annotation, items: seq<Annotation>, v: Value,
                      name: Option<string>)
    ensures var list := Loaded(w, adapters, ListOf(item), v, name);
            if !v.Sequence? then list == Fail(ModelError(ExpectedList))
            else Holds(w, adapters, Copies(item, |v.items|), v.items, AList, list)
    ensures var tuple := Loaded(w, adapters, TupleAll(item), v, name);
            if !v.Sequence? then tuple == Fail(ModelError(ExpectedTuple))
            else Holds(w, adapters, Copies(item, |v.items|), v.items, ATuple, tuple)
    ensures var tuple := Loaded(w, adapters, TupleOf(items), v, name);
            if !v.Sequence? then tuple == Fail(ModelError(ExpectedTuple))
            else if items == [] then tuple == Ok(Sequence(ATuple, v.items))
            else if |items| != |v.items| then tuple == Fail(ModelError(ExpectedTupleItems))
            else Holds(w, adapters, items, v.items, ATuple, tuple)
  {
    if v.Sequence? {
      EachIsZip(w, adapters, item, v.items);
      ZipGathers(w, adapters, Copies(item, |v.items|), v.items);
      EachAsIs(w, adapters, v.items);
      if |items| == |v.items| {
        ZipGathers(w, adapters, items, v.items);
      }
    }
  }

  /** The i-th pair is loaded, key first, and put into the dictionary the pairs before it made. */
  ghost predicate PairPut(w: World, adapters: seq<Adapter>, key: Annotation, item: Annotation, entries: seq<Entry>,
                          dicts: seq<Value>, i: nat)
    requires i < |entries| && i + 1 < |dicts|
  {
    var k, x := Loaded(w, adapters, key, entries[i].key, None), Loaded(w, adapters, item, entries[i].value, None);
    k.Ok? && x.Ok? && w.put(dicts[i], k.value, x.value) == Ok(dicts[i + 1])
  }

  ghost predicate PairsPut(w: World, adapters: seq<Adapter>, key: Annotation, item: Annotation, entries: seq<Entry>,
                           dicts: seq<Value>)
  {
    |dicts| == |entries| + 1 && forall i: nat :: i < |entries| ==> PairPut(w, adapters, key, item, entries, dicts, i)
  }

  /** What the first pair that is not put fails with: its key, else its value, else the dictionary. */
  function PairFailure(w: World, adapters: seq<Adapter>, key: Annotation, item: Annotation, e: Entry, dict: Value)
    : Option<Failure>
  {
    match (Loaded(w, adapters, key, e.key, None), Loaded(w, adapters, item, e.value, None))
    case (Fail(why), _) => Some(why)
    case (Ok(_), Fail(why)) => Some(why)
    case (Ok(k), Ok(x)) =>
      match w.put(dict, k, x)
      case Fail(why) => Some(why)
      case Ok(_) => None
  }

  lemma FirstPair(w: World, adapters: seq<Adapter>, key: Annotation, item: Annotation, entries: seq<Entry>,
                  dict: Value)
    requires entries != []
    ensures var why := PairFailure(w, adapters, key, item, entries[0], dict);
            if why.Some? then LoadedEntries(w, adapters, key, item, entries, dict) == Fail(why.value)
            else
              var k := Loaded(w, adapters, key, entries[0].key, None);
              var x := Loaded(w, adapters, item, entries[0].value, None);
              && k.Ok? && x.Ok? && w.put(dict, k.value, x.value).Ok?
              && LoadedEntries(w, adapters, key, item, entries, dict)
                 == LoadedEntries(w, adapters, key, item, entries[1..], w.put(dict, k.value, x.value).value)
  {
  }

  lemma PairsPutCons(w: World, adapters: seq<Adapter>, key: Annotation, item: Annotation, e: Entry, entries: seq<Entry>,
                     dict: Value, dicts: seq<Value>)
    requires PairsPut(w, adapters, key, item, entries, dicts)
    requires PairPut(w, adapters, key, item, [e], [dict, dicts[0]], 0)
    ensures PairsPut(w, adapters, key, item, [e] + entries, [dict] + dicts)
  {
    forall i: nat | i < |entries| + 1 ensures PairPut(w, adapters, key, item, [e] + entries, [dict] + dicts, i) {
      assert i > 0 ==> PairPut(w, adapters, key, item, entries, dicts, i - 1);
    }
  }

  /** Dictionaries: `dicts` are the dictionary after each pair; it ends with the last, or with the first pair that
      cannot be put. */
  lemma {:induction false} DictLoads(w: World, adapters: seq<Adapter>, key: Annotation, item: Annotation,
                                     entries: seq<Entry>, dict: Value) returns (dicts: seq<Value>)
    ensures 1 <= |dicts| <= |entries| + 1 && dicts[0] == dict
    ensures var n := |dicts| - 1;
            var r := LoadedEntries(w, adapters, key, item, entries, dict);
            && PairsPut(w, adapters, key, item, entries[..n], dicts)
            && if n == |entries| then r == Ok(dicts[n])
               else
                 var why := PairFailure(w, adapters, key, item, entries[n], dicts[n]);
                 why.Some? && r == Fail(why.value)
    decreases |entries|
  {
    if entries == [] {
      dicts := [dict];
    } else {
      var e := entries[0];
      FirstPair(w, adapters, key, item, entries, dict);
      if PairFailure(w, adapters, key, item, e, dict).Some? {
        dicts := [dict];
      } else {
        var k, x := Loaded(w, adapters, key, e.key, None).value, Loaded(w, adapters, item, e.value, None).value;
        var rest := DictLoads(w, adapters, key, item, entries[1..], w.put(dict, k, x).value);
        var n := |rest| - 1;
        dicts := [dict] + rest;
        assert PairPut(w, adapters, key, item, [e], [dict, rest[0]], 0);
        PairsPutCons(w, adapters, key, item, e, entries[1..][..n], dict, rest);
        assert entries[..n + 1] == [e] + entries[1..][..n];
      }
    }
  }

  lemma DictForm(w: World, adapters: seq<Adapter>, key: Annotation, item: Annotation, v: Value, name: Option<string>)
    ensures Loaded(w, adapters, DictOf(key, item), v, name)
         == if v.Mapping? then LoadedEntries(w, adapters, key, item, v.entries, Mapping(0, []))
            else Fail(ModelError(ExpectedMapping))
  {
  }

  // ----- Single values

  /** Values pass, are converted or are refused by what they are instances of. */
  lemma SingleValuesLoad(w: World, adapters: seq<Adapter>, cls: ClassName, v: Value, name: Option<string>)
    ensures Loaded(w, adapters, AnyType, v, name) == Ok(v)
    ensures Loaded(w, adapters, NoneType, v, name) == if v.Null? then Ok(Null) else Fail(ModelError(ExpectedNone))
    ensures Loaded(w, adapters, Special, v, name) == Fail(ModelError(Unsupported))
    ensures var passed := if w.isInstance(v, cls) then Ok(v) else w.convert(cls, v);
            && Loaded(w, adapters, Bare(cls), v, name) == passed
            && Loaded(w, adapters, Scalar(cls), v, name) == passed
            && Loaded(w, adapters, Enum(cls), v, name) == passed
  {
    assert Peel(AnyType) == AnyType && Peel(NoneType) == NoneType && Peel(Special) == Special;
    assert Peel(Bare(cls)) == Bare(cls) && Peel(Scalar(cls)) == Scalar(cls) && Peel(Enum(cls)) == Enum(cls);
  }

  /** An alias is what it stands for and `Annotated` is what it annotates, but an alias inside it is refused. */
  lemma AliasesStandFor(w: World, adapters: seq<Adapter>, a: Annotation, v: Value, name: Option<string>)
    ensures Loaded(w, adapters, Alias(a), v, name) == Loaded(w, adapters, a, v, name)
    ensures Loaded(w, adapters, Annotated(a), v, name)
         == if a.Alias? then Fail(ModelError(Unsupported)) else Loaded(w, adapters, a, v, name)
  {
    assert Unroll(Alias(a)) == Unroll(a) && Unroll(Annotated(a)) == Annotated(a);
    assert Strip(Annotated(a)) == Strip(a);
    assert Loaded(w, adapters, Annotated(a), v, name) == LoadedHead(w, adapters, Strip(a), v, name);
    if a.Alias? {
      assert Strip(a) == a;
    } else {
      assert Unroll(a) == a;
    }
  }

  lemma UnionForm(w: World, adapters: seq<Adapter>, options: seq<Annotation>, v: Value, name: Option<string>)
    ensures Loaded(w, adapters, Union(options), v, name)
         == if v.Null? && NoneType in options then Ok(Null) else LoadedFirst(w, adapters, options, v)
  {
  }

  // ----- Adapters

  /** Unnamed, a class has the one adapter that supports it; none or several is an error. */
  lemma {:induction false} OneAdapter(w: World, adapters: seq<Adapter>, cls: ClassName, byValue: bool, i: nat)
    requires i < |adapters| && w.supports(adapters[i], cls, byValue)
    ensures var r := Selected(w, adapters, cls, byValue, None);
            if forall k :: 0 <= k < |adapters| && k != i ==> !w.supports(adapters[k], cls, byValue)
            then r == Ok(adapters[i]) else r == Fail(ModelError(Ambiguous))
  {
    SupportingCounts(w, adapters, cls, byValue);
    if k :| 0 <= k < |adapters| && k != i && w.supports(adapters[k], cls, byValue) {
      TwoSupport(w, adapters, cls, byValue, if i < k then i else k, if i < k then k else i);
    } else {
      OnlyOneSupports(w, adapters, cls, byValue, i);
    }
  }

  lemma {:induction false} SupportingCounts(w: World, adapters: seq<Adapter>, cls: ClassName, byValue: bool)
    ensures Supporting(w, adapters, cls, byValue) == []
       <==> forall k :: 0 <= k < |adapters| ==> !w.supports(adapters[k], cls, byValue)
  {
    if adapters != [] {
      SupportingCounts(w, adapters[1..], cls, byValue);
      assert forall k :: 0 <= k < |adapters| - 1 ==> adapters[1..][k] == adapters[k + 1];
    }
  }

  lemma {:induction false} TwoSupport(w: World, adapters: seq<Adapter>, cls: ClassName, byValue: bool, i: nat, k: nat)
    requires i < k < |adapters| && w.supports(adapters[i], cls, byValue) && w.supports(adapters[k], cls, byValue)
    ensures |Supporting(w, adapters, cls, byValue)| > 1
    decreases |adapters|
  {
    if i == 0 {
      SupportingCounts(w, adapters[1..], cls, byValue);
      assert adapters[1..][k - 1] == adapters[k];
    } else {
      TwoSupport(w, adapters[1..], cls, byValue, i - 1, k - 1);
    }
  }

  lemma {:induction false} OnlyOneSupports(w: World, adapters: seq<Adapter>, cls: ClassName, byValue: bool, i: nat)
    requires i < |adapters| && w.supports(adapters[i], cls, byValue)
    requires forall k :: 0 <= k < |adapters| && k != i ==> !w.supports(adapters[k], cls, byValue)
    ensures Supporting(w, adapters, cls, byValue) == [adapters[i]]
    decreases |adapters|
  {
    assert forall k :: 0 <= k < |adapters| - 1 ==> adapters[1..][k] == adapters[k + 1];
    if i == 0 {
      SupportingCounts(w, adapters[1..], cls, byValue);
    } else {
      OnlyOneSupports(w, adapters[1..], cls, byValue, i - 1);
    }
  }

  lemma NoAdapter(w: World, adapters: seq<Adapter>, cls: ClassName, byValue: bool)
    requires forall k :: 0 <= k < |adapters| ==> !w.supports(adapters[k], cls, byValue)
    ensures Selected(w, adapters, cls, byValue, None) == Fail(ModelError(Unsupported))
  {
    SupportingCounts(w, adapters, cls, byValue);
  }

  /** A named adapter is the first of that name, and is not replaced by another that would do. */
  lemma {:induction false} NamedAdapter(w: World, adapters: seq<Adapter>, cls: ClassName, byValue: bool, name: string,
                                        i: nat)
    requires i <= |adapters| && forall k :: 0 <= k < i ==> adapters[k].name != name
    requires i < |adapters| ==> adapters[i].name == name
    ensures Selected(w, adapters, cls, byValue, Some(name)) ==
              if i == |adapters| then Fail(ModelError(UnknownAdapter))
              else if w.supports(adapters[i], cls, byValue) then Ok(adapters[i]) else Fail(ModelError(Unsupported))
    decreases i
  {
    if i > 0 {
      NamedAdapter(w, adapters[1..], cls, byValue, name, i - 1);
    }
  }

  // ----- Models

  /** The fields a mapping holds, in the model's order. */
  function Present(fields: seq<Field>, entries: seq<Entry>, byWire: bool): seq<Field> {
    if fields == [] then []
    else
      var f, rest := fields[0], Present(fields[1..], entries, byWire);
      if HasKey(entries, if byWire then f.wireName else f.name) then [f] + rest else rest
  }

  predicate HasKey(entries: seq<Entry>, name: string) {
    exists i :: 0 <= i < |entries| && entries[i].key == Text(name)
  }

  /** A named value is a field's: its name, and what its annotation makes of an item under its key. */
  ghost predicate LoadsField(w: World, adapters: seq<Adapter>, f: Field, entries: seq<Entry>, byWire: bool, x: Named) {
    && x.name == f.name
    && exists i :: 0 <= i < |entries| && entries[i].key == Text(if byWire then f.wireName else f.name)
                   && Loaded(w, adapters, f.annotation, entries[i].value, None) == Ok(x.value)
  }

  lemma {:induction false} RequiredAreThere(w: World, adapters: seq<Adapter>, fields: seq<Field>, entries: seq<Entry>,
                                            byWire: bool, f: Field)
    requires LoadedFields(w, adapters, fields, entries, byWire).Ok? && f in fields && f.required
    ensures f in Present(fields, entries, byWire)
    decreases |fields|
  {
    if f != fields[0] {
      RequiredAreThere(w, adapters, fields[1..], entries, byWire, f);
    }
  }

  lemma {:induction false} PresentLoad(w: World, adapters: seq<Adapter>, fields: seq<Field>, entries: seq<Entry>,
                                       byWire: bool)
    requires LoadedFields(w, adapters, fields, entries, byWire).Ok?
    ensures var named := LoadedFields(w, adapters, fields, entries, byWire).value;
            var there := Present(fields, entries, byWire);
            && |named| == |there|
            && forall i :: 0 <= i < |there| ==> LoadsField(w, adapters, there[i], entries, byWire, named[i])
    decreases |fields|
  {
    if fields != [] {
      var f := fields[0];
      var at := Find(entries, if byWire then f.wireName else f.name);
      PresentLoad(w, adapters, fields[1..], entries, byWire);
      if at.Some? {
        var x := Named(f.name, Loaded(w, adapters, f.annotation, entries[at.value].value, None).value);
        assert LoadsField(w, adapters, f, entries, byWire, x);
      }
    }
  }

  /** A model that loads has every required field, and is made of the fields that are there, in the model's order. */
  lemma FieldsLoad(w: World, adapters: seq<Adapter>, fields: seq<Field>, entries: seq<Entry>, byWire: bool)
    ensures var r := LoadedFields(w, adapters, fields, entries, byWire);
            r.Ok? ==>
              var there := Present(fields, entries, byWire);
              && |r.value| == |there|
              && (forall i :: 0 <= i < |there| ==> LoadsField(w, adapters, there[i], entries, byWire, r.value[i]))
              && forall f :: f in fields && f.required ==> f in there
  {
    if LoadedFields(w, adapters, fields, entries, byWire).Ok? {
      PresentLoad(w, adapters, fields, entries, byWire);
      forall f | f in fields && f.required ensures f in Present(fields, entries, byWire) {
        RequiredAreThere(w, adapters, fields, entries, byWire, f);
      }
    }
  }

  /** The first field that keeps a model from loading says why: it is required and missing, or does not load. */
  lemma {:induction false} FieldsFail(w: World, adapters: seq<Adapter>, fields: seq<Field>, entries: seq<Entry>,
                                      byWire: bool) returns (i: nat)
    requires LoadedFields(w, adapters, fields, entries, byWire).Fail?
    ensures i < |fields| && LoadedFields(w, adapters, fields[..i], entries, byWire).Ok?
    ensures var why := LoadedFields(w, adapters, fields, entries, byWire).failure;
            var key := if byWire then fields[i].wireName else fields[i].name;
            if HasKey(entries, key) then
              exists k :: 0 <= k < |entries| && entries[k].key == Text(key)
                          && Loaded(w, adapters, fields[i].annotation, entries[k].value, None) == Fail(why)
            else fields[i].required && why == ModelError(MissingField(fields[i].name))
    decreases |fields|
  {
    var f := fields[0];
    var at := Find(entries, if byWire then f.wireName else f.name);
    if at.None? && f.required {
      i := 0;
    } else if at.Some? && Loaded(w, adapters, f.annotation, entries[at.value].value, None).Fail? {
      i := 0;
    } else {
      i := FieldsFail(w, adapters, fields[1..], entries, byWire);
      i := i + 1;
      assert fields[..i][0] == f && fields[..i][1..] == fields[1..][..i - 1];
    }
  }

  ghost predicate NamesField(fields: seq<Field>, key: Value) {
    exists f :: f in fields && key == Text(f.name)
  }

  /** A key of the mapping is no field's name. */
  ghost predicate Stranger(fields: seq<Field>, entries: seq<Entry>) {
    exists i :: 0 <= i < |entries| && !NamesField(fields, entries[i].key)
  }

  lemma KnownKey(fields: seq<Field>, key: Value)
    ensures NamesField(fields, key) <==> key.Text? && key.text in FieldNames(fields)
  {
    var names := FieldNames(fields);
    if key.Text? && key.text in names {
      var n :| 0 <= n < |fields| && names[n] == key.text;
      assert fields[n] in fields;
    }
    if f :| f in fields && key == Text(f.name) {
      var n :| 0 <= n < |fields| && fields[n] == f;
      assert names[n] == f.name;
    }
  }

  lemma StrangersAreUnknown(fields: seq<Field>, entries: seq<Entry>)
    ensures HasUnknown(entries, FieldNames(fields)) <==> Stranger(fields, entries)
  {
    forall i | 0 <= i < |entries|
      ensures NamesField(fields, entries[i].key)
         <==> entries[i].key.Text? && entries[i].key.text in FieldNames(fields)
    {
      KnownKey(fields, entries[i].key);
    }
  }

  /** A typed dictionary loads exactly when its model has a plan, no key is unknown and its fields load. */
  lemma TypedDictLoadsIff(w: World, adapters: seq<Adapter>, adapter: Adapter, a: Annotation, v: Value)
    requires (a.TypedDict? || a.Model?) && adapter.kind.TypedDicts? && v.Mapping?
    ensures var plan, r := Plan(w, adapters, a.cls), LoadedModel(w, adapters, adapter, a, v);
            if plan.Fail? then r == Fail(plan.failure)
            else
              FieldsOf(w, adapters, a.cls).Ok? &&
              var fields := FieldsOf(w, adapters, a.cls).value;
              if Stranger(fields, v.entries) then r == Fail(ModelError(UnknownFields))
              else
                var named := LoadedFields(w, adapters, fields, v.entries, false);
                if named.Fail? then r == Fail(named.failure) else r.Ok?
  {
    if Plan(w, adapters, a.cls).Ok? {
      StrangersAreUnknown(FieldsOf(w, adapters, a.cls).value, v.entries);
    }
  }

  /** A typed dictionary that loads had no unknown key, and holds each field that was there under its name. */
  lemma TypedDictLoads(w: World, adapters: seq<Adapter>, adapter: Adapter, a: Annotation, v: Value)
    requires (a.TypedDict? || a.Model?) && adapter.kind.TypedDicts?
    ensures !v.Mapping? ==> LoadedModel(w, adapters, adapter, a, v) == Fail(ModelError(ExpectedMapping))
    ensures v.Mapping? && LoadedModel(w, adapters, adapter, a, v).Ok? ==>
              var fields, r := FieldsOf(w, adapters, a.cls), LoadedModel(w, adapters, adapter, a, v).value;
              fields.Ok? &&
              var there := Present(fields.value, v.entries, false);
              && (forall i :: 0 <= i < |v.entries| ==>
                    exists f :: f in fields.value && v.entries[i].key == Text(f.name))
              && r.Mapping? && r.id == 0 && |r.entries| == |there|
              && forall i :: 0 <= i < |there| ==>
                   && r.entries[i].key == Text(there[i].name)
                   && LoadsField(w, adapters, there[i], v.entries, false, Named(there[i].name, r.entries[i].value))
  {
    if v.Mapping? && LoadedModel(w, adapters, adapter, a, v).Ok? {
      var fields := FieldsOf(w, adapters, a.cls).value;
      var there := Present(fields, v.entries, false);
      var named := LoadedFields(w, adapters, fields, v.entries, false).value;
      FieldsLoad(w, adapters, fields, v.entries, false);
      forall i | 0 <= i < |v.entries| ensures exists f :: f in fields && v.entries[i].key == Text(f.name) {
        assert v.entries[i].key.Text? && v.entries[i].key.text in FieldNames(fields);
        var n :| 0 <= n < |fields| && FieldNames(fields)[n] == v.entries[i].key.text;
        assert fields[n] in fields;
      }
      forall i | 0 <= i < |there|
        ensures LoadsField(w, adapters, there[i], v.entries, false, Named(there[i].name, named[i].value))
      {
        assert LoadsField(w, adapters, there[i], v.entries, false, named[i]);
      }
    }
  }

  /** A dataclass is constructed from its fields by wire name; unknown keys do not matter. */
  lemma DataclassLoads(w: World, adapters: seq<Adapter>, adapter: Adapter, a: Annotation, v: Value)
    requires (a.TypedDict? || a.Model?) && adapter.kind.Dataclasses?
    ensures !v.Mapping? ==> LoadedModel(w, adapters, adapter, a, v) == Fail(ModelError(ExpectedMapping))
    ensures v.Mapping? && Plan(w, adapters, a.cls).Ok? ==>
              FieldsOf(w, adapters, a.cls).Ok? &&
              var named := LoadedFields(w, adapters, FieldsOf(w, adapters, a.cls).value, v.entries, true);
              LoadedModel(w, adapters, adapter, a, v)
              == if named.Ok? then w.construct(a.cls, named.value) else Fail(named.failure)
  {
  }

  /** An instance of a class is its own load; anything else goes to the one adapter, which plans before it looks at a
      field. */
  lemma ModelForm(w: World, adapters: seq<Adapter>, a: Annotation, v: Value, name: Option<string>)
    requires a.TypedDict? || a.Model?
    ensures var adapter, r := Selected(w, adapters, a.cls, false, name), Loaded(w, adapters, a, v, name);
            if a.Model? && w.isInstance(v, a.cls) then r == Ok(v)
            else if adapter.Fail? then r == Fail(adapter.failure)
            else if adapter.value.kind.Foreign? then r == w.foreign(adapter.value, a.cls, v)
            else if !v.Mapping? then r == Fail(ModelError(ExpectedMapping))
            else if Plan(w, adapters, a.cls).Fail? then r == Fail(Plan(w, adapters, a.cls).failure)
            else r == LoadedModel(w, adapters, adapter.value, a, v)
  {
    assert Peel(a) == a;
    var adapter := Selected(w, adapters, a.cls, false, name);
    if !(a.Model? && w.isInstance(v, a.cls)) && adapter.Ok? {
      assert Loaded(w, adapters, a, v, name) == LoadedHead(w, adapters, a, v, name)
          == LoadedModel(w, adapters, adapter.value, a, v);
    }
  }
}
