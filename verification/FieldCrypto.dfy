/**
 Field crypto: algorithms applied to values inside a frozen JSON document, at paths that do not overlap.
 A path is read off the frozen document; a write thaws the whole document, assigns in the copy and
 freezes it again with its keys sorted.
 */
module FieldCrypto {
  import opened Ordering

  /** `Leaf` is any JSON scalar, null included. */
  datatype Frozen = Leaf(id: int) | FArray(items: seq<Frozen>) | FObject(members: seq<Member>)

  datatype Member = Member(name: string, value: Frozen)

  /** Lists and dictionaries; a dictionary lists its entries in insertion order. */
  datatype Raw = RawLeaf(id: int) | List(items: seq<Raw>) | Dict(entries: seq<Entry>)

  datatype Entry = Entry(name: string, value: Raw)

  datatype Component = Name(name: string) | Index(index: nat)

  type Path = seq<Component>

  function Names(members: seq<Member>): seq<string> {
    seq(|members|, i requires 0 <= i < |members| => members[i].name)
  }

  function EntryNames(entries: seq<Entry>): seq<string> {
    seq(|entries|, i requires 0 <= i < |entries| => entries[i].name)
  }

  /** `d[name] = value`: in the old place, or at the end. */
  function Assign(entries: seq<Entry>, name: string, value: Raw): seq<Entry> {
    if name in EntryNames(entries) then entries[IndexOf(EntryNames(entries), name) := Entry(name, value)]
    else entries + [Entry(name, value)]
  }

  function AssignAll(entries: seq<Entry>, more: seq<Entry>): seq<Entry>
    decreases |more|
  {
    if more == [] then entries else AssignAll(Assign(entries, more[0].name, more[0].value), more[1..])
  }

  predicate NameLe(a: Member, b: Member) {
    StringLe(a.name, b.name)
  }

  // ----- Freezing and thawing

  function Thaw(f: Frozen): Raw {
    match f
    case Leaf(id) => RawLeaf(id)
    case FArray(items) => List(ThawItems(items))
    case FObject(members) => Dict(AssignAll([], ThawMembers(members)))
  }

  function ThawItems(items: seq<Frozen>): (r: seq<Raw>)
    ensures |r| == |items| && forall i :: 0 <= i < |r| ==> r[i] == Thaw(items[i])
  {
    if items == [] then [] else [Thaw(items[0])] + ThawItems(items[1..])
  }

  function ThawMembers(members: seq<Member>): (r: seq<Entry>)
    ensures |r| == |members| && forall i :: 0 <= i < |r| ==> r[i] == Entry(members[i].name, Thaw(members[i].value))
  {
    if members == [] then [] else [Entry(members[0].name, Thaw(members[0].value))] + ThawMembers(members[1..])
  }

  function Freeze(r: Raw): Frozen {
    match r
    case RawLeaf(id) => Leaf(id)
    case List(items) => FArray(FreezeItems(items))
    case Dict(entries) => FObject(Sort(FreezeMembers(entries), NameLe))
  }

  function FreezeItems(items: seq<Raw>): (r: seq<Frozen>)
    ensures |r| == |items| && forall i :: 0 <= i < |r| ==> r[i] == Freeze(items[i])
  {
    if items == [] then [] else [Freeze(items[0])] + FreezeItems(items[1..])
  }

  function FreezeMembers(entries: seq<Entry>): (r: seq<Member>)
    ensures |r| == |entries| && forall i :: 0 <= i < |r| ==> r[i] == Member(entries[i].name, Freeze(entries[i].value))
  {
    if entries == [] then [] else [Member(entries[0].name, Freeze(entries[0].value))] + FreezeMembers(entries[1..])
  }

  /** Member names ascend, each once, all the way down: what `freeze_value` produces. */
  ghost predicate Canonical(f: Frozen) {
    match f
    case Leaf(_) => true
    case FArray(items) => forall i :: 0 <= i < |items| ==> Canonical(items[i])
    case FObject(members) =>
      && Distinct(Names(members)) && SortedBy(members, NameLe)
      && (forall i :: 0 <= i < |members| ==> Canonical(members[i].value))
  }

  function Canon(f: Frozen): Frozen {
    Freeze(Thaw(f))
  }

  lemma {:induction false} AssignAllDistinct(entries: seq<Entry>, more: seq<Entry>)
    requires Distinct(EntryNames(entries + more))
    ensures AssignAll(entries, more) == entries + more
    decreases |more|
  {
    if more != [] {
      var next := entries + [more[0]];
      assert next + more[1..] == entries + more;
      var names, all := EntryNames(entries), EntryNames(entries + more);
      assert all[|entries|] == more[0].name && forall i :: 0 <= i < |names| ==> names[i] == all[i];
      AssignAllDistinct(next, more[1..]);
    }
  }

  /** Thawing a canonical object keeps its members where they are. */
  lemma ThawObject(f: Frozen)
    requires f.FObject? && Canonical(f)
    ensures Thaw(f) == Dict(ThawMembers(f.members)) && EntryNames(ThawMembers(f.members)) == Names(f.members)
  {
    var entries := ThawMembers(f.members);
    assert EntryNames(entries) == Names(f.members);
    assert [] + entries == entries;
    AssignAllDistinct([], entries);
  }

  /** Freezing after thawing gives a canonical document back. */
  lemma {:induction false} FreezeThaw(f: Frozen)
    requires Canonical(f)
    ensures Canon(f) == f
  {
    match f
    case Leaf(_) =>
    case FArray(items) =>
      forall i | 0 <= i < |items| ensures Canon(items[i]) == items[i] {
        FreezeThaw(items[i]);
      }
      assert FreezeItems(ThawItems(items)) == items;
    case FObject(members) =>
      ThawObject(f);
      forall i | 0 <= i < |members| ensures Canon(members[i].value) == members[i].value {
        FreezeThaw(members[i].value);
      }
      assert FreezeMembers(ThawMembers(members)) == members;
      SortSorted(members, NameLe);
  }

  // ----- What freezing produces

  ghost predicate OneEntryPerName(r: Raw) {
    match r
    case RawLeaf(_) => true
    case List(items) => forall i :: 0 <= i < |items| ==> OneEntryPerName(items[i])
    case Dict(entries) =>
      Distinct(EntryNames(entries)) && forall i :: 0 <= i < |entries| ==> OneEntryPerName(entries[i].value)
  }

  lemma AssignKeepsNames(entries: seq<Entry>, name: string, value: Raw)
    requires Distinct(EntryNames(entries)) && OneEntryPerName(value)
    requires forall i :: 0 <= i < |entries| ==> OneEntryPerName(entries[i].value)
    ensures var after := Assign(entries, name, value);
            Distinct(EntryNames(after)) && forall i :: 0 <= i < |after| ==> OneEntryPerName(after[i].value)
  {
    var names := EntryNames(entries);
    if name in names {
      assert EntryNames(Assign(entries, name, value)) == names;
    } else {
      assert EntryNames(Assign(entries, name, value)) == names + [name];
    }
  }

  lemma {:induction false} AssignAllKeepsNames(entries: seq<Entry>, more: seq<Entry>)
    requires Distinct(EntryNames(entries))
    requires forall i :: 0 <= i < |entries| ==> OneEntryPerName(entries[i].value)
    requires forall i :: 0 <= i < |more| ==> OneEntryPerName(more[i].value)
    ensures OneEntryPerName(Dict(AssignAll(entries, more)))
    decreases |more|
  {
    if more != [] {
      AssignKeepsNames(entries, more[0].name, more[0].value);
      AssignAllKeepsNames(Assign(entries, more[0].name, more[0].value), more[1..]);
    }
  }

  lemma {:induction false} ThawedOneEntryPerName(f: Frozen)
    ensures OneEntryPerName(Thaw(f))
  {
    match f
    case Leaf(_) =>
    case FArray(items) =>
      forall i | 0 <= i < |items| ensures OneEntryPerName(Thaw(items[i])) {
        ThawedOneEntryPerName(items[i]);
      }
    case FObject(members) =>
      forall i | 0 <= i < |members| ensures OneEntryPerName(Thaw(members[i].value)) {
        ThawedOneEntryPerName(members[i].value);
      }
      AssignAllKeepsNames([], ThawMembers(members));
  }

  lemma NameLeOrders(members: seq<Member>)
    ensures OrdersAll(members, NameLe)
  {
    forall x, y | x in members && y in members ensures NameLe(x, y) || NameLe(y, x) {
      StringLeTotal(x.name, y.name);
    }
    forall x, y, z | x in members && y in members && z in members && NameLe(x, y) && NameLe(y, z) ensures NameLe(x, z) {
      StringLeTransitive(x.name, y.name, z.name);
    }
  }

  lemma {:induction false} FrozenIsCanonical(r: Raw)
    requires OneEntryPerName(r)
    ensures Canonical(Freeze(r))
  {
    match r
    case RawLeaf(_) =>
    case List(items) =>
      forall i | 0 <= i < |items| ensures Canonical(Freeze(items[i])) {
        FrozenIsCanonical(items[i]);
      }
    case Dict(entries) =>
      var frozen := FreezeMembers(entries);
      var sorted := Sort(frozen, NameLe);
      forall i | 0 <= i < |entries| ensures Canonical(frozen[i].value) {
        FrozenIsCanonical(entries[i].value);
      }
      NameLeOrders(frozen);
      SortSorts(frozen, NameLe);
      SortPermutes(frozen, NameLe);
      assert forall i :: 0 <= i < |frozen| ==> EntryNames(entries)[i] == frozen[i].name;
      SortedNamesDistinct(frozen, sorted);
      forall i | 0 <= i < |sorted| ensures Canonical(sorted[i].value) {
        assert sorted[i] in multiset(sorted) && sorted[i] in frozen;
      }
  }

  lemma SortedNamesDistinct(ms: seq<Member>, sorted: seq<Member>)
    requires multiset(ms) == multiset(sorted)
    requires forall i, j :: 0 <= i < j < |ms| ==> ms[i].name != ms[j].name
    ensures Distinct(Names(sorted))
  {
    assert Distinct(ms);
    DistinctFromMultiset(ms, sorted);
    forall i, j | 0 <= i < j < |sorted| ensures sorted[i].name != sorted[j].name {
      assert sorted[i] in multiset(sorted) && sorted[j] in multiset(sorted);
      assert sorted[i] in ms && sorted[j] in ms;
    }
  }

  /** `freeze_value` undoes `thaw_value` on exactly the documents whose names ascend, each once. */
  lemma FreezeUndoesThawIff(f: Frozen)
    ensures Canonical(Canon(f))
    ensures Canon(f) == f <==> Canonical(f)
  {
    ThawedOneEntryPerName(f);
    FrozenIsCanonical(Thaw(f));
    if Canonical(f) {
      FreezeThaw(f);
    }
  }

  // ----- Reading and writing at a path

  function Child(f: Frozen, c: Component): Option<Frozen> {
    if c.Name? && f.FObject? then
      if c.name in Names(f.members) then Some(f.members[IndexOf(Names(f.members), c.name)].value) else None
    else if c.Index? && f.FArray? && c.index < |f.items| then Some(f.items[c.index])
    else None
  }

  /** `None` when the path is missing or cannot be traversed. */
  function Read(f: Frozen, path: Path): Option<Frozen>
    decreases |path|
  {
    if path == [] then Some(f)
    else
      var child := Child(f, path[0]);
      if child.None? then None else Read(child.value, path[1..])
  }

  function RawChild(r: Raw, c: Component): Option<Raw> {
    if c.Name? && r.Dict? then
      if c.name in EntryNames(r.entries) then Some(r.entries[IndexOf(EntryNames(r.entries), c.name)].value) else None
    else if c.Index? && r.List? && c.index < |r.items| then Some(r.items[c.index])
    else None
  }

  function SetRawChild(r: Raw, c: Component, value: Raw): Option<Raw> {
    if c.Name? && r.Dict? then Some(Dict(Assign(r.entries, c.name, value)))
    else if c.Index? && r.List? && c.index < |r.items| then Some(List(r.items[c.index := value]))
    else None
  }

  /** The thawed copy after the assignment at the end of the path. */
  function SetRaw(r: Raw, path: Path, value: Raw): Option<Raw>
    decreases |path|
  {
    if path == [] then None
    else if |path| == 1 then SetRawChild(r, path[0], value)
    else
      var child := RawChild(r, path[0]);
      var inner := if child.None? then None else SetRaw(child.value, path[1..], value);
      if inner.None? then None else SetRawChild(r, path[0], inner.value)
  }

  /** `_set_path`: thaw, assign, freeze. */
  function SetPath(f: Frozen, path: Path, value: Frozen): Option<Frozen> {
    var r := SetRaw(Thaw(f), path, Thaw(value));
    if r.None? then None else Some(Freeze(r.value))
  }

  function PutChild(f: Frozen, c: Component, value: Frozen): Frozen
    requires Child(f, c).Some?
  {
    if c.Name? then
      var i := IndexOf(Names(f.members), c.name);
      FObject(f.members[i := Member(c.name, value)])
    else FArray(f.items[c.index := value])
  }

  /** The document with one value replaced and nothing thawed. */
  function Update(f: Frozen, path: Path, value: Frozen): Frozen
    requires Read(f, path).Some?
    decreases |path|
  {
    if path == [] then value
    else PutChild(f, path[0], Update(Child(f, path[0]).value, path[1..], value))
  }

  lemma PutChildNames(f: Frozen, c: Component, value: Frozen)
    requires Child(f, c).Some? && c.Name?
    ensures Names(PutChild(f, c, value).members) == Names(f.members)
  {
  }

  lemma ThawedChild(f: Frozen, c: Component)
    requires Canonical(f) && Child(f, c).Some?
    ensures RawChild(Thaw(f), c) == Some(Thaw(Child(f, c).value)) && Canonical(Child(f, c).value)
  {
    if c.Name? {
      ThawObject(f);
    }
  }

  lemma SetChildIsPutChild(f: Frozen, c: Component, r: Raw)
    requires Canonical(f) && Child(f, c).Some?
    ensures SetRawChild(Thaw(f), c, r).Some?
    ensures Freeze(SetRawChild(Thaw(f), c, r).value) == PutChild(f, c, Freeze(r))
  {
    if c.Name? {
      ThawObject(f);
      var i := IndexOf(Names(f.members), c.name);
      var members := f.members[i := Member(c.name, Freeze(r))];
      SetMember(f, i, Entry(c.name, r));
      SortSorted(members, NameLe);
    } else {
      SetItem(f, c.index, r);
    }
  }

  lemma SetMember(f: Frozen, i: nat, e: Entry)
    requires f.FObject? && Canonical(f) && i < |f.members|
    ensures FreezeMembers(ThawMembers(f.members)[i := e]) == f.members[i := Member(e.name, Freeze(e.value))]
  {
    forall k | 0 <= k < |f.members| && k != i ensures Canon(f.members[k].value) == f.members[k].value {
      FreezeThaw(f.members[k].value);
    }
  }

  lemma SetItem(f: Frozen, i: nat, r: Raw)
    requires f.FArray? && Canonical(f) && i < |f.items|
    ensures FreezeItems(ThawItems(f.items)[i := r]) == f.items[i := Freeze(r)]
  {
    forall k | 0 <= k < |f.items| && k != i ensures Canon(f.items[k]) == f.items[k] {
      FreezeThaw(f.items[k]);
    }
  }

  lemma {:induction false} SetRawIsUpdate(f: Frozen, path: Path, r: Raw)
    requires Canonical(f) && path != [] && Read(f, path).Some?
    ensures SetRaw(Thaw(f), path, r).Some?
    ensures Freeze(SetRaw(Thaw(f), path, r).value) == Update(f, path, Freeze(r))
    decreases |path|
  {
    var c := path[0];
    ThawedChild(f, c);
    if |path| == 1 {
      SetChildIsPutChild(f, c, r);
    } else {
      var child := Child(f, c).value;
      SetRawIsUpdate(child, path[1..], r);
      SetChildIsPutChild(f, c, SetRaw(Thaw(child), path[1..], r).value);
    }
  }

  /** On a canonical document, thawing, assigning and freezing replaces exactly the value at the path. */
  lemma SetPathIsUpdate(f: Frozen, path: Path, value: Frozen)
    requires Canonical(f) && path != [] && Read(f, path).Some?
    ensures SetPath(f, path, value) == Some(Update(f, path, Canon(value)))
  {
    SetRawIsUpdate(f, path, Thaw(value));
  }

  lemma {:induction false} UpdateCanonical(f: Frozen, path: Path, value: Frozen)
    requires Canonical(f) && Canonical(value) && Read(f, path).Some?
    ensures Canonical(Update(f, path, value))
    decreases |path|
  {
    if path != [] {
      var child := Child(f, path[0]).value;
      ThawedChild(f, path[0]);
      UpdateCanonical(child, path[1..], value);
      PutChildCanonical(f, path[0], Update(child, path[1..], value));
    }
  }

  lemma PutChildCanonical(f: Frozen, c: Component, value: Frozen)
    requires Canonical(f) && Canonical(value) && Child(f, c).Some?
    ensures Canonical(PutChild(f, c, value))
  {
    if c.Name? {
      PutChildNames(f, c, value);
      var members := PutChild(f, c, value).members;
      forall i, j | 0 <= i < j < |members| ensures NameLe(members[i], members[j]) {
        assert NameLe(f.members[i], f.members[j]);
        assert Names(members)[i] == Names(f.members)[i] && Names(members)[j] == Names(f.members)[j];
      }
    }
  }

  lemma {:induction false} ReadCanonical(f: Frozen, path: Path)
    requires Canonical(f) && Read(f, path).Some?
    ensures Canonical(Read(f, path).value)
    decreases |path|
  {
    if path != [] {
      ThawedChild(f, path[0]);
      ReadCanonical(Child(f, path[0]).value, path[1..]);
    }
  }

  // ----- Lens laws

  /** `_validate_resolved_paths`: one path is a prefix of the other. */
  predicate Overlap(p: Path, q: Path) {
    var length := if |p| < |q| then |p| else |q|;
    p[..length] == q[..length]
  }

  /** Two paths overlap when one begins the other. */
  lemma OverlapIsPrefix(p: Path, q: Path)
    ensures Overlap(p, q) <==> p <= q || q <= p
  {
    assert p[..|p|] == p && q[..|q|] == q;
  }

  /** A path is read component by component: a name goes to the first member of that name, an index to that item, and
      anything else fails. */
  lemma ReadsAlong(f: Frozen, first: Component, rest: Path)
    ensures Read(f, []) == Some(f)
    ensures var whole := Read(f, [first] + rest);
            if first.Name? && f.FObject? then
              && (forall k :: 0 <= k < |f.members| && f.members[k].name == first.name
                              && (forall h :: 0 <= h < k ==> f.members[h].name != first.name) ==>
                    whole == Read(f.members[k].value, rest))
              && ((forall k :: 0 <= k < |f.members| ==> f.members[k].name != first.name) ==> whole == None)
            else if first.Index? && f.FArray? && first.index < |f.items| then whole == Read(f.items[first.index], rest)
            else whole == None
  {
    assert ([first] + rest)[0] == first && ([first] + rest)[1..] == rest;
    if first.Name? && f.FObject? {
      var names := Names(f.members);
      assert forall i :: 0 <= i < |names| ==> names[i] == f.members[i].name;
      forall k | 0 <= k < |names| && names[k] == first.name && first.name !in names[..k]
        ensures IndexOf(names, first.name) == k
      {
        FirstAt(names, first.name, k);
      }
    }
  }

  lemma FirstAt<T>(s: seq<T>, x: T, k: nat)
    requires k < |s| && s[k] == x && x !in s[..k]
    ensures x in s && IndexOf(s, x) == k
  {
    var i := IndexOf(s, x);
    assert forall h :: 0 <= h < k ==> s[..k][h] == s[h];
    assert forall h :: 0 <= h < i ==> s[..i][h] == s[h];
  }

  lemma OverlapTail(p: Path, q: Path)
    requires p != [] && q != [] && p[0] == q[0]
    ensures Overlap(p, q) <==> Overlap(p[1..], q[1..])
  {
    var length := if |p| < |q| then |p| else |q|;
    assert p[..length] == [p[0]] + p[1..][..length - 1];
    assert q[..length] == [q[0]] + q[1..][..length - 1];
  }

  lemma ChildOfPut(f: Frozen, c: Component, value: Frozen, d: Component)
    requires Child(f, c).Some?
    ensures Child(PutChild(f, c, value), d) == if d == c then Some(value) else Child(f, d)
  {
    if c.Name? {
      PutChildNames(f, c, value);
    }
  }

  /** Reading what was written. */
  lemma {:induction false} ReadUpdate(f: Frozen, path: Path, value: Frozen)
    requires Read(f, path).Some?
    ensures Read(Update(f, path, value), path) == Some(value)
    decreases |path|
  {
    if path != [] {
      var child := Child(f, path[0]).value;
      ReadUpdate(child, path[1..], value);
      ChildOfPut(f, path[0], Update(child, path[1..], value), path[0]);
    }
  }

  /** Writing back what was read, over whatever was written since. */
  lemma {:induction false} UpdateBack(f: Frozen, path: Path, value: Frozen)
    requires Read(f, path).Some?
    ensures Read(Update(f, path, value), path).Some?
    ensures Update(Update(f, path, value), path, Read(f, path).value) == f
    decreases |path|
  {
    ReadUpdate(f, path, value);
    if path != [] {
      var c, child := path[0], Child(f, path[0]).value;
      UpdateBack(child, path[1..], value);
      ChildOfPut(f, c, Update(child, path[1..], value), c);
      if c.Name? {
        PutChildNames(f, c, Update(child, path[1..], value));
      }
    }
  }

  /** A write leaves every path it does not overlap as it was. */
  lemma {:induction false} ReadOther(f: Frozen, p: Path, value: Frozen, q: Path)
    requires Read(f, p).Some? && !Overlap(p, q)
    ensures Read(Update(f, p, value), q) == Read(f, q)
    decreases |p|
  {
    var child := Child(f, p[0]).value;
    ChildOfPut(f, p[0], Update(child, p[1..], value), q[0]);
    if p[0] == q[0] {
      OverlapTail(p, q);
      ReadOther(child, p[1..], value, q[1..]);
    }
  }

  /** Writes at paths that do not overlap commute. */
  lemma {:induction false} UpdatesCommute(f: Frozen, p: Path, v: Frozen, q: Path, w: Frozen)
    requires Read(f, p).Some? && Read(f, q).Some? && !Overlap(p, q)
    ensures Read(Update(f, p, v), q).Some? && Read(Update(f, q, w), p).Some?
    ensures Update(Update(f, p, v), q, w) == Update(Update(f, q, w), p, v)
    decreases |p|
  {
    assert !Overlap(q, p);
    ReadOther(f, p, v, q);
    ReadOther(f, q, w, p);
    var c, d := p[0], q[0];
    var v', w' := Update(Child(f, c).value, p[1..], v), Update(Child(f, d).value, q[1..], w);
    ChildOfPut(f, c, v', d);
    ChildOfPut(f, d, w', c);
    if c == d {
      OverlapTail(p, q);
      UpdatesCommute(Child(f, c).value, p[1..], v, q[1..], w);
    }
    PutsCommute(f, c, v', d, w');
  }

  lemma PutsCommute(f: Frozen, c: Component, v: Frozen, d: Component, w: Frozen)
    requires Child(f, c).Some? && Child(f, d).Some?
    ensures Child(PutChild(f, c, v), d).Some? && Child(PutChild(f, d, w), c).Some?
    ensures c != d ==> PutChild(PutChild(f, c, v), d, w) == PutChild(PutChild(f, d, w), c, v)
    ensures c == d ==> forall x ::
              PutChild(PutChild(f, c, v), d, x) == PutChild(PutChild(f, d, w), c, x) == PutChild(f, c, x)
  {
    if c.Name? {
      PutChildNames(f, c, v);
      PutChildNames(f, d, w);
    }
  }

  // ----- Encryption and decryption

  /** One field: where it is, and what its algorithm makes of the value; `None` when it raises. */
  datatype Field = Field(path: Path, apply: Frozen -> Option<Frozen>)

  /** Paths are not empty and do not overlap. */
  ghost predicate Resolved(fields: seq<Field>) {
    && (forall i :: 0 <= i < |fields| ==> fields[i].path != [])
    && (forall i, j :: 0 <= i < j < |fields| ==> !Overlap(fields[i].path, fields[j].path))
  }

  /** One round of the loop in `encrypt_document` and `decrypt_document`. */
  function Step(document: Frozen, field: Field): Option<Frozen> {
    var selected := Read(document, field.path);
    if selected.None? then None
    else
      var output := field.apply(selected.value);
      if output.None? then None else SetPath(document, field.path, output.value)
  }

  function Transform(document: Frozen, fields: seq<Field>): Option<Frozen>
    decreases |fields|
  {
    if fields == [] then Some(document)
    else
      var next := Step(document, fields[0]);
      if next.None? then None else Transform(next.value, fields[1..])
  }

  method ReadPath(root: Frozen, path: Path) returns (r: Option<Frozen>)
    ensures r == Read(root, path)
  {
    var current := root;
    var i := 0;
    while i < |path|
      invariant i <= |path| && Read(root, path) == Read(current, path[i..])
    {
      assert path[i..][0] == path[i] && path[i..][1..] == path[i + 1..];
      var child := Child(current, path[i]);
      if child.None? {
        return None;
      }
      current := child.value;
      i := i + 1;
    }
    return Some(current);
  }

  method TransformDocument(document: Frozen, fields: seq<Field>) returns (r: Option<Frozen>)
    ensures r == Transform(document, fields)
  {
    var current := document;
    var i := 0;
    while i < |fields|
      invariant i <= |fields| && Transform(document, fields) == Transform(current, fields[i..])
    {
      assert fields[i..][0] == fields[i] && fields[i..][1..] == fields[i + 1..];
      var selected := ReadPath(current, fields[i].path);
      if selected.None? {
        return None;
      }
      var output := fields[i].apply(selected.value);
      if output.None? {
        return None;
      }
      var written := SetPath(current, fields[i].path, output.value);
      if written.None? {
        return None;
      }
      current := written.value;
      i := i + 1;
    }
    return Some(current);
  }

  /** What a field's algorithm puts into the document. */
  function Applied(document: Frozen, field: Field): Option<Frozen> {
    var selected := Read(document, field.path);
    if selected.None? then None
    else
      var output := field.apply(selected.value);
      if output.None? then None else Some(Canon(output.value))
  }

  lemma StepIsUpdate(document: Frozen, field: Field)
    requires Canonical(document) && field.path != []
    ensures Step(document, field).Some? <==> Applied(document, field).Some?
    ensures Step(document, field).Some?
        ==> Step(document, field).value == Update(document, field.path, Applied(document, field).value)
            && Canonical(Step(document, field).value)
  {
    if Applied(document, field).Some? {
      var output := field.apply(Read(document, field.path).value).value;
      SetPathIsUpdate(document, field.path, output);
      FreezeUndoesThawIff(output);
      UpdateCanonical(document, field.path, Canon(output));
    }
  }

  lemma StepsCommute(document: Frozen, x: Field, y: Field, rest: seq<Field>)
    requires Canonical(document) && x.path != [] && y.path != [] && !Overlap(x.path, y.path)
    ensures Transform(document, [x, y] + rest) == Transform(document, [y, x] + rest)
  {
    assert ([x, y] + rest)[1..] == [y] + rest && ([y, x] + rest)[1..] == [x] + rest;
    assert ([y] + rest)[1..] == rest && ([x] + rest)[1..] == rest;
    StepIsUpdate(document, x);
    StepIsUpdate(document, y);
    assert !Overlap(y.path, x.path);
    if Applied(document, x).Some? {
      StepIsUpdate(Step(document, x).value, y);
      ReadOther(document, x.path, Applied(document, x).value, y.path);
    }
    if Applied(document, y).Some? {
      StepIsUpdate(Step(document, y).value, x);
      ReadOther(document, y.path, Applied(document, y).value, x.path);
    }
    if Applied(document, x).Some? && Applied(document, y).Some? {
      UpdatesCommute(document, x.path, Applied(document, x).value, y.path, Applied(document, y).value);
    }
  }

  lemma {:induction false} MoveToFront(document: Frozen, a: seq<Field>, x: Field, b: seq<Field>)
    requires Canonical(document) && Resolved(a + [x] + b)
    ensures Transform(document, a + [x] + b) == Transform(document, [x] + a + b)
    decreases |a|
  {
    if a == [] {
      assert a + [x] + b == [x] + a + b;
    } else {
      var y, a' := a[0], a[1..];
      var all := a + [x] + b;
      Around(a, x, b);
      StepIsUpdate(document, y);
      if Step(document, y).Some? {
        ResolvedTail(all);
        MoveToFront(Step(document, y).value, a', x, b);
      }
      StepsCommute(document, y, x, a' + b);
    }
  }

  lemma Around(a: seq<Field>, x: Field, b: seq<Field>)
    requires a != []
    ensures var y, a' := a[0], a[1..]; var all := a + [x] + b;
            && all[0] == y && all[1..] == a' + [x] + b && all[|a|] == x
            && ([y, x] + (a' + b))[0] == y && ([y, x] + (a' + b))[1..] == [x] + a' + b
            && [x] + a + b == [x, y] + (a' + b)
  {
  }

  lemma ResolvedTail(fields: seq<Field>)
    requires Resolved(fields) && fields != []
    ensures Resolved(fields[1..])
  {
  }

  lemma ResolvedIgnoresOrder(fields: seq<Field>, fields': seq<Field>)
    requires Resolved(fields) && multiset(fields) == multiset(fields')
    ensures Resolved(fields')
  {
    assert forall f :: f in fields ==> Overlap(f.path, f.path);
    forall i, j | 0 <= i < j < |fields| ensures fields[i] != fields[j] {
    }
    DistinctFromMultiset(fields, fields');
    forall i | 0 <= i < |fields'| ensures fields'[i] in fields {
      assert fields'[i] in multiset(fields');
    }
    forall i, j | 0 <= i < j < |fields'| ensures !Overlap(fields'[i].path, fields'[j].path) {
      var m :| 0 <= m < |fields| && fields[m] == fields'[i];
      var n :| 0 <= n < |fields| && fields[n] == fields'[j];
      assert m != n;
    }
  }

  /** The order of the fields decides neither whether a document can be transformed nor the result. */
  lemma {:induction false} FieldOrderIrrelevant(document: Frozen, fields: seq<Field>, fields': seq<Field>)
    requires Canonical(document) && Resolved(fields) && multiset(fields) == multiset(fields')
    ensures Transform(document, fields) == Transform(document, fields')
    decreases |fields|
  {
    if fields == [] {
      assert |multiset(fields')| == 0;
    } else {
      var x, rest := fields[0], fields[1..];
      var a, b := TakeHeadOut(fields, fields');
      ResolvedIgnoresOrder(fields, fields');
      MoveToFront(document, a, x, b);
      FirstField(document, x, a, b);
      assert [x] + [] + rest == fields && [] + rest == rest;
      FirstField(document, x, [], rest);
      StepIsUpdate(document, x);
      if Step(document, x).Some? {
        ResolvedTail(fields);
        FieldOrderIrrelevant(Step(document, x).value, rest, a + b);
      }
    }
  }

  lemma FirstField(document: Frozen, x: Field, a: seq<Field>, b: seq<Field>)
    ensures Transform(document, [x] + a + b)
         == (var next := Step(document, x); if next.None? then None else Transform(next.value, a + b))
  {
    assert ([x] + a + b)[0] == x && ([x] + a + b)[1..] == a + b;
  }

  // ----- Round trip

  /** `inbound` decrypts at the paths `outbound` encrypts at. */
  ghost predicate Paired(outbound: seq<Field>, inbound: seq<Field>) {
    |outbound| == |inbound| && forall i :: 0 <= i < |outbound| ==> outbound[i].path == inbound[i].path
  }

  /** Decrypting the frozen ciphertext of this value gives the value back. */
  predicate Restores(document: Frozen, out: Field, back: Field)
    requires Read(document, out.path).Some?
  {
    var value := Read(document, out.path).value;
    var cipher := out.apply(value);
    cipher.Some? && back.apply(Canon(cipher.value)).Some? && Canon(back.apply(Canon(cipher.value)).value) == value
  }

  lemma {:induction false} TransformKeeps(document: Frozen, fields: seq<Field>, path: Path)
    requires Canonical(document) && Resolved(fields) && Transform(document, fields).Some?
    ensures Canonical(Transform(document, fields).value)
    ensures (forall i :: 0 <= i < |fields| ==> !Overlap(fields[i].path, path))
        ==> Read(Transform(document, fields).value, path) == Read(document, path)
    decreases |fields|
  {
    if fields != [] {
      var x := fields[0];
      StepIsUpdate(document, x);
      ResolvedTail(fields);
      TransformKeeps(Step(document, x).value, fields[1..], path);
      if !Overlap(x.path, path) {
        ReadOther(document, x.path, Applied(document, x).value, path);
      }
    }
  }

  /** After all fields, each path holds what its own field made of the original value. */
  lemma {:induction false} TransformReads(document: Frozen, fields: seq<Field>, i: nat)
    requires Canonical(document) && Resolved(fields) && Transform(document, fields).Some? && i < |fields|
    ensures Applied(document, fields[i]).Some?
    ensures Read(Transform(document, fields).value, fields[i].path) == Applied(document, fields[i])
    decreases |fields|
  {
    var x, rest := fields[0], fields[1..];
    var next := Step(document, x).value;
    StepIsUpdate(document, x);
    ResolvedTail(fields);
    if i == 0 {
      ReadUpdate(document, x.path, Applied(document, x).value);
      forall k | 0 <= k < |rest| ensures !Overlap(rest[k].path, x.path) {
        assert rest[k] == fields[k + 1] && !Overlap(x.path, rest[k].path);
      }
      TransformKeeps(next, rest, x.path);
    } else {
      TransformReads(next, rest, i - 1);
      ReadOther(document, x.path, Applied(document, x).value, fields[i].path);
    }
  }

  lemma {:induction false} TransformSnoc(document: Frozen, fields: seq<Field>, last: Field)
    ensures Transform(document, fields + [last])
         == (var r := Transform(document, fields); if r.None? then None else Step(r.value, last))
    decreases |fields|
  {
    if fields == [] {
      assert fields + [last] == [last] && [last][1..] == [];
    } else {
      assert (fields + [last])[1..] == fields[1..] + [last];
      if Step(document, fields[0]).Some? {
        TransformSnoc(Step(document, fields[0]).value, fields[1..], last);
      }
    }
  }

  lemma {:induction false} RestoredFields(document: Frozen, outbound: seq<Field>, inbound: seq<Field>)
    requires Canonical(document) && Resolved(outbound) && Paired(outbound, inbound)
    requires Transform(document, outbound).Some?
    requires forall i :: 0 <= i < |outbound| ==>
               Read(document, outbound[i].path).Some? && Restores(document, outbound[i], inbound[i])
    ensures Transform(Transform(document, outbound).value, inbound) == Some(document)
    decreases |outbound|
  {
    if outbound == [] {
      assert inbound == [];
    } else {
      var out, back := outbound[0], inbound[0];
      var outs, backs := outbound[1..], inbound[1..];
      var next := Step(document, out).value;
      var cipher := Transform(document, outbound).value;
      StepIsUpdate(document, out);
      ResolvedTail(outbound);
      OthersUnread(document, outbound);
      RestoredFields(next, outs, backs);
      TransformReads(document, outbound, 0);
      TransformKeeps(document, outbound, []);
      assert Resolved(inbound);
      assert multiset(inbound) == multiset(backs + [back]) by { assert inbound == [back] + backs; }
      FieldOrderIrrelevant(cipher, inbound, backs + [back]);
      TransformSnoc(cipher, backs, back);
      StepBack(document, out, back);
    }
  }

  /** The first field's write leaves what the others read. */
  lemma OthersUnread(document: Frozen, fields: seq<Field>)
    requires Canonical(document) && Resolved(fields) && fields != [] && Step(document, fields[0]).Some?
    ensures forall i :: 0 <= i < |fields[1..]| ==>
      Read(Step(document, fields[0]).value, fields[1..][i].path) == Read(document, fields[1..][i].path)
  {
    StepIsUpdate(document, fields[0]);
    forall i | 0 <= i < |fields[1..]|
      ensures Read(Step(document, fields[0]).value, fields[1..][i].path) == Read(document, fields[1..][i].path)
    {
      assert fields[1..][i] == fields[i + 1];
      ReadOther(document, fields[0].path, Applied(document, fields[0]).value, fields[i + 1].path);
    }
  }

  /** One field: encrypted, and decrypted again with nothing else changed. */
  lemma StepBack(document: Frozen, out: Field, back: Field)
    requires Canonical(document) && out.path != [] && out.path == back.path
    requires Step(document, out).Some? && Read(document, out.path).Some? && Restores(document, out, back)
    ensures Step(Step(document, out).value, back) == Some(document)
  {
    StepIsUpdate(document, out);
    var next := Step(document, out).value;
    ReadUpdate(document, out.path, Applied(document, out).value);
    StepIsUpdate(next, back);
    UpdateBack(document, out.path, Applied(document, out).value);
  }

  /** Decrypting an encrypted document gives the document back exactly when each field's decryption undoes
      its encryption of that field's value, as frozen in between. */
  lemma RoundTripIff(document: Frozen, outbound: seq<Field>, inbound: seq<Field>)
    requires Canonical(document) && Resolved(outbound) && Paired(outbound, inbound)
    requires Transform(document, outbound).Some?
    ensures forall i :: 0 <= i < |outbound| ==> Read(document, outbound[i].path).Some?
    ensures Transform(Transform(document, outbound).value, inbound) == Some(document)
       <==> forall i :: 0 <= i < |outbound| ==> Restores(document, outbound[i], inbound[i])
  {
    var cipher := Transform(document, outbound).value;
    forall i | 0 <= i < |outbound|
      ensures Read(document, outbound[i].path).Some?
      ensures Transform(cipher, inbound) == Some(document) ==> Restores(document, outbound[i], inbound[i])
    {
      TransformReads(document, outbound, i);
      if Transform(cipher, inbound) == Some(document) {
        assert Resolved(inbound);
        TransformKeeps(document, outbound, []);
        TransformReads(cipher, inbound, i);
      }
    }
    if forall i :: 0 <= i < |outbound| ==> Restores(document, outbound[i], inbound[i]) {
      RestoredFields(document, outbound, inbound);
    }
  }

  /** Inverse algorithms restore every document whose ciphertexts are frozen canonically. */
  lemma InverseAlgorithmsRoundTrip(document: Frozen, outbound: seq<Field>, inbound: seq<Field>)
    requires Canonical(document) && Resolved(outbound) && Paired(outbound, inbound)
    requires Transform(document, outbound).Some?
    requires forall i, x :: 0 <= i < |outbound| && outbound[i].apply(x).Some? ==>
      Canonical(outbound[i].apply(x).value) && inbound[i].apply(outbound[i].apply(x).value) == Some(x)
    ensures Transform(Transform(document, outbound).value, inbound) == Some(document)
  {
    RoundTripIff(document, outbound, inbound);
    forall i | 0 <= i < |outbound| ensures Restores(document, outbound[i], inbound[i]) {
      TransformReads(document, outbound, i);
      var value := Read(document, outbound[i].path).value;
      ReadCanonical(document, outbound[i].path);
      FreezeUndoesThawIff(outbound[i].apply(value).value);
      FreezeUndoesThawIff(value);
    }
  }

  function Wrap(x: Frozen): Option<Frozen> {
    Some(FObject([Member("b", x), Member("a", Leaf(0))]))
  }

  function Unwrap(y: Frozen): Option<Frozen> {
    if y.FObject? && |y.members| == 2 && y.members[0].name == "b" then Some(y.members[0].value) else None
  }

  /** Inverse algorithms are not enough: `Unwrap` undoes `Wrap`, whose ciphertext lists its members out of
      order, but refuses what the write has sorted, whatever the value. */
  lemma UnsortedCiphertextIsLost(value: Frozen)
    requires Canonical(value)
    ensures forall x :: Wrap(x).Some? && Unwrap(Wrap(x).value) == Some(x)
    ensures var path := [Name("secret")];
            var document := FObject([Member("secret", value)]);
            var cipher := Transform(document, [Field(path, Wrap)]);
            && Canonical(document) && cipher.Some?
            && Transform(cipher.value, [Field(path, Unwrap)]) == None
  {
    var path := [Name("secret")];
    var document := FObject([Member("secret", value)]);
    SecretDocument(value);
    ReadSecret(document, path, value);
    PairIsSorted(value);
    OneFieldRefused(document, Field(path, Wrap), Field(path, Unwrap));
  }

  lemma SecretDocument(value: Frozen)
    requires Canonical(value)
    ensures var document := FObject([Member("secret", value)]);
            Canonical(document) && Child(document, Name("secret")) == Some(value)
  {
    assert Names([Member("secret", value)]) == ["secret"];
  }

  lemma OneFieldRefused(document: Frozen, out: Field, back: Field)
    requires Canonical(document) && out.path != [] && out.path == back.path
    requires Applied(document, out).Some? && back.apply(Applied(document, out).value).None?
    ensures Transform(document, [out]).Some? && Transform(Transform(document, [out]).value, [back]) == None
  {
    StepIsUpdate(document, out);
    OneField(document, out);
    var cipher := Step(document, out).value;
    ReadUpdate(document, out.path, Applied(document, out).value);
    StepIsUpdate(cipher, back);
    OneField(cipher, back);
  }

  lemma ReadSecret(document: Frozen, path: Path, value: Frozen)
    requires |path| == 1 && Child(document, path[0]) == Some(value)
    ensures Read(document, path) == Some(value)
  {
    assert path[1..] == [];
  }

  lemma OneField(document: Frozen, field: Field)
    ensures Transform(document, [field]) == Step(document, field)
  {
    assert [field][1..] == [];
  }

  lemma ThawedPair(value: Frozen)
    ensures Thaw(Wrap(value).value) == Dict([Entry("b", Thaw(value)), Entry("a", RawLeaf(0))])
  {
    var entries := ThawMembers(Wrap(value).value.members);
    assert entries == [Entry("b", Thaw(value)), Entry("a", RawLeaf(0))];
    assert [] + entries == entries && EntryNames(entries) == ["b", "a"];
    AssignAllDistinct([], entries);
  }

  lemma PairIsSorted(value: Frozen)
    ensures Unwrap(Canon(Wrap(value).value)) == None
  {
    ThawedPair(value);
    var members := FreezeMembers([Entry("b", Thaw(value)), Entry("a", RawLeaf(0))]);
    assert members == [Member("b", Canon(value)), Member("a", Leaf(0))];
    SortTwo(members[0], members[1]);
  }

  lemma SortTwo(x: Member, y: Member)
    requires !NameLe(x, y)
    ensures Sort([x, y], NameLe) == [y, x]
  {
    assert [x, y][1..] == [y] && [y][1..] == [];
    assert Sort([y], NameLe) == [y];
    assert Insert(x, [y], NameLe) == [y] + Insert(x, [], NameLe);
  }
}
