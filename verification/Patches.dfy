/** Atomic patches over the values of an operation. */
module Patches {
  import opened Ordering
  import opened Slots

  datatype Conflict = ERROR | REPLACE_LOWER_PRIORITY | PRESERVE_EXISTING

  datatype PatchOp =
    | Set(slot: ValueSlot, value: Raw, conflict: Conflict)
    | Append(slot: ValueSlot, value: Raw, conflict: Conflict)
    | ReplaceAll(slot: ValueSlot, values: seq<Raw>, conflict: Conflict)

  datatype PatchError = UnknownSlot | MultipleWrites | NotMultiValue | InvalidGroup | InvalidValue

  datatype Result<+T> = Ok(value: T) | Err(error: PatchError)

  /** One cell per slot of the shape; `None` is the missing marker. */
  type Cells = seq<Option<Raw>>

  datatype OperationValues = OperationValues(slots: seq<ValueSlot>, cells: Cells) {
    ghost predicate Valid() {
      Distinct(slots) && |cells| == |slots|
    }
  }

  function ValidateAll(slot: ValueSlot, values: seq<Raw>): Option<seq<Raw>> {
    if values == [] then Some([])
    else
      var first, rest := slot.validate(values[0]), ValidateAll(slot, values[1..]);
      if first.None? || rest.None? then None else Some([first.value] + rest.value)
  }

  /** What one operation makes of the cell it writes. */
  function Effect(op: PatchOp, cell: Option<Raw>): Result<Option<Raw>> {
    if op.conflict == PRESERVE_EXISTING && cell.Some? then Ok(cell)
    else match op
      case Set(slot, value, _) =>
        var item := slot.validate(value);
        if item.None? then Err(InvalidValue) else Ok(item)
      case Append(slot, value, _) =>
        if !slot.many then Err(NotMultiValue)
        else
          var item := slot.validate(value);
          if item.None? then Err(InvalidValue)
          else if cell.None? then Ok(Some(Tuple([item.value])))
          else if cell.value.Tuple? then Ok(Some(Tuple(cell.value.items + [item.value])))
          else Err(InvalidGroup)
      case ReplaceAll(slot, values, _) =>
        if !slot.many then Err(NotMultiValue)
        else
          var items := ValidateAll(slot, values);
          if items.None? then Err(InvalidValue) else Ok(Some(Tuple(items.value)))
  }

  /** The fold of a patch over a candidate list, where `written` are the slots written so far. */
  function Fold(slots: seq<ValueSlot>, cells: Cells, written: set<ValueSlot>, ops: seq<PatchOp>): (r: Result<Cells>)
    requires |cells| == |slots|
    ensures r.Ok? ==> |r.value| == |slots|
    decreases |ops|
  {
    if ops == [] then Ok(cells)
    else
      var op := ops[0];
      if op.slot !in slots then Err(UnknownSlot)
      else if op.slot in written && op.conflict == ERROR then Err(MultipleWrites)
      else
        var i := IndexOf(slots, op.slot);
        var cell := Effect(op, cells[i]);
        if cell.Err? then Err(cell.error)
        else Fold(slots, cells[i := cell.value], written + {op.slot}, ops[1..])
  }

  /** Validates the whole patch before anything is committed. */
  method ApplyPatchAtomic(values: OperationValues, ops: seq<PatchOp>) returns (r: Result<OperationValues>)
    requires values.Valid()
    ensures r.Ok? <==> Fold(values.slots, values.cells, {}, ops).Ok?
    ensures r.Err? ==> Fold(values.slots, values.cells, {}, ops) == Err(r.error)
    ensures r.Ok? ==> r.value.Valid() && r.value.slots == values.slots
    ensures r.Ok? ==> Fold(values.slots, values.cells, {}, ops) == Ok(r.value.cells)
  {
    var candidate := values.cells;
    var writes: set<ValueSlot> := {};
    var k := 0;
    while k < |ops|
      invariant k <= |ops| && |candidate| == |values.slots|
      invariant Fold(values.slots, values.cells, {}, ops) == Fold(values.slots, candidate, writes, ops[k..])
    {
      var op := ops[k];
      assert ops[k..][0] == op && ops[k..][1..] == ops[k + 1..];
      if op.slot !in values.slots {
        return Err(UnknownSlot);
      }
      if op.slot in writes && op.conflict == ERROR {
        return Err(MultipleWrites);
      }
      writes := writes + {op.slot};
      var index := IndexOf(values.slots, op.slot);
      var cell := Effect(op, candidate[index]);
      if cell.Err? {
        return Err(cell.error);
      }
      candidate := candidate[index := cell.value];
      k := k + 1;
    }
    return Ok(OperationValues(values.slots, candidate));
  }

  // ----- One patch against several

  /** No operation that forbids a second write aims at a slot of `written`. */
  ghost predicate Clear(written: set<ValueSlot>, ops: seq<PatchOp>) {
    forall k :: 0 <= k < |ops| && ops[k].conflict == ERROR ==> ops[k].slot !in written
  }

  ghost function Targets(ops: seq<PatchOp>): set<ValueSlot> {
    set op | op in ops :: op.slot
  }

  /** Slots written before the patch matter only to the operations that forbid a second write. */
  lemma {:induction false} EarlierWrites(slots: seq<ValueSlot>, cells: Cells, earlier: set<ValueSlot>,
                                         written: set<ValueSlot>, ops: seq<PatchOp>)
    requires |cells| == |slots|
    ensures Fold(slots, cells, earlier + written, ops).Ok?
       <==> Fold(slots, cells, written, ops).Ok? && Clear(earlier, ops)
    ensures Fold(slots, cells, earlier + written, ops).Ok?
       ==> Fold(slots, cells, earlier + written, ops) == Fold(slots, cells, written, ops)
    decreases |ops|
  {
    if ops != [] && ops[0].slot in slots {
      var op, rest := ops[0], ops[1..];
      var i := IndexOf(slots, op.slot);
      var cell := Effect(op, cells[i]);
      assert Clear(earlier, ops) <==> (op.conflict == ERROR ==> op.slot !in earlier) && Clear(earlier, rest) by {
        assert ops == [op] + rest;
      }
      if cell.Ok? {
        EarlierWrites(slots, cells[i := cell.value], earlier, written + {op.slot}, rest);
        assert earlier + written + {op.slot} == earlier + (written + {op.slot});
      }
    }
  }

  lemma {:induction false} FoldAppend(slots: seq<ValueSlot>, cells: Cells, written: set<ValueSlot>, p: seq<PatchOp>,
                                      q: seq<PatchOp>)
    requires |cells| == |slots|
    ensures Fold(slots, cells, written, p).Ok?
       ==> Fold(slots, cells, written, p + q)
            == Fold(slots, Fold(slots, cells, written, p).value, written + Targets(p), q)
    ensures Fold(slots, cells, written, p).Err? ==> Fold(slots, cells, written, p + q) == Fold(slots, cells, written, p)
    decreases |p|
  {
    if p == [] {
      assert p + q == q && written + Targets(p) == written;
    } else {
      var op, rest := p[0], p[1..];
      assert (p + q)[0] == op && (p + q)[1..] == rest + q;
      assert Targets(p) == {op.slot} + Targets(rest) by { assert p == [op] + rest; }
      if op.slot in slots && !(op.slot in written && op.conflict == ERROR) {
        var i := IndexOf(slots, op.slot);
        var cell := Effect(op, cells[i]);
        if cell.Ok? {
          FoldAppend(slots, cells[i := cell.value], written + {op.slot}, rest, q);
          assert written + {op.slot} + Targets(rest) == written + Targets(p);
        }
      }
    }
  }

  /** One patch `p + q` succeeds exactly when `p` and then `q` do and `q` does not insist on a first
      write to a slot of `p`; it then leaves the same values. */
  lemma ConcatenatedPatch(values: OperationValues, p: seq<PatchOp>, q: seq<PatchOp>)
    requires values.Valid()
    ensures var first := Fold(values.slots, values.cells, {}, p);
            var both := Fold(values.slots, values.cells, {}, p + q);
            && (both.Ok? <==> first.Ok? && Fold(values.slots, first.value, {}, q).Ok? && Clear(Targets(p), q))
            && (both.Ok? ==> both == Fold(values.slots, first.value, {}, q))
  {
    FoldAppend(values.slots, values.cells, {}, p, q);
    var first := Fold(values.slots, values.cells, {}, p);
    if first.Ok? {
      EarlierWrites(values.slots, first.value, Targets(p), {}, q);
      assert Targets(p) + {} == {} + Targets(p) == Targets(p);
    }
  }

  // ----- Patches that forbid every second write

  ghost predicate AllError(ops: seq<PatchOp>) {
    forall k :: 0 <= k < |ops| ==> ops[k].conflict == ERROR
  }

  /** Each slot is known, written once, not written before, and takes its write. */
  ghost predicate EachFits(slots: seq<ValueSlot>, cells: Cells, written: set<ValueSlot>, ops: seq<PatchOp>)
    requires |cells| == |slots|
  {
    && Distinct(ops)
    && (forall a, b :: a in ops && b in ops && a.slot == b.slot ==> a == b)
    && (forall a :: a in ops ==> a.slot in slots && a.slot !in written && Effect(a, cells[IndexOf(slots, a.slot)]).Ok?)
  }

  /** `after` holds each operation's effect in its own cell and the old values elsewhere. */
  ghost predicate EachDone(slots: seq<ValueSlot>, cells: Cells, ops: seq<PatchOp>, after: Cells)
    requires |cells| == |slots|
  {
    && |after| == |slots|
    && (forall a :: a in ops && a.slot in slots ==>
          Effect(a, cells[IndexOf(slots, a.slot)]) == Ok(after[IndexOf(slots, a.slot)]))
    && (forall i :: 0 <= i < |slots| && (forall a :: a in ops ==> a.slot != slots[i]) ==> after[i] == cells[i])
  }

  lemma {:induction false} ErrorPatch(slots: seq<ValueSlot>, cells: Cells, written: set<ValueSlot>, ops: seq<PatchOp>)
    requires Distinct(slots) && |cells| == |slots| && AllError(ops)
    ensures Fold(slots, cells, written, ops).Ok? <==> EachFits(slots, cells, written, ops)
    ensures Fold(slots, cells, written, ops).Ok? ==> EachDone(slots, cells, ops, Fold(slots, cells, written, ops).value)
    decreases |ops|
  {
    if ops != [] {
      var op, rest := ops[0], ops[1..];
      assert ops == [op] + rest;
      if op.slot in slots && op.slot !in written {
        var i := IndexOf(slots, op.slot);
        var cell := Effect(op, cells[i]);
        if cell.Ok? {
          var cells' := cells[i := cell.value];
          ErrorPatch(slots, cells', written + {op.slot}, rest);
          FitsCons(slots, cells, written, ops, cells');
        }
      }
    }
  }

  lemma FitsCons(slots: seq<ValueSlot>, cells: Cells, written: set<ValueSlot>, ops: seq<PatchOp>, cells': Cells)
    requires Distinct(slots) && |cells| == |slots| && ops != []
    requires ops[0].slot in slots && ops[0].slot !in written
    requires var i := IndexOf(slots, ops[0].slot);
             Effect(ops[0], cells[i]).Ok? && cells' == cells[i := Effect(ops[0], cells[i]).value]
    ensures EachFits(slots, cells, written, ops) <==> EachFits(slots, cells', written + {ops[0].slot}, ops[1..])
  {
    var op, rest := ops[0], ops[1..];
    assert ops == [op] + rest;
    forall a | a in rest && a.slot in slots && a.slot != op.slot
      ensures cells'[IndexOf(slots, a.slot)] == cells[IndexOf(slots, a.slot)]
    {
    }
  }

  /** When every operation forbids a second write, the order of the operations decides neither whether
      the patch succeeds nor what it leaves. */
  lemma ErrorPatchIgnoresOrder(values: OperationValues, ops: seq<PatchOp>, ops': seq<PatchOp>)
    requires values.Valid() && AllError(ops) && multiset(ops) == multiset(ops')
    ensures var r, r' := Fold(values.slots, values.cells, {}, ops), Fold(values.slots, values.cells, {}, ops');
            (r.Ok? <==> r'.Ok?) && (r.Ok? ==> r == r')
  {
    var slots, cells := values.slots, values.cells;
    SameMultisetSameElements(ops, ops');
    forall k | 0 <= k < |ops'| ensures ops'[k].conflict == ERROR {
      assert ops'[k] in ops;
    }
    ErrorPatch(slots, cells, {}, ops);
    ErrorPatch(slots, cells, {}, ops');
    if EachFits(slots, cells, {}, ops) {
      FitsIgnoresOrder(slots, cells, ops, ops');
    } else if EachFits(slots, cells, {}, ops') {
      FitsIgnoresOrder(slots, cells, ops', ops);
    }
    if Fold(slots, cells, {}, ops).Ok? {
      DoneOnce(slots, cells, ops, ops', Fold(slots, cells, {}, ops).value, Fold(slots, cells, {}, ops').value);
    }
  }

  lemma FitsIgnoresOrder(slots: seq<ValueSlot>, cells: Cells, ops: seq<PatchOp>, ops': seq<PatchOp>)
    requires |cells| == |slots| && multiset(ops) == multiset(ops') && EachFits(slots, cells, {}, ops)
    ensures EachFits(slots, cells, {}, ops')
  {
    DistinctFromMultiset(ops, ops');
    SameMultisetSameElements(ops, ops');
  }

  lemma DoneOnce(slots: seq<ValueSlot>, cells: Cells, ops: seq<PatchOp>, ops': seq<PatchOp>, a: Cells, b: Cells)
    requires Distinct(slots) && |cells| == |slots| && multiset(ops) == multiset(ops')
    requires EachDone(slots, cells, ops, a) && EachDone(slots, cells, ops', b)
    ensures a == b
  {
    SameMultisetSameElements(ops, ops');
    forall i | 0 <= i < |slots| ensures a[i] == b[i] {
      if op :| op in ops && op.slot == slots[i] {
        assert op in ops' && IndexOf(slots, op.slot) == i;
      } else {
        assert forall op :: op in ops' ==> op in ops;
      }
    }
  }

  // ----- What operations leave in a cell

  /** `items` are the validated `values`, one for one. */
  ghost predicate Validated(slot: ValueSlot, values: seq<Raw>, items: seq<Raw>) {
    |items| == |values| && forall i :: 0 <= i < |values| ==> slot.validate(values[i]) == Some(items[i])
  }

  lemma {:induction false} ValidatesEach(slot: ValueSlot, values: seq<Raw>)
    ensures var r := ValidateAll(slot, values);
            if r.Some? then Validated(slot, values, r.value)
            else exists i :: 0 <= i < |values| && slot.validate(values[i]) == None
  {
    if values != [] {
      ValidatesEach(slot, values[1..]);
      if ValidateAll(slot, values[1..]).None? {
        var i :| 0 <= i < |values[1..]| && slot.validate(values[1..][i]) == None;
        assert slot.validate(values[i + 1]) == None;
      }
    }
  }

  lemma OneOperation(slots: seq<ValueSlot>, cells: Cells, op: PatchOp)
    requires |cells| == |slots| && op.slot in slots
    ensures var i := IndexOf(slots, op.slot); var cell := Effect(op, cells[i]);
            Fold(slots, cells, {}, [op]) == if cell.Err? then Err(cell.error) else Ok(cells[i := cell.value])
  {
    var i := IndexOf(slots, op.slot);
    if Effect(op, cells[i]).Ok? {
      assert [op][1..] == [];
      assert Fold(slots, cells[i := Effect(op, cells[i]).value], {op.slot}, [])
          == Ok(cells[i := Effect(op, cells[i]).value]);
    }
  }

  /** A patch that keeps what is there changes no cell that holds a value, whatever it would write there. */
  lemma PresentValueIsKept(slots: seq<ValueSlot>, cells: Cells, op: PatchOp)
    requires |cells| == |slots| && op.slot in slots
    requires op.conflict == PRESERVE_EXISTING && cells[IndexOf(slots, op.slot)].Some?
    ensures Fold(slots, cells, {}, [op]) == Ok(cells)
  {
    OneOperation(slots, cells, op);
    assert cells[IndexOf(slots, op.slot) := cells[IndexOf(slots, op.slot)]] == cells;
  }

  /** Any other write stores exactly the validated value, or the validated values in order, or fails: with an invalid
      value, or with a group operation on a slot that holds one value. */
  lemma WritesWhatItValidates(slots: seq<ValueSlot>, cells: Cells, slot: ValueSlot, value: Raw, values: seq<Raw>,
                              conflict: Conflict)
    requires |cells| == |slots| && slot in slots
    requires conflict == PRESERVE_EXISTING ==> cells[IndexOf(slots, slot)].None?
    ensures var i := IndexOf(slots, slot);
            Fold(slots, cells, {}, [Set(slot, value, conflict)])
            == if slot.validate(value).None? then Err(InvalidValue) else Ok(cells[i := slot.validate(value)])
    ensures var r := Fold(slots, cells, {}, [ReplaceAll(slot, values, conflict)]);
            match r
            case Ok(after) =>
              slot.many && exists items :: Validated(slot, values, items)
                                           && after == cells[IndexOf(slots, slot) := Some(Tuple(items))]
            case Err(why) =>
              if !slot.many then why == NotMultiValue
              else why == InvalidValue && exists k :: 0 <= k < |values| && slot.validate(values[k]) == None
  {
    OneOperation(slots, cells, Set(slot, value, conflict));
    OneOperation(slots, cells, ReplaceAll(slot, values, conflict));
    ValidatesEach(slot, values);
  }

  function Appends(slot: ValueSlot, values: seq<Raw>): (r: seq<PatchOp>)
    ensures |r| == |values| && forall i :: 0 <= i < |r| ==> r[i] == Append(slot, values[i], REPLACE_LOWER_PRIORITY)
  {
    seq(|values|, i requires 0 <= i < |values| => Append(slot, values[i], REPLACE_LOWER_PRIORITY))
  }

  /** What a cell holds of a group: nothing yet, or what was stored; `None` when it holds something else. */
  function Group(cell: Option<Raw>): Option<seq<Raw>> {
    match cell
    case None => Some([])
    case Some(Tuple(items)) => Some(items)
    case Some(Atom(_)) => None
  }

  /** Appends leave the stored group followed by the validated values, in the order of the operations. */
  lemma {:induction false} AppendsKeepOrder(slots: seq<ValueSlot>, cells: Cells, written: set<ValueSlot>,
                                            slot: ValueSlot, values: seq<Raw>)
    requires |cells| == |slots| && slot in slots && values != []
    ensures var i := IndexOf(slots, slot);
            match Fold(slots, cells, written, Appends(slot, values))
            case Ok(after) =>
              slot.many && Group(cells[i]).Some? && exists items ::
                Validated(slot, values, items) && after == cells[i := Some(Tuple(Group(cells[i]).value + items))]
            case Err(why) =>
              if !slot.many then why == NotMultiValue
              else if Group(cells[i]).None? then
                why == if slot.validate(values[0]).None? then InvalidValue else InvalidGroup
              else why == InvalidValue && exists k :: 0 <= k < |values| && slot.validate(values[k]) == None
    decreases |values|
  {
    var i, ops := IndexOf(slots, slot), Appends(slot, values);
    var cell := Effect(ops[0], cells[i]);
    if cell.Ok? {
      var cells' := cells[i := cell.value];
      var item := slot.validate(values[0]).value;
      if cells[i].None? {
        assert Group(cell.value) == Some([item]) && [] + [item] == [item];
      }
      assert Group(cell.value) == Some(Group(cells[i]).value + [item]);
      assert ops[1..] == Appends(slot, values[1..]);
      if |values| == 1 {
        assert Fold(slots, cells', written + {slot}, []) == Ok(cells');
        assert Validated(slot, values, [item]);
      } else {
        AppendsKeepOrder(slots, cells', written + {slot}, slot, values[1..]);
        MoreAppended(slots, cells, i, slot, values, item, Fold(slots, cells', written + {slot}, ops[1..]));
      }
    }
  }

  lemma MoreAppended(slots: seq<ValueSlot>, cells: Cells, i: nat, slot: ValueSlot, values: seq<Raw>, item: Raw,
                     r: Result<Cells>)
    requires |cells| == |slots| && i < |slots| && |values| > 1 && slot.validate(values[0]) == Some(item)
    requires Group(cells[i]).Some?
    requires r.Ok? ==> exists rest :: Validated(slot, values[1..], rest)
                                      && r.value == cells[i := Some(Tuple(Group(cells[i]).value + [item] + rest))]
    requires r.Err? ==> exists k :: 0 <= k < |values[1..]| && slot.validate(values[1..][k]) == None
    ensures r.Ok? ==> exists items :: Validated(slot, values, items)
                                      && r.value == cells[i := Some(Tuple(Group(cells[i]).value + items))]
    ensures r.Err? ==> exists k :: 0 <= k < |values| && slot.validate(values[k]) == None
  {
    if r.Ok? {
      var before := Group(cells[i]).value;
      var rest :| Validated(slot, values[1..], rest) && r.value == cells[i := Some(Tuple(before + [item] + rest))];
      assert before + [item] + rest == before + ([item] + rest);
      assert Validated(slot, values, [item] + rest);
    } else {
      var k :| 0 <= k < |values[1..]| && slot.validate(values[1..][k]) == None;
      assert slot.validate(values[k + 1]) == None;
    }
  }
}
