// Slots and offsets of state variables (slither/core/compilation_unit.py),
// against the rules of the Solidity documentation section "Layout of State
// Variables in Storage and Transient Storage".
module StorageLayout {

  const SLOT_BYTES := 32

  // `newSlot` variables start a slot and fill whole slots; the others are
  // packed and take 1 to 32 bytes.
  datatype StateVar = StateVar(name: string, size: nat, newSlot: bool)
  datatype Position = Position(slot: nat, offset: nat)

  type Layout = map<string, Position>

  ghost predicate ValidVar(v: StateVar) {
    !v.newSlot ==> 1 <= v.size <= SLOT_BYTES
  }

  ghost predicate ValidVars(vars: seq<StateVar>) {
    && (forall i :: 0 <= i < |vars| ==> ValidVar(vars[i]))
    && (forall i, j :: 0 <= i < j < |vars| ==> vars[i].name != vars[j].name)
  }

  // math.ceil(size / 32)
  function SlotsFor(size: nat): (k: nat)
    ensures size <= SLOT_BYTES * k < size + SLOT_BYTES
  {
    (size + SLOT_BYTES - 1) / SLOT_BYTES
  }

  // ---------------------------------------------------------------------
  // The rules
  // ---------------------------------------------------------------------

  function Address(p: Position): nat { SLOT_BYTES * p.slot + p.offset }

  // Bytes a variable claims: whole slots, or exactly its size.
  function Extent(v: StateVar): nat { if v.newSlot then SLOT_BYTES * SlotsFor(v.size) else v.size }

  // A packed variable lies within one slot; the others start a slot.
  ghost predicate Fits(v: StateVar, address: nat) {
    if v.newSlot then address % SLOT_BYTES == 0 else address % SLOT_BYTES + v.size <= SLOT_BYTES
  }

  ghost function EndOf(vars: seq<StateVar>, at: seq<Position>, i: nat): nat
    requires i <= |vars| && |at| == |vars|
  {
    if i == 0 then 0 else Address(at[i - 1]) + Extent(vars[i - 1])
  }

  // Each variable takes the first place after its predecessor where it fits.
  ghost predicate FollowsRules(vars: seq<StateVar>, at: seq<Position>) {
    && |at| == |vars|
    && forall i :: 0 <= i < |vars| ==>
         && at[i].offset < SLOT_BYTES
         && FirstFit(vars[i], EndOf(vars, at, i), Address(at[i]))
  }

  ghost predicate FirstFit(v: StateVar, from: nat, address: nat) {
    from <= address && Fits(v, address) && forall a :: from <= a < address ==> !Fits(v, a)
  }

  // The rules leave no choice.
  lemma {:induction false} RulesDetermineLayout(vars: seq<StateVar>, at: seq<Position>, at': seq<Position>, i: nat)
    requires FollowsRules(vars, at) && FollowsRules(vars, at') && i < |vars|
    ensures at[i] == at'[i]
  {
    hide FirstFit;
    hide Extent;
    hide Address;
    if i > 0 { RulesDetermineLayout(vars, at, at', i - 1); }
    FirstFitIsUnique(vars[i], EndOf(vars, at, i), at[i], at'[i]);
  }

  lemma FirstFitIsUnique(v: StateVar, from: nat, p: Position, q: Position)
    requires p.offset < SLOT_BYTES && FirstFit(v, from, Address(p))
    requires q.offset < SLOT_BYTES && FirstFit(v, from, Address(q))
    ensures p == q
  {
    hide Fits;
    assert Address(p) == Address(q);
  }

  // Byte ranges come in order and do not overlap.
  lemma {:induction false} RangesAreDisjoint(vars: seq<StateVar>, at: seq<Position>, i: nat, j: nat)
    requires FollowsRules(vars, at) && i < j < |vars|
    ensures Address(at[i]) + Extent(vars[i]) <= Address(at[j])
    decreases j
  {
    hide Fits;
    hide Extent;
    hide Address;
    assert FirstFit(vars[j], EndOf(vars, at, j), Address(at[j]));
    if i < j - 1 {
      RangesAreDisjoint(vars, at, i, j - 1);
      assert FirstFit(vars[j - 1], EndOf(vars, at, j - 1), Address(at[j - 1]));
    }
  }

  // No variable shares a slot with one that starts a new slot.
  lemma NewSlotSharesNothing(vars: seq<StateVar>, at: seq<Position>, i: nat, j: nat)
    requires FollowsRules(vars, at) && i < |vars| && j < |vars| && i != j && vars[i].newSlot && ValidVar(vars[j])
    ensures at[i].offset == 0
    ensures j < i ==> Address(at[j]) + Extent(vars[j]) <= SLOT_BYTES * at[i].slot
    ensures j > i ==> at[i].slot + SlotsFor(vars[i].size) <= at[j].slot
    ensures !vars[j].newSlot ==> at[j].offset + vars[j].size <= SLOT_BYTES
  {
    hide EndOf;
    hide SlotsFor;
    assert FirstFit(vars[i], EndOf(vars, at, i), Address(at[i]));
    assert FirstFit(vars[j], EndOf(vars, at, j), Address(at[j]));
    if j < i { RangesAreDisjoint(vars, at, j, i); } else { RangesAreDisjoint(vars, at, i, j); }
  }

  // Appending variables moves none of the earlier ones.
  lemma PrefixKeepsRules(vars: seq<StateVar>, at: seq<Position>, n: nat)
    requires FollowsRules(vars, at) && n <= |vars|
    ensures FollowsRules(vars[..n], at[..n])
  {
  }

  lemma AppendingMovesNothing(vars: seq<StateVar>, more: seq<StateVar>, at: seq<Position>, at': seq<Position>, i: nat)
    requires FollowsRules(vars, at) && FollowsRules(vars + more, at') && i < |vars|
    ensures at[i] == at'[i]
  {
    PrefixKeepsRules(vars + more, at', |vars|);
    assert (vars + more)[..|vars|] == vars;
    RulesDetermineLayout(vars, at, at'[..|vars|], i);
  }

  // ---------------------------------------------------------------------
  // The allocator
  // ---------------------------------------------------------------------

  ghost predicate Records(vars: seq<StateVar>, layout: Layout, at: seq<Position>) {
    && |at| == |vars|
    && layout.Keys == (set i | 0 <= i < |vars| :: vars[i].name)
    && forall i :: 0 <= i < |vars| ==> vars[i].name in layout && layout[vars[i].name] == at[i]
  }

  // Where the loop stands: everything before the next variable ends here.
  ghost predicate Cursor(slot: nat, offset: nat, end: nat) {
    SLOT_BYTES * slot + offset == end && offset <= SLOT_BYTES
  }

  // One turn of the loop finds the first fit.
  lemma PlacedFirst(v: StateVar, slot: nat, offset: nat, slot': nat, offset': nat, end: nat)
    requires ValidVar(v) && Cursor(slot, offset, end)
    requires if (if v.newSlot then offset > 0 else v.size + offset > SLOT_BYTES)
             then slot' == slot + 1 && offset' == 0
             else slot' == slot && offset' == offset
    ensures offset' < SLOT_BYTES && FirstFit(v, end, Address(Position(slot', offset')))
    ensures Cursor(if v.newSlot then slot' + SlotsFor(v.size) else slot',
                   if v.newSlot then offset' else offset' + v.size,
                   Address(Position(slot', offset')) + Extent(v))
  {
  }

  lemma CursorStarts()
    ensures Cursor(0, 0, 0)
  {
  }

  lemma RulesStart()
    ensures FollowsRules([], []) && Records([], map[], []) && EndOf([], [], 0) == 0
  {
  }

  ghost predicate NewName(vars: seq<StateVar>, v: StateVar) {
    forall i :: 0 <= i < |vars| ==> vars[i].name != v.name
  }

  lemma ValidAt(vars: seq<StateVar>, i: nat)
    requires ValidVars(vars) && i < |vars|
    ensures ValidVar(vars[i]) && NewName(vars[..i], vars[i])
  {
  }

  lemma RecordsExtend(vars: seq<StateVar>, layout: Layout, at: seq<Position>, v: StateVar, p: Position)
    requires Records(vars, layout, at) && NewName(vars, v)
    ensures Records(vars + [v], layout[v.name := p], at + [p])
  {
    var vars' := vars + [v];
    assert forall i :: 0 <= i < |vars| ==> vars'[i] == vars[i];
    assert vars'[|vars|] == v;
  }

  // The body of the loop: where v goes, and slot and offset afterwards.
  method PlaceNext(v: StateVar, slot: nat, offset: nat, ghost end: nat) returns (p: Position, slot': nat, offset': nat)
    requires ValidVar(v) && Cursor(slot, offset, end)
    ensures p.offset < SLOT_BYTES && FirstFit(v, end, Address(p))
    ensures Cursor(slot', offset', Address(p) + Extent(v))
  {
    slot', offset' := slot, offset;
    if v.newSlot {
      if offset > 0 {
        slot' := slot + 1;
        offset' := 0;
      }
    } else if v.size + offset > SLOT_BYTES {
      slot' := slot + 1;
      offset' := 0;
    }
    PlacedFirst(v, slot, offset, slot', offset', end);
    p := Position(slot', offset');
    if v.newSlot {
      slot' := slot' + SlotsFor(v.size);
    } else {
      offset' := offset' + v.size;
    }
  }

  // The loop, filling the dictionary of one contract.
  method AssignPositions(vars: seq<StateVar>) returns (layout: Layout)
    requires ValidVars(vars)
    ensures exists at :: FollowsRules(vars, at) && Records(vars, layout, at)
  {
    hide FollowsRules;
    hide Records;
    hide FirstFit;
    hide EndOf;
    hide Address;
    hide Extent;
    hide SlotsFor;
    hide Cursor;
    hide ValidVars;
    hide NewName;
    RulesStart();
    CursorStarts();
    assert vars[..0] == [];
    layout := map[];
    ghost var at: seq<Position> := [];
    var slot: nat, offset: nat := 0, 0;
    for i := 0 to |vars|
      invariant |at| == i
      invariant FollowsRules(vars[..i], at) && Records(vars[..i], layout, at)
      invariant Cursor(slot, offset, EndOf(vars[..i], at, i))
    {
      var v := vars[i];
      ghost var before, end := vars[..i], EndOf(vars[..i], at, i);
      ValidAt(vars, i);
      var p;
      p, slot, offset := PlaceNext(v, slot, offset, end);
      RulesExtend(before, at, v, p);
      RecordsExtend(before, layout, at, v, p);
      assert vars[..i + 1] == before + [v];
      layout := layout[v.name := p];
      at := at + [p];
    }
    assert vars[..|vars|] == vars;
  }

  class CompilationUnit {
    var persistent: map<string, Layout>
    var transient: map<string, Layout>

    // Replaces the contract's layout in one table and leaves the other alone.
    method ComputeStorageLayout(contract: string, vars: seq<StateVar>, isTransient: bool)
      requires ValidVars(vars)
      modifies this
      ensures contract in (if isTransient then transient else persistent)
      ensures var layout := (if isTransient then transient else persistent)[contract];
              && (exists at :: FollowsRules(vars, at) && Records(vars, layout, at))
              && persistent == (if isTransient then old(persistent) else old(persistent)[contract := layout])
              && transient == (if isTransient then old(transient)[contract := layout] else old(transient))
    {
      hide FollowsRules;
      hide Records;
      var layout := AssignPositions(vars);
      if isTransient {
        transient := transient[contract := layout];
      } else {
        persistent := persistent[contract := layout];
      }
    }
  }

  lemma RulesExtend(vars: seq<StateVar>, at: seq<Position>, v: StateVar, p: Position)
    requires FollowsRules(vars, at) && p.offset < SLOT_BYTES
    requires FirstFit(v, EndOf(vars, at, |vars|), Address(p))
    ensures FollowsRules(vars + [v], at + [p])
    ensures EndOf(vars + [v], at + [p], |vars| + 1) == Address(p) + Extent(v)
  {
    var vars', at' := vars + [v], at + [p];
    forall i | 0 <= i < |vars'|
      ensures FirstFit(vars'[i], EndOf(vars', at', i), Address(at'[i])) && at'[i].offset < SLOT_BYTES
    {
      assert EndOf(vars', at', i) == EndOf(vars, at, i);
    }
  }

  // ---------------------------------------------------------------------
  // Fixed-size arrays
  // ---------------------------------------------------------------------

  // slither/core/solidity_types/array_type.py: element size times length, in bytes
  function ArraySlots(elementSize: nat, length: nat): nat { SlotsFor(elementSize * length) }

  // The documentation: elements are packed, none straddles a slot.
  function DocumentedArraySlots(elementSize: nat, length: nat): nat
    requires 1 <= elementSize <= SLOT_BYTES
  {
    var perSlot := SLOT_BYTES / elementSize;
    (length + perSlot - 1) / perSlot
  }

  // Three addresses take three slots; the byte count gives two.
  lemma AddressArrayIsShort()
    ensures ArraySlots(20, 3) == 2 && DocumentedArraySlots(20, 3) == 3
  {
  }

  lemma QuotientPlusOne(a: nat, p: nat)
    requires p > 0
    ensures (a + p) / p == a / p + 1
  {
    var q, r := a / p, a % p;
    assert a + p == (q + 1) * p + r;
    QuotientIs(a + p, p, q + 1, r);
  }

  lemma QuotientIs(a: nat, p: nat, q: nat, r: nat)
    requires p > 0 && a == q * p + r && r < p
    ensures a / p == q
  {
    assert a == p * (a / p) + a % p;
    if q < a / p {
      MultiplyBoth(p, q + 1, a / p);
      assert false;
    }
    if a / p < q {
      MultiplyBoth(p, a / p + 1, q);
      assert false;
    }
  }

  // n elements, p to the slot: the last one stands in slot (n - 1) / p.
  lemma DocumentedIsLastPlusOne(elementSize: nat, length: nat)
    requires 1 <= elementSize <= SLOT_BYTES && length > 0
    ensures DocumentedArraySlots(elementSize, length) == (length - 1) / (SLOT_BYTES / elementSize) + 1
  {
    QuotientPlusOne(length - 1, SLOT_BYTES / elementSize);
  }

  // The bytes of the elements, laid end to end, reach into the slot in which
  // the documentation places the last element.
  predicate ReachesLastSlot(elementSize: nat, length: nat)
    requires 1 <= elementSize <= SLOT_BYTES
  {
    length == 0 || SLOT_BYTES * ((length - 1) / (SLOT_BYTES / elementSize)) < elementSize * length
  }

  // The byte count is right for an array if and only if they do.
  lemma ArraySlotsExact(elementSize: nat, length: nat)
    requires 1 <= elementSize <= SLOT_BYTES
    ensures ArraySlots(elementSize, length) == DocumentedArraySlots(elementSize, length)
            <==> ReachesLastSlot(elementSize, length)
    ensures ArraySlots(elementSize, length) <= DocumentedArraySlots(elementSize, length)
  {
    if length > 0 {
      var perSlot, bytes := SLOT_BYTES / elementSize, elementSize * length;
      var last := (length - 1) / perSlot;
      DocumentedIsLastPlusOne(elementSize, length);
      LastSlotIsEnough(elementSize, length);
      assert ArraySlots(elementSize, length) <= last + 1;
      assert ArraySlots(elementSize, length) > last <==> SLOT_BYTES * last < bytes;
    }
  }

  lemma LastSlotIsEnough(elementSize: nat, length: nat)
    requires 1 <= elementSize <= SLOT_BYTES && length > 0
    ensures elementSize * length <= SLOT_BYTES * ((length - 1) / (SLOT_BYTES / elementSize) + 1)
  {
    var p := SLOT_BYTES / elementSize;
    var last := (length - 1) / p;
    assert elementSize * p <= SLOT_BYTES;
    FillsSlots(elementSize, p, length, last);
  }

  lemma FillsSlots(elementSize: nat, p: nat, length: nat, last: nat)
    requires p > 0 && length > 0 && last == (length - 1) / p && elementSize * p <= SLOT_BYTES
    ensures elementSize * length <= SLOT_BYTES * (last + 1)
  {
    var slots := last + 1;
    assert length <= p * slots;
    MultiplyBoth(elementSize, length, p * slots);
    MultiplyBoth(slots, elementSize * p, SLOT_BYTES);
    Regroup(elementSize, p, slots);
  }

  lemma Regroup(a: nat, b: nat, c: nat)
    ensures a * (b * c) == (a * b) * c
  {
  }

  lemma MultiplyBoth(k: nat, x: nat, y: nat)
    requires x <= y
    ensures k * x <= k * y
  {
  }

  // It is right for every length if and only if the element size divides the
  // slot size.
  lemma DivisorsAreExact(elementSize: nat)
    requires 1 <= elementSize <= SLOT_BYTES
    ensures (forall length: nat :: ReachesLastSlot(elementSize, length)) <==> SLOT_BYTES % elementSize == 0
  {
    if SLOT_BYTES % elementSize == 0 {
      forall length: nat
        ensures ReachesLastSlot(elementSize, length)
      {
        if length > 0 { DivisorReaches(elementSize, length); }
      }
    } else {
      assert !ReachesLastSlot(elementSize, SLOT_BYTES * (SLOT_BYTES / elementSize)) by { OthersFallShort(elementSize); }
    }
  }

  lemma DivisorReaches(elementSize: nat, length: nat)
    requires 1 <= elementSize <= SLOT_BYTES && SLOT_BYTES % elementSize == 0 && length > 0
    ensures ReachesLastSlot(elementSize, length)
  {
    var perSlot := SLOT_BYTES / elementSize;
    var last := (length - 1) / perSlot;
    assert perSlot * last <= length - 1;
    MultiplyBoth(elementSize, perSlot * last, length - 1);
    Regroup(elementSize, perSlot, last);
    assert elementSize * perSlot == SLOT_BYTES;
  }

  lemma OthersFallShort(elementSize: nat)
    requires 1 <= elementSize <= SLOT_BYTES && SLOT_BYTES % elementSize != 0
    ensures !ReachesLastSlot(elementSize, SLOT_BYTES * (SLOT_BYTES / elementSize))
  {
    var perSlot := SLOT_BYTES / elementSize;
    var length := SLOT_BYTES * perSlot;
    assert elementSize * perSlot < SLOT_BYTES;
    MultiplyBoth(SLOT_BYTES, elementSize * perSlot, SLOT_BYTES - 1);
    assert elementSize * length == SLOT_BYTES * (elementSize * perSlot);
    QuotientIs(length - 1, perSlot, SLOT_BYTES - 1, perSlot - 1);
  }
}
