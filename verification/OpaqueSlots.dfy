/** Canonical opaque slots: bounded, uniquely numbered and kept in numeric order. */
module OpaqueSlots {
  import opened Wrappers
  import opened Bytes

  const MAX_SLOT_LEN: nat := 4096
  const MAX_SLOTS: nat := 64
  const MAX_AGGREGATE_LEN: nat := 49152

  datatype OpaqueError = InvalidSlotId | InvalidSlotValue | DuplicateSlot | Bounds

  /** A slot as it travels, before any check. */
  datatype WireSlot = WireSlot(slot: u32, value: seq<byte>)

  datatype SlotData = SlotData(id: u32, value: seq<byte>)

  /** `OpaqueSlot`: its constructors reject everything else. */
  type Slot = s: SlotData | s.id != 0 && 1 <= |s.value| <= MAX_SLOT_LEN witness SlotData(1, [0])

  function NewSlot(wire: WireSlot): Result<Slot, OpaqueError> {
    if wire.slot == 0 then Err(InvalidSlotId)
    else if wire.value == [] || |wire.value| > MAX_SLOT_LEN then Err(InvalidSlotValue)
    else Ok(SlotData(wire.slot, wire.value))
  }

  // ---- order ----

  ghost predicate Sorted(slots: seq<Slot>) {
    forall i, j :: 0 <= i < j < |slots| ==> slots[i].id <= slots[j].id
  }

  ghost predicate DistinctIds(slots: seq<Slot>) {
    forall i, j :: 0 <= i < j < |slots| ==> slots[i].id != slots[j].id
  }

  function Aggregate(slots: seq<Slot>): nat {
    if slots == [] then 0 else |slots[0].value| + Aggregate(slots[1..])
  }

  /** What `OpaqueSlots` holds. */
  ghost predicate Canonical(slots: seq<Slot>) {
    Sorted(slots) && DistinctIds(slots) && |slots| <= MAX_SLOTS && Aggregate(slots) <= MAX_AGGREGATE_LEN
  }

  lemma MembersOfPermutation(a: seq<Slot>, b: seq<Slot>, s: Slot)
    requires multiset(a) == multiset(b)
    ensures s in a <==> s in b
  {
    assert s in a <==> s in multiset(a);
    assert s in b <==> s in multiset(b);
  }

  lemma PermutationSize(a: seq<Slot>, b: seq<Slot>)
    requires multiset(a) == multiset(b)
    ensures |a| == |b|
  {
    assert |multiset(a)| == |a| && |multiset(b)| == |b|;
  }

  /** `s` with the element at `k` taken out. */
  function Without(s: seq<Slot>, k: nat): (r: seq<Slot>)
    requires k < |s|
    ensures multiset(s) == multiset(r) + multiset{s[k]}
  {
    assert s == s[..k] + ([s[k]] + s[k + 1..]);
    s[..k] + s[k + 1..]
  }

  /** Taking one slot out of two permutations leaves permutations. */
  lemma PermutationsWithout(a: seq<Slot>, j: nat, b: seq<Slot>, k: nat)
    requires multiset(a) == multiset(b) && j < |a| && k < |b| && a[j] == b[k]
    ensures multiset(Without(a, j)) == multiset(Without(b, k))
  {
    var x, y := multiset(Without(a, j)), multiset(Without(b, k));
    assert x + multiset{a[j]} == y + multiset{a[j]};
    assert x == (x + multiset{a[j]}) - multiset{a[j]};
    assert y == (y + multiset{a[j]}) - multiset{a[j]};
  }

  lemma {:induction false} AggregateOfConcat(a: seq<Slot>, b: seq<Slot>)
    ensures Aggregate(a + b) == Aggregate(a) + Aggregate(b)
  {
    if a == [] {
      assert a + b == b;
    } else {
      assert (a + b)[1..] == a[1..] + b;
      AggregateOfConcat(a[1..], b);
    }
  }

  /** The aggregate length does not depend on the order. */
  lemma {:induction false} AggregateOfPermutation(a: seq<Slot>, b: seq<Slot>)
    requires multiset(a) == multiset(b)
    ensures Aggregate(a) == Aggregate(b)
    decreases |a|
  {
    PermutationSize(a, b);
    if a != [] {
      MembersOfPermutation(a, b, a[0]);
      var k :| 0 <= k < |b| && b[k] == a[0];
      PermutationsWithout(a, 0, b, k);
      assert Without(a, 0) == a[1..];
      AggregateOfPermutation(a[1..], Without(b, k));
      AggregateOfConcat(b[..k], b[k + 1..]);
      AggregateOfConcat(b[..k], b[k..]);
      assert b[..k] + b[k..] == b && b[k..][1..] == b[k + 1..];
    }
  }

  /** Uniqueness does not depend on the order either. */
  lemma DistinctPermutation(a: seq<Slot>, b: seq<Slot>)
    requires multiset(a) == multiset(b) && DistinctIds(a)
    ensures DistinctIds(b)
  {
    forall i, j | 0 <= i < j < |b| ensures b[i].id != b[j].id {
      if b[i].id == b[j].id {
        MembersOfPermutation(a, b, b[i]);
        MembersOfPermutation(a, b, b[j]);
        assert b[i] in b && b[j] in b;
        var x :| 0 <= x < |a| && a[x] == b[i];
        var y :| 0 <= y < |a| && a[y] == b[j];
        assert x == y;
        OccursOnce(a, x);
        OccursTwice(b, i, j);
        assert false;
      }
    }
  }

  lemma OccursOnce(a: seq<Slot>, k: nat)
    requires k < |a| && DistinctIds(a)
    ensures multiset(a)[a[k]] == 1
  {
    var rest := Without(a, k);
    assert a[k] !in rest;
  }

  lemma OccursTwice(a: seq<Slot>, i: nat, j: nat)
    requires i < j < |a| && a[i] == a[j]
    ensures multiset(a)[a[i]] >= 2
  {
    var rest := Without(a, i);
    assert rest[j - 1] == a[j];
    assert a[j] in multiset(rest);
  }

  lemma SameFirst(a: seq<Slot>, b: seq<Slot>)
    requires multiset(a) == multiset(b) && Sorted(a) && Sorted(b) && DistinctIds(a) && a != [] && b != []
    ensures a[0] == b[0]
  {
    MembersOfPermutation(a, b, a[0]);
    MembersOfPermutation(a, b, b[0]);
    assert a[0] in a && b[0] in b;
    var x :| 0 <= x < |b| && b[x] == a[0];
    var y :| 0 <= y < |a| && a[y] == b[0];
    assert b[0].id <= b[x].id && a[0].id <= a[y].id;
  }

  /** There is one way to put distinct slots in order, so any sorting algorithm gives the same slots. */
  lemma {:induction false} OneOrder(a: seq<Slot>, b: seq<Slot>)
    requires multiset(a) == multiset(b) && Sorted(a) && Sorted(b) && DistinctIds(a)
    ensures a == b
    decreases |a|
  {
    PermutationSize(a, b);
    DistinctPermutation(a, b);
    if a != [] {
      SameFirst(a, b);
      PermutationsWithout(a, 0, b, 0);
      assert Without(a, 0) == a[1..] && Without(b, 0) == b[1..];
      OneOrder(a[1..], b[1..]);
    }
  }

  /** In sorted slots, neighbours with one number are the only way to have one number twice. */
  lemma NeighboursDecide(slots: seq<Slot>)
    requires Sorted(slots)
    ensures DistinctIds(slots) <==> forall i :: 0 <= i < |slots| - 1 ==> slots[i].id != slots[i + 1].id
  {
    if !DistinctIds(slots) {
      var i, j :| 0 <= i < j < |slots| && slots[i].id == slots[j].id;
      assert slots[i].id <= slots[i + 1].id && slots[i + 1].id <= slots[j].id;
    }
  }

  // ---- the collection ----

  function Insert(slot: Slot, sorted: seq<Slot>): (r: seq<Slot>)
    ensures multiset(r) == multiset(sorted) + multiset{slot}
  {
    if sorted == [] then [slot]
    else if slot.id <= sorted[0].id then [slot] + sorted
    else
      assert sorted == [sorted[0]] + sorted[1..];
      [sorted[0]] + Insert(slot, sorted[1..])
  }

  function Sort(slots: seq<Slot>): (r: seq<Slot>)
    ensures multiset(r) == multiset(slots)
  {
    if slots == [] then []
    else
      assert slots == [slots[0]] + slots[1..];
      Insert(slots[0], Sort(slots[1..]))
  }

  lemma {:induction false} InsertKeepsOrder(slot: Slot, sorted: seq<Slot>)
    requires Sorted(sorted)
    ensures Sorted(Insert(slot, sorted))
  {
    if sorted != [] && slot.id > sorted[0].id {
      InsertKeepsOrder(slot, sorted[1..]);
      var rest := Insert(slot, sorted[1..]);
      forall k | 0 <= k < |rest| ensures sorted[0].id <= rest[k].id {
        assert rest[k] in multiset(rest);
        assert rest[k] == slot || rest[k] in multiset(sorted[1..]);
      }
    }
  }

  lemma {:induction false} SortSorts(slots: seq<Slot>)
    ensures Sorted(Sort(slots))
  {
    if slots != [] {
      SortSorts(slots[1..]);
      InsertKeepsOrder(slots[0], Sort(slots[1..]));
    }
  }

  /** `OpaqueSlots::new`, judged on the slots as they are given. */
  ghost function Collection(slots: seq<Slot>): Result<seq<Slot>, OpaqueError> {
    if |slots| > MAX_SLOTS then Err(Bounds)
    else if !DistinctIds(slots) then Err(DuplicateSlot)
    else if Aggregate(slots) > MAX_AGGREGATE_LEN then Err(Bounds)
    else Ok(Sort(slots))
  }

  /** `sort_unstable_by_key`: any order of equal numbers will do. */
  method SortUnstable(slots: seq<Slot>) returns (sorted: seq<Slot>)
    ensures Sorted(sorted) && multiset(sorted) == multiset(slots)
  {
    sorted := [];
    for i := 0 to |slots|
      invariant Sorted(sorted) && multiset(sorted) == multiset(slots[..i])
    {
      InsertKeepsOrder(slots[i], sorted);
      sorted := Insert(slots[i], sorted);
      assert slots[..i + 1] == slots[..i] + [slots[i]];
    }
    assert slots[..|slots|] == slots;
  }

  method New(slots: seq<Slot>) returns (r: Result<seq<Slot>, OpaqueError>)
    ensures r == Collection(slots)
  {
    if |slots| > MAX_SLOTS {
      return Err(Bounds);
    }
    var sorted := SortUnstable(slots);
    PermutationSize(sorted, slots);
    NeighboursDecide(sorted);
    var i := 0;
    while i + 1 < |sorted|
      invariant 0 <= i
      invariant forall k :: 0 <= k < i && k + 1 < |sorted| ==> sorted[k].id != sorted[k + 1].id
    {
      if sorted[i].id == sorted[i + 1].id {
        if DistinctIds(slots) {
          DistinctPermutation(slots, sorted);
        }
        return Err(DuplicateSlot);
      }
      i := i + 1;
    }
    DistinctPermutation(sorted, slots);
    AggregateOfPermutation(sorted, slots);
    var aggregate := SumLengths(sorted);
    if aggregate > MAX_AGGREGATE_LEN {
      return Err(Bounds);
    }
    SortSorts(slots);
    OneOrder(sorted, Sort(slots));
    r := Ok(sorted);
  }

  /** The fold over the sorted slots; at most 64 times 4096, it cannot overflow. */
  method SumLengths(slots: seq<Slot>) returns (aggregate: nat)
    ensures aggregate == Aggregate(slots)
  {
    aggregate := 0;
    for i := 0 to |slots|
      invariant aggregate == Aggregate(slots[..i])
    {
      aggregate := aggregate + |slots[i].value|;
      assert slots[..i + 1] == slots[..i] + [slots[i]];
      AggregateOfConcat(slots[..i], [slots[i]]);
    }
    assert slots[..|slots|] == slots;
  }

  /** Acceptance keeps exactly the given slots, in canonical form. */
  lemma AcceptedIsCanonical(slots: seq<Slot>)
    requires Collection(slots).Ok?
    ensures Canonical(Collection(slots).value) && multiset(Collection(slots).value) == multiset(slots)
  {
    SortSorts(slots);
    DistinctPermutation(slots, Sort(slots));
    AggregateOfPermutation(slots, Sort(slots));
    PermutationSize(slots, Sort(slots));
  }

  /** Two lists are accepted as the same collection exactly when one is a rearrangement of the other. */
  lemma SameCollectionIffPermutation(a: seq<Slot>, b: seq<Slot>)
    requires Collection(a).Ok?
    ensures Collection(a) == Collection(b) <==> multiset(a) == multiset(b)
  {
    AcceptedIsCanonical(a);
    if multiset(a) == multiset(b) {
      PermutationSize(a, b);
      DistinctPermutation(a, b);
      AggregateOfPermutation(a, b);
      SortSorts(a);
      SortSorts(b);
      OneOrder(Sort(a), Sort(b));
    }
    if Collection(a) == Collection(b) {
      AcceptedIsCanonical(b);
    }
  }

  // ---- lookup ----

  ghost predicate Holds(slots: seq<Slot>, id: u32, r: Option<Slot>) {
    match r
    case Some(slot) => slot in slots && slot.id == id
    case None => forall k :: 0 <= k < |slots| ==> slots[k].id != id
  }

  /** `get`: binary search by number. */
  method Get(slots: seq<Slot>, id: u32) returns (r: Option<Slot>)
    requires Canonical(slots)
    ensures Holds(slots, id, r)
  {
    var low, high := 0, |slots|;
    while low < high
      invariant 0 <= low <= high <= |slots|
      invariant forall k :: 0 <= k < low ==> slots[k].id < id
      invariant forall k :: high <= k < |slots| ==> slots[k].id > id
    {
      var middle := low + (high - low) / 2;
      if slots[middle].id == id {
        return Some(slots[middle]);
      } else if slots[middle].id < id {
        low := middle + 1;
      } else {
        high := middle;
      }
    }
    r := None;
  }

  // ---- the wire ----

  function ToWire(slots: seq<Slot>): (w: seq<WireSlot>)
    ensures |w| == |slots|
  {
    seq(|slots|, i requires 0 <= i < |slots| => WireSlot(slots[i].id, slots[i].value))
  }

  /** `collect` into a result: the first rejected slot decides. */
  function DecodeSlots(wire: seq<WireSlot>): (r: Result<seq<Slot>, OpaqueError>)
    ensures r.Ok? ==> |r.value| == |wire|
  {
    if wire == [] then Ok([])
    else
      var first :- NewSlot(wire[0]);
      var rest :- DecodeSlots(wire[1..]);
      Ok([first] + rest)
  }

  ghost function FromWire(wire: seq<WireSlot>): Result<seq<Slot>, OpaqueError> {
    match DecodeSlots(wire)
    case Err(e) => Err(e)
    case Ok(slots) => Collection(slots)
  }

  lemma {:induction false} DecodeOfWire(slots: seq<Slot>)
    ensures DecodeSlots(ToWire(slots)) == Ok(slots)
  {
    if slots != [] {
      assert ToWire(slots)[1..] == ToWire(slots[1..]);
      DecodeOfWire(slots[1..]);
      assert slots == [slots[0]] + slots[1..];
    }
  }

  lemma {:induction false} WireOfDecoded(wire: seq<WireSlot>)
    requires DecodeSlots(wire).Ok?
    ensures ToWire(DecodeSlots(wire).value) == wire
  {
    if wire != [] {
      WireOfDecoded(wire[1..]);
      assert DecodeSlots(wire).value[1..] == DecodeSlots(wire[1..]).value;
      assert wire == [wire[0]] + wire[1..];
    }
  }

  /** A collection survives the wire. */
  lemma WireRoundTrip(slots: seq<Slot>)
    requires Canonical(slots)
    ensures FromWire(ToWire(slots)) == Ok(slots)
  {
    DecodeOfWire(slots);
    SortSorts(slots);
    OneOrder(slots, Sort(slots));
  }

  /** Accepted wire slots that are already in order are reproduced exactly; others come back in order. */
  lemma AcceptedWireIsReproducedIffOrdered(wire: seq<WireSlot>)
    requires FromWire(wire).Ok?
    ensures ToWire(FromWire(wire).value) == wire
       <==> forall i, j :: 0 <= i < j < |wire| ==> wire[i].slot < wire[j].slot
  {
    var slots := DecodeSlots(wire).value;
    WireOfDecoded(wire);
    AcceptedIsCanonical(slots);
    var kept := FromWire(wire).value;
    if forall i, j :: 0 <= i < j < |wire| ==> wire[i].slot < wire[j].slot {
      forall i, j | 0 <= i < j < |slots| ensures slots[i].id <= slots[j].id {
        assert ToWire(slots)[i].slot < ToWire(slots)[j].slot;
      }
      OneOrder(slots, kept);
    }
    if ToWire(kept) == wire {
      forall i, j | 0 <= i < j < |wire| ensures wire[i].slot < wire[j].slot {
        assert wire[i].slot == kept[i].id && wire[j].slot == kept[j].id;
      }
    }
  }
}
