// The block map of the interpreter: open addressing with linear probing, for any hash function.
module BlockMap {
  import opened Lists
  import opened Options
  import opened Ring

  // A translated block, known by the address it starts at.
  datatype Block = Block(pc: nat, id: nat)

  type Slots = seq<Option<Block>>

  // ----- what every operation keeps -----

  // `at` says where every block is; each is found by probing from its hash without meeting a gap.
  ghost predicate Ok(slots: Slots, at: map<nat, nat>, hash: nat -> nat) {
    && 0 < |slots|
    && (forall k :: k in at ==> at[k] < |slots| && slots[at[k]].Some? && slots[at[k]].value.pc == k)
    && (forall j :: 0 <= j < |slots| && slots[j].Some? ==> slots[j].value.pc in at && at[slots[j].value.pc] == j)
    && (forall k :: k in at ==> NoGap(slots, hash(k), at[k]))
  }

  ghost predicate NoGap(slots: Slots, h: nat, j: nat)
    requires 0 < |slots| && j < |slots|
  {
    forall d :: 0 <= d < Distance(h, j, |slots|) ==> slots[Slot(h, d, |slots|)].Some?
  }

  ghost function Occupied(slots: Slots): seq<bool> {
    seq(|slots|, j requires 0 <= j < |slots| => slots[j].Some?)
  }

  ghost function Size(slots: Slots): nat {
    Count(Occupied(slots))
  }

  lemma SizeBound(slots: Slots)
    ensures Size(slots) <= |slots|
    ensures Size(slots) == |slots| <==> forall j :: 0 <= j < |slots| ==> slots[j].Some?
  {
    var s := Occupied(slots);
    CountBound(s);
    assert forall j :: 0 <= j < |slots| ==> s[j] == slots[j].Some?;
  }

  lemma SizeSet(slots: Slots, j: nat, b: Block)
    requires j < |slots| && slots[j].None?
    ensures Size(slots[j := Some(b)]) == Size(slots) + 1
  {
    CountUpdate(Occupied(slots), j, true);
    assert Occupied(slots[j := Some(b)]) == Occupied(slots)[j := true];
  }

  lemma SizeNone(slots: Slots)
    requires forall j :: 0 <= j < |slots| ==> slots[j].None?
    ensures Size(slots) == 0
  {
    CountNone(Occupied(slots));
  }

  // A probe that meets a gap has passed every slot the block could be in.
  lemma AbsentAtGap(slots: Slots, at: map<nat, nat>, hash: nat -> nat, k: nat, d: nat)
    requires Ok(slots, at, hash) && d < |slots| && slots[Slot(hash(k), d, |slots|)].None?
    requires forall e :: 0 <= e < d ==> slots[Slot(hash(k), e, |slots|)].Some? && slots[Slot(hash(k), e, |slots|)].value.pc != k
    ensures k !in at
  {
    if k in at {
      assert NoGap(slots, hash(k), at[k]);
      DistanceReaches(hash(k), at[k], |slots|);
      assert false;
    }
  }

  // Filling the first gap of its probe sequence keeps every block reachable.
  lemma InsertOk(slots: Slots, at: map<nat, nat>, hash: nat -> nat, b: Block, d: nat)
    requires Ok(slots, at, hash) && d < |slots| && slots[Slot(hash(b.pc), d, |slots|)].None? && b.pc !in at
    requires forall e :: 0 <= e < d ==> slots[Slot(hash(b.pc), e, |slots|)].Some?
    ensures
      var j := Slot(hash(b.pc), d, |slots|);
      Ok(slots[j := Some(b)], at[b.pc := j], hash)
  {
    var n := |slots|;
    var j := Slot(hash(b.pc), d, n);
    var after := slots[j := Some(b)];
    forall k | k in at ensures NoGap(after, hash(k), at[k]) {
      assert NoGap(slots, hash(k), at[k]);
    }
    DistanceReaches(hash(b.pc), j, n);
    SlotInjective(hash(b.pc), d, Distance(hash(b.pc), j, n), n);
    assert NoGap(after, hash(b.pc), j);
  }

  // The blocks by address.
  ghost function View(slots: Slots, at: map<nat, nat>): map<nat, Block>
    requires forall k :: k in at ==> at[k] < |slots| && slots[at[k]].Some?
  {
    map k | k in at :: slots[at[k]].value
  }

  lemma InsertView(slots: Slots, at: map<nat, nat>, hash: nat -> nat, j: nat, b: Block)
    requires Ok(slots, at, hash) && j < |slots| && slots[j].None?
    requires Ok(slots[j := Some(b)], at[b.pc := j], hash)
    ensures View(slots[j := Some(b)], at[b.pc := j]) == View(slots, at)[b.pc := b]
  {
  }

  // ----- the map -----

  class Map {
    const capacity: nat
    const hash: nat -> nat
    const slots: array<Option<Block>>
    var size: nat
    ghost var at: map<nat, nat>

    ghost predicate Valid()
      reads this, slots
    {
      Ok(slots[..], at, hash) && slots.Length == capacity && size == Size(slots[..])
    }

    // The blocks inserted since the last clear, by address.
    ghost function Contents(): map<nat, Block>
      reads this, slots
      requires Valid()
    {
      View(slots[..], at)
    }

    constructor (capacity: nat, hash: nat -> nat)
      requires 0 < capacity
      ensures Valid() && fresh(slots) && Contents() == map[] && size == 0 && this.capacity == capacity
    {
      this.capacity, this.hash := capacity, hash;
      slots := new Option<Block>[capacity](_ => None);
      size, at := 0, map[];
      new;
      SizeNone(slots[..]);
    }

    // Probe for a block; ends because some slot is empty.
    method Find(pc: nat) returns (r: Option<Block>)
      requires Valid() && size < capacity
      ensures r == if pc in Contents() then Some(Contents()[pc]) else None
    {
      ghost var s := slots[..];
      SizeBound(s);
      ghost var gap :| 0 <= gap < |s| && s[gap].None?;
      ghost var bound := Distance(hash(pc), gap, capacity);
      DistanceReaches(hash(pc), gap, capacity);
      var d := 0;
      while true
        invariant 0 <= d <= bound
        invariant forall e :: 0 <= e < d ==> s[Slot(hash(pc), e, capacity)].Some? && s[Slot(hash(pc), e, capacity)].value.pc != pc
        decreases bound - d
      {
        var b := slots[Slot(hash(pc), d, capacity)];
        assert b == s[Slot(hash(pc), d, capacity)];
        if b.None? {
          AbsentAtGap(s, at, hash, pc, d);
          return None;
        }
        if b.value.pc == pc { return b; }
        d := d + 1;
      }
    }

    // Put a block that is not there yet into the first free slot of its probe sequence.
    method Insert(b: Block)
      requires Valid() && size < capacity && b.pc !in Contents()
      modifies this`size, this`at, slots
      ensures Valid() && Contents() == old(Contents())[b.pc := b] && size == old(size) + 1
    {
      hide Ok, View, Size, Distance;
      ghost var s := slots[..];
      SizeBound(s);
      ghost var gap :| 0 <= gap < |s| && s[gap].None?;
      ghost var bound := Distance(hash(b.pc), gap, capacity);
      DistanceReaches(hash(b.pc), gap, capacity);
      var d := 0;
      while slots[Slot(hash(b.pc), d, capacity)].Some?
        invariant 0 <= d <= bound && slots[..] == s
        invariant forall e :: 0 <= e < d ==> s[Slot(hash(b.pc), e, capacity)].Some?
        decreases bound - d
      {
        d := d + 1;
      }
      var j := Slot(hash(b.pc), d, capacity);
      AbsentInView(s, at, hash, b.pc);
      InsertOk(s, at, hash, b, d);
      InsertView(s, at, hash, j, b);
      SizeSet(s, j, b);
      slots[j] := Some(b);
      assert slots[..] == s[j := Some(b)];
      at := at[b.pc := j];
      size := size + 1;
    }

    // Forget every block.
    method Clear()
      requires Valid()
      modifies this`size, this`at, slots
      ensures Valid() && Contents() == map[] && size == 0
    {
      var i := 0;
      while i < capacity
        invariant i <= capacity && slots.Length == capacity
        invariant forall j :: 0 <= j < i ==> slots[j].None?
      {
        slots[i] := None;
        i := i + 1;
      }
      size, at := 0, map[];
      SizeNone(slots[..]);
    }

    // Find the block at an address, or enter the one just translated, clearing a map that is more
    // than four fifths full first.
    method FindOrInsert(pc: nat, translated: Block) returns (r: Block)
      requires Valid() && size < capacity && 6 <= capacity && translated.pc == pc
      modifies this`size, this`at, slots
      ensures Valid() && size < capacity && pc in Contents() && r == Contents()[pc]
      ensures pc in old(Contents()) ==> Contents() == old(Contents())
      ensures pc !in old(Contents()) ==>
        Contents() == (if 5 * old(size) > 4 * capacity then map[] else old(Contents()))[pc := translated]
    {
      var f := Find(pc);
      if f.Some? { return f.value; }
      if 5 * size > 4 * capacity { Clear(); }
      LoadCheck(capacity);
      Insert(translated);
      r := translated;
    }
  }

  lemma AbsentInView(slots: Slots, at: map<nat, nat>, hash: nat -> nat, k: nat)
    requires Ok(slots, at, hash) && k !in View(slots, at)
    ensures k !in at
  {
  }

  // An insertion that passed the load check leaves an empty slot exactly from six slots on.
  lemma LoadCheck(capacity: nat)
    ensures 6 <= capacity <==> forall size: nat :: 5 * size <= 4 * capacity ==> size + 1 < capacity
  {
    if capacity < 6 {
      var size := 4 * capacity / 5;
      assert 5 * size <= 4 * capacity && !(size + 1 < capacity);
    }
  }

  // With fewer slots the map can fill up, and then a probe for an absent address never ends: it
  // meets neither a gap nor the address.
  lemma FullMapNeverStops(slots: Slots, at: map<nat, nat>, hash: nat -> nat, pc: nat, d: nat)
    requires Ok(slots, at, hash) && Size(slots) == |slots| && pc !in at
    ensures slots[Slot(hash(pc), d, |slots|)].Some? && slots[Slot(hash(pc), d, |slots|)].value.pc != pc
  {
    SizeBound(slots);
  }
}
