// Going around a ring of positions.
module Ring {
  import opened Arith

  // The position `d` steps behind `h`, and the number of steps from `h` to position `j`.
  function Slot(h: nat, d: nat, capacity: nat): (j: nat)
    requires 0 < capacity
    ensures j < capacity
  {
    (h + d) % capacity
  }

  function Distance(h: nat, j: nat, capacity: nat): (d: nat)
    requires 0 < capacity && j < capacity
    ensures d < capacity
  {
    (j - h) % capacity
  }

  lemma DistanceReaches(h: nat, j: nat, capacity: nat)
    requires 0 < capacity && j < capacity
    ensures Slot(h, Distance(h, j, capacity), capacity) == j
  {
    var q := (j - h) / capacity;
    var d := (j - h) % capacity;
    assert j - h == capacity * q + d;
    assert h + d == capacity * -q + j;
    DivUnique(h + d, capacity, -q, j);
  }

  // Within one round no position is met twice.
  lemma SlotInjective(h: nat, d: nat, e: nat, capacity: nat)
    requires 0 < capacity && d < capacity && e < capacity && Slot(h, d, capacity) == Slot(h, e, capacity)
    ensures d == e
  {
    if d < e { NoMeeting(h + d, h + e, capacity); } else if e < d { NoMeeting(h + e, h + d, capacity); }
  }

  lemma NoMeeting(a: nat, b: nat, capacity: nat)
    requires 0 < capacity && a < b < a + capacity
    ensures a % capacity != b % capacity
  {
    if a % capacity == b % capacity {
      var p, q := a / capacity, b / capacity;
      assert a == capacity * p + a % capacity && b == capacity * q + b % capacity;
      assert b - a == capacity * (q - p);
      DivUnique(b - a, capacity, q - p, 0);
      DivUnique(b - a, capacity, 0, b - a);
    }
  }

  lemma SlotSucc(h: nat, d: nat, capacity: nat)
    requires 0 < capacity
    ensures Slot(h, d + 1, capacity) == (Slot(h, d, capacity) + 1) % capacity
  {
    var q, r := (h + d) / capacity, (h + d) % capacity;
    assert h + d == capacity * q + r;
    if r + 1 < capacity {
      DivUnique(h + d + 1, capacity, q, r + 1);
      DivUnique(r + 1, capacity, 0, r + 1);
    } else {
      assert capacity * (q + 1) == capacity * q + capacity;
      DivUnique(h + d + 1, capacity, q + 1, 0);
      DivUnique(r + 1, capacity, 1, 0);
    }
  }

  // A full round comes back to its start.
  lemma SlotRound(h: nat, capacity: nat)
    requires 0 < capacity && h < capacity
    ensures Slot(h, 0, capacity) == h && Slot(h, capacity, capacity) == h
  {
    DivUnique(h, capacity, 0, h);
    DivUnique(h + capacity, capacity, 1, h);
  }
}
