// Demand paging of guest RAM: chunks are opened by the fault handler and closed again by the
// collector, and the guest cannot tell.
module DemandPaging {
  import opened Lists
  import opened Options
  import opened Ring

  const CHUNK: nat := 0x1_0000
  const LIMIT: nat := 0x1_0000_0000

  type Byte = b: int | 0 <= b < 0x100

  // ----- chunks -----

  function Chunks(size: nat): nat {
    (size + CHUNK - 1) / CHUNK
  }

  function Start(c: nat): nat {
    c * CHUNK
  }

  // The length of a chunk; the last one may be cut off by the end of memory.
  function Length(size: nat, c: nat): (n: nat)
    requires c < Chunks(size)
    ensures 0 < n <= CHUNK && Start(c) + n <= size
    ensures Start(c) + n == size || n == CHUNK
  {
    if Start(c) + CHUNK > size then size - Start(c) else CHUNK
  }

  // The chunk of an address, and that the chunk covers it.
  function ChunkOf(size: nat, a: nat): (c: nat)
    requires a < size
    ensures c < Chunks(size) && Start(c) <= a < Start(c) + Length(size, c)
  {
    a / CHUNK
  }

  // The chunks are the aligned pieces of CHUNK bytes: an address is in the one it rounds down to.
  lemma ChunkMeans(size: nat, a: nat)
    requires a < size
    ensures
      var c := ChunkOf(size, a);
      0x1_0000 * c <= a < 0x1_0000 * c + 0x1_0000 && 0x1_0000 * c + Length(size, c) == Min(size, 0x1_0000 * c + 0x1_0000)
  {
  }

  function Max(a: nat, b: nat): nat {
    if a < b then b else a
  }

  function Min(a: nat, b: nat): nat {
    if a < b then a else b
  }

  ghost predicate ZeroIn(m: seq<Byte>, start: nat, n: nat)
    requires start + n <= |m|
  {
    forall i :: start <= i < start + n ==> m[i] == 0
  }

  ghost predicate ZeroChunk(m: seq<Byte>, c: nat)
    requires c < Chunks(|m|)
  {
    ZeroIn(m, Start(c), Length(|m|, c))
  }

  // Is every byte of a region zero?
  method IsRegionZero(m: seq<Byte>, start: nat, n: nat) returns (zero: bool)
    requires start + n <= |m|
    ensures zero <==> ZeroIn(m, start, n)
  {
    var i := 0;
    while i < n
      invariant i <= n && forall j :: start <= j < start + i ==> m[j] == 0
    {
      if m[start + i] != 0 { return false; }
      i := i + 1;
    }
    zero := true;
  }

  // What giving pages back to the system leaves behind.
  function Dropped(m: seq<Byte>, start: nat, n: nat): seq<Byte>
    requires start + n <= |m|
  {
    m[..start] + seq(n, _ => 0) + m[start + n..]
  }

  class Memory {
    const size: nat
    var bytes: seq<Byte>      // what the pages hold
    var open: seq<bool>       // the chunks the host may access
    var bitmap: seq<bool>
    var active: nat
    var peak: nat
    var scan: nat

    ghost predicate Valid()
      reads this
    {
      && size <= LIMIT && |bytes| == size && |open| == |bitmap| == Chunks(size)
      && bitmap == open && active == Count(bitmap) && active <= peak
      && (scan < Chunks(size) || scan == 0)
    }

    constructor (size: nat)
      requires size <= LIMIT
      ensures Valid() && this.size == size && bytes == seq(size, _ => 0)
      ensures open == seq(Chunks(size), _ => false) && active == 0 && peak == 0 && scan == 0
    {
      this.size := size;
      bytes := seq(size, _ => 0);
      open, bitmap := seq(Chunks(size), _ => false), seq(Chunks(size), _ => false);
      active, peak, scan := 0, 0, 0;
      CountNone(seq(Chunks(size), _ => false));
    }

    // A fault at an offset from the base: inside guest memory its chunk is opened, if the system
    // agrees, and the access resumes; any other fault is passed on.
    method Fault(offset: int, agreed: bool) returns (resumed: bool)
      requires Valid()
      modifies this`open, this`bitmap, this`active, this`peak
      ensures Valid() && resumed == (0 <= offset < size && agreed) && peak == Max(old(peak), active)
      ensures resumed ==> open == old(open)[ChunkOf(size, offset) := true]
      ensures !resumed ==> open == old(open)
    {
      if 0 <= offset < size && agreed {
        var c := ChunkOf(size, offset);
        CountUpdate(bitmap, c, true);
        open := open[c := true];
        if !bitmap[c] {
          bitmap := bitmap[c := true];
          active := active + 1;
          if active > peak { peak := active; }
        } else {
          assert bitmap[c := true] == bitmap;
        }
        return true;
      }
      resumed := false;
    }

    // A guest load: faulting once if the chunk is closed.
    method Load(a: nat, agreed: bool) returns (r: Option<Byte>)
      requires Valid() && a < size
      modifies this`open, this`bitmap, this`active, this`peak
      ensures Valid() && peak == Max(old(peak), active)
      ensures r == if old(open)[ChunkOf(size, a)] || agreed then Some(bytes[a]) else None
      ensures open == if r.Some? then old(open)[ChunkOf(size, a) := true] else old(open)
    {
      assert open[ChunkOf(size, a) := open[ChunkOf(size, a)]] == open;
      if !open[ChunkOf(size, a)] {
        var resumed := Fault(a, agreed);
        if !resumed { return None; }
      }
      r := Some(bytes[a]);
    }

    // A guest store.
    method Store(a: nat, v: Byte, agreed: bool) returns (ok: bool)
      requires Valid() && a < size
      modifies this`bytes, this`open, this`bitmap, this`active, this`peak
      ensures Valid() && ok == (old(open)[ChunkOf(size, a)] || agreed) && peak == Max(old(peak), active)
      ensures bytes == if ok then old(bytes)[a := v] else old(bytes)
      ensures open == if ok then old(open)[ChunkOf(size, a) := true] else old(open)
    {
      assert open[ChunkOf(size, a) := open[ChunkOf(size, a)]] == open;
      if !open[ChunkOf(size, a)] {
        var resumed := Fault(a, agreed);
        if !resumed { return false; }
      }
      bytes := bytes[a := v];
      ok := true;
    }

    // One collector step: the chunk under the scan index is closed if it is open, all zero, and the
    // system agrees. It only ever reads chunks that are open.
    method Collect(agreed: bool)
      requires Valid()
      modifies this`bytes, this`open, this`bitmap, this`active, this`scan
      ensures Valid() && bytes == old(bytes)
      ensures scan == if old(scan) < Chunks(size) then (old(scan) + 1) % Chunks(size) else 0
      ensures old(scan) < Chunks(size) ==>
        open == old(open)[old(scan) := old(open)[old(scan)] && !(agreed && ZeroChunk(bytes, old(scan)))]
      ensures old(scan) >= Chunks(size) ==> open == old(open)
    {
      var c := scan;
      var max := Chunks(size);
      if c >= max {
        scan := 0;
        return;
      }
      assert open[c := open[c]] == open;
      if bitmap[c] {
        var start, n := Start(c), Length(size, c);
        var zero := IsRegionZero(bytes, start, n);
        if zero && agreed {
          CountUpdate(bitmap, c, false);
          open := open[c := false];
          DropUnseen(bytes, start, n);
          bytes := Dropped(bytes, start, n);
          bitmap := bitmap[c := false];
          if active > 0 { active := active - 1; }
        }
      }
      scan := (c + 1) % max;
    }

    // One round of the collector closes exactly the open chunks that are all zero.
    method CollectRound()
      requires Valid()
      modifies this`bytes, this`open, this`bitmap, this`active, this`scan
      ensures Valid() && bytes == old(bytes) && scan == old(scan)
      ensures forall c :: 0 <= c < Chunks(size) ==> open[c] == (old(open)[c] && !ZeroChunk(bytes, c))
    {
      hide Slot, Distance, ZeroChunk, Chunks, Count;
      var max := Chunks(size);
      if max == 0 { return; }
      ghost var s := scan;
      SlotRound(s, max);
      var i := 0;
      while i < max
        invariant i <= max && Valid() && bytes == old(bytes) && scan == Slot(s, i, max)
        invariant forall c :: 0 <= c < max ==> open[c] == (old(open)[c] && !(Passed(s, i, c, max) && ZeroChunk(bytes, c)))
      {
        PassOne(s, i, max);
        SlotSucc(s, i, max);
        Collect(true);
        i := i + 1;
      }
      forall c | 0 <= c < max ensures Passed(s, max, c, max) {
        DistanceReaches(s, c, max);
      }
    }
  }

  // The chunks a round has looked at after `i` steps.
  ghost predicate Passed(s: nat, i: nat, c: nat, max: nat)
    requires 0 < max
  {
    exists j :: 0 <= j < i && Slot(s, j, max) == c
  }

  lemma PassOne(s: nat, i: nat, max: nat)
    requires 0 < max
    ensures forall c :: Passed(s, i + 1, c, max) <==> Passed(s, i, c, max) || c == Slot(s, i, max)
  {
    hide Slot;
    forall c ensures Passed(s, i + 1, c, max) <==> Passed(s, i, c, max) || c == Slot(s, i, max) {
      if Passed(s, i + 1, c, max) {
        var j :| 0 <= j < i + 1 && Slot(s, j, max) == c;
        assert j == i || Passed(s, i, c, max);
      }
    }
  }

  // Dropping pages that hold only zeros cannot be seen.
  lemma DropUnseen(m: seq<Byte>, start: nat, n: nat)
    requires start + n <= |m| && ZeroIn(m, start, n)
    ensures Dropped(m, start, n) == m
  {
    assert m == m[..start] + m[start..start + n] + m[start + n..];
    assert m[start..start + n] == seq(n, _ => 0);
  }
}
