// The chunk pool: chunks carved from arenas, a free list threaded through their headers, and
// where every chunk is at any time.
module Mpool {
  import opened Arith
  import opened Lists
  import opened Options

  // A chunk begins with the link of the free list.
  const HEADER: nat := 8

  // Memory by address, headers and payload; what was never written reads as zero, and zero is the
  // null pointer.
  type Heap = map<nat, nat>

  function At(heap: Heap, a: nat): nat {
    if a in heap then heap[a] else 0
  }

  // The free list from `head` on is exactly `free`.
  ghost predicate Linked(heap: Heap, head: nat, free: seq<nat>) {
    && head == (if free == [] then 0 else free[0])
    && forall k :: 0 <= k < |free| ==> LinkAt(heap, free, k)
  }

  ghost predicate LinkAt(heap: Heap, free: seq<nat>, k: nat)
    requires k < |free|
  {
    free[k] != 0 && At(heap, free[k]) == if k + 1 < |free| then free[k + 1] else 0
  }

  ghost function Members(s: seq<nat>): set<nat> {
    set a | a in s
  }

  // Chunks in ascending order that do not overlap.
  ghost predicate Spaced(s: seq<nat>, stride: nat) {
    forall k :: 0 <= k < |s| - 1 ==> s[k] + stride <= s[k + 1]
  }

  lemma {:induction false} SpacedApart(s: seq<nat>, stride: nat, i: nat, j: nat)
    requires Spaced(s, stride) && i < j < |s|
    ensures s[i] + stride <= s[j]
    decreases j - i
  {
    if i + 1 < j { SpacedApart(s, stride, i, j - 1); }
    assert s[j - 1] + stride <= s[j - 1 + 1];
  }

  ghost predicate Apart(a: nat, b: nat, length: nat) {
    a + length <= b || b + length <= a
  }

  // Every chunk ever carved lies in its arena, and no two overlap.
  ghost predicate Carved(home: map<nat, nat>, areas: seq<nat>, length: nat, stride: nat) {
    && (forall a :: a in home ==> 0 < a && home[a] < |areas| && areas[home[a]] <= a && a + stride <= areas[home[a]] + length)
    && (forall a, b :: a in home && b in home && a != b ==> Apart(a, b, stride))
    && (forall i, j :: 0 <= i < j < |areas| ==> Apart(areas[i], areas[j], length))
  }

  // An arena handed out by the system: new memory, apart from the old arenas, and zero.
  ghost predicate FreshArena(p: nat, heap: Heap, areas: seq<nat>, length: nat) {
    && 0 < p && (forall i :: 0 <= i < |areas| ==> Apart(areas[i], p, length))
    && (forall a :: p <= a < p + length ==> At(heap, a) == 0)
  }

  // What the owner of a chunk sees.
  ghost function Payload(heap: Heap, a: nat, size: nat): (s: seq<int>)
    ensures |s| == size && forall k :: 0 <= k < size ==> s[k] == At(heap, a + HEADER + k)
  {
    seq(size, k requires 0 <= k < size => At(heap, a + HEADER + k))
  }

  // The payloads of these chunks are as they were.
  ghost predicate Kept(before: Heap, after: Heap, chunks: set<nat>, size: nat) {
    forall a :: a in chunks ==> Payload(after, a, size) == Payload(before, a, size)
  }

  // ----- carving -----

  lemma Fits(i: nat, n: nat, stride: nat, length: nat)
    requires i < n && n * stride <= length
    ensures i * stride + stride <= length && (i + 1) * stride == i * stride + stride
  {
    assert (i + 1) * stride <= n * stride;
  }

  // The chunks are threaded together in ascending order from `p` on; the link of the last one and
  // the memory outside are as they were.
  ghost predicate Thread(heap0: Heap, heap: Heap, chunks: seq<nat>, p: nat, length: nat, stride: nat) {
    && chunks != [] && chunks[0] == p && Spaced(chunks, stride)
    && (forall k :: 0 <= k < |chunks| ==> p <= chunks[k] && chunks[k] + stride <= p + length)
    && (forall k :: 0 <= k < |chunks| - 1 ==> At(heap, chunks[k]) == chunks[k + 1])
    && (forall a: nat :: a < p || chunks[|chunks| - 1] <= a ==> At(heap, a) == At(heap0, a))
  }

  lemma ThreadStep(heap0: Heap, heap: Heap, chunks: seq<nat>, p: nat, length: nat, stride: nat)
    requires Thread(heap0, heap, chunks, p, length, stride) && 0 < stride
    requires chunks[|chunks| - 1] + stride + stride <= p + length
    ensures
      var cur := chunks[|chunks| - 1];
      Thread(heap0, heap[cur := cur + stride], chunks + [cur + stride], p, length, stride)
  {
    var n := |chunks|;
    var cur := chunks[n - 1];
    var after := chunks + [cur + stride];
    SpacedStep(chunks, stride);
    LinksStep(heap, chunks, stride);
    assert after[n] == cur + stride;
  }

  lemma SpacedStep(chunks: seq<nat>, stride: nat)
    requires chunks != [] && Spaced(chunks, stride)
    ensures Spaced(chunks + [chunks[|chunks| - 1] + stride], stride)
  {
  }

  lemma LinksStep(heap: Heap, chunks: seq<nat>, stride: nat)
    requires chunks != [] && Spaced(chunks, stride) && 0 < stride
    requires forall k :: 0 <= k < |chunks| - 1 ==> At(heap, chunks[k]) == chunks[k + 1]
    ensures
      var cur := chunks[|chunks| - 1];
      var after := chunks + [cur + stride];
      forall k :: 0 <= k < |after| - 1 ==> At(heap[cur := cur + stride], after[k]) == after[k + 1]
  {
    var n := |chunks|;
    var cur := chunks[n - 1];
    var after, linked := chunks + [cur + stride], heap[cur := cur + stride];
    forall k | 0 <= k < n ensures At(linked, after[k]) == after[k + 1] {
      if k < n - 1 {
        SpacedApart(chunks, stride, k, n - 1);
        assert At(heap, chunks[k]) == chunks[k + 1];
      }
    }
  }

  // The chunks of an arena lie side by side from its start.
  ghost predicate InPlace(chunks: seq<nat>, p: nat, stride: nat) {
    forall k :: 0 <= k < |chunks| ==> chunks[k] == p + k * stride
  }

  lemma InPlaceStep(chunks: seq<nat>, p: nat, stride: nat)
    requires InPlace(chunks, p, stride)
    ensures InPlace(chunks + [p + |chunks| * stride], p, stride)
  {
  }

  // Thread `n` chunks of an arena together; the link of the last one is left as it is.
  method Carve(heap0: Heap, p: nat, n: nat, stride: nat, ghost length: nat) returns (heap: Heap, last: nat, ghost chunks: seq<nat>)
    requires 0 < n && 0 < stride && n * stride <= length
    ensures |chunks| == n && last == chunks[n - 1] && Thread(heap0, heap, chunks, p, length, stride)
    ensures InPlace(chunks, p, stride)
  {
    hide Thread;
    heap := heap0;
    var cur := p;
    chunks := [p];
    var i := 0;
    Fits(0, n, stride, length);
    ThreadStart(heap0, p, length, stride);
    while i < n - 1
      invariant i <= n - 1 && |chunks| == i + 1 && chunks[i] == cur == p + i * stride
      invariant Thread(heap0, heap, chunks, p, length, stride) && InPlace(chunks, p, stride)
    {
      InPlaceStep(chunks, p, stride);
      Fits(i + 1, n, stride, length);
      Fits(i, n, stride, length);
      ThreadStep(heap0, heap, chunks, p, length, stride);
      heap := heap[cur := cur + stride];
      cur := cur + stride;
      chunks := chunks + [cur];
      i := i + 1;
    }
    last := cur;
  }

  lemma ThreadStart(heap0: Heap, p: nat, length: nat, stride: nat)
    requires stride <= length
    ensures Thread(heap0, heap0, [p], p, length, stride)
  {
  }

  // ----- the pool -----

  // A new arena: its chunks are free, in order, and apart from everything carved before.
  lemma ArenaLinked(heap0: Heap, heap: Heap, chunks: seq<nat>, p: nat, length: nat, stride: nat)
    requires Thread(heap0, heap, chunks, p, length, stride) && 0 < stride && 0 < p
    requires At(heap, chunks[|chunks| - 1]) == 0
    ensures Linked(heap, p, chunks) && NoDup(chunks)
  {
    forall k | 0 <= k < |chunks| ensures LinkAt(heap, chunks, k) {
      if k + 1 < |chunks| { assert At(heap, chunks[k]) == chunks[k + 1]; }
    }
    forall i, j | 0 <= i < j < |chunks| ensures chunks[i] != chunks[j] {
      SpacedApart(chunks, stride, i, j);
    }
    NoDupMeans(chunks);
  }

  ghost function Homes(chunks: seq<nat>, area: nat): map<nat, nat> {
    map a | a in chunks :: area
  }

  lemma ArenaCarved(home: map<nat, nat>, areas: seq<nat>, length: nat, stride: nat, chunks: seq<nat>, p: nat)
    requires Carved(home, areas, length, stride) && 0 < p && 0 < stride && Spaced(chunks, stride)
    requires forall i :: 0 <= i < |areas| ==> Apart(areas[i], p, length)
    requires forall k :: 0 <= k < |chunks| ==> p <= chunks[k] && chunks[k] + stride <= p + length
    ensures Carved(home + Homes(chunks, |areas|), areas + [p], length, stride) && home.Keys !! Members(chunks)
  {
    hide Spaced;
    var after, grown := home + Homes(chunks, |areas|), areas + [p];
    forall a, b | a in home && b in chunks ensures Apart(a, b, stride) && a != b {
      assert Apart(areas[home[a]], p, length);
    }
    forall a, b | a in after && b in after && a != b ensures Apart(a, b, stride) {
      if a in chunks && b in chunks {
        var i :| 0 <= i < |chunks| && chunks[i] == a;
        var j :| 0 <= j < |chunks| && chunks[j] == b;
        if i < j { SpacedApart(chunks, stride, i, j); } else { SpacedApart(chunks, stride, j, i); }
      }
    }
  }

  // A pool without room for the header of one chunk gets it in addition.
  function PoolBytes(poolSize: nat, chunkSize: nat): nat {
    if poolSize < chunkSize + HEADER then poolSize + HEADER else poolSize
  }

  class Pool {
    var chunkCount: nat
    const length: nat           // bytes in an arena
    const chunkSize: nat
    var head: nat
    var areas: seq<nat>
    var heap: Heap
    ghost var free: seq<nat>          // the free list
    ghost var home: map<nat, nat>     // every chunk ever carved, and its arena
    ghost var out: set<nat>           // the chunks handed out

    ghost function Stride(): nat
      reads this
    {
      HEADER + chunkSize
    }

    ghost predicate Valid()
      reads this
    {
      && Carved(home, areas, length, Stride()) && Linked(heap, head, free) && NoDup(free)
      && chunkCount == |free| && Stride() <= length
      && out !! Members(free) && out + Members(free) == home.Keys
    }

    // A pool over one arena; its last link is cleared.
    constructor (p: nat, length: nat, poolSize: nat, chunkSize: nat)
      requires 0 < p && chunkSize <= poolSize && PoolBytes(poolSize, chunkSize) <= length
      ensures Valid() && out == {} && |free| == PoolBytes(poolSize, chunkSize) / (HEADER + chunkSize) && areas == [p]
      ensures 0 < |free| && (poolSize < HEADER + chunkSize ==> |free| == 1)
      ensures InPlace(free, p, HEADER + chunkSize) && this.chunkSize == chunkSize && this.length == length
    {
      hide Carved, Linked, NoDup, Thread, Apart, Homes, At;
      var stride := HEADER + chunkSize;
      var bytes := PoolBytes(poolSize, chunkSize);
      var n := bytes / stride;
      Whole(bytes, stride);
      if poolSize < stride { DivUnique(bytes, stride, 1, bytes - stride); }
      this.length, this.chunkSize := length, chunkSize;
      var h, last, chunks := Carve(map[], p, n, stride, length);
      NothingWritten(last);
      LastCleared(map[], h, chunks, p, length, stride);
      ThreadPlaces(map[], h, chunks, p, length, stride);
      NothingCarved(length, stride);
      ArenaLinked(map[], h[last := 0], chunks, p, length, stride);
      ArenaCarved(map[], [], length, stride, chunks, p);
      assert map[] + Homes(chunks, 0) == Homes(chunks, 0) && [] + [p] == [p];
      HomesKeys(chunks, 0);
      heap, head, areas, chunkCount := h[last := 0], p, [p], n;
      free, home, out := chunks, Homes(chunks, 0), {};
    }

    // Carve another arena when the free list has run dry; its last link is zero already.
    method Extend(arena: Option<nat>) returns (ok: bool)
      requires Valid() && chunkCount == 0
      requires arena.Some? ==> FreshArena(arena.value, heap, areas, length)
      modifies this`chunkCount, this`head, this`areas, this`heap, this`free, this`home
      ensures Valid() && ok == arena.Some?
      ensures ok ==> 0 < chunkCount == length / (HEADER + chunkSize) && InPlace(free, arena.value, HEADER + chunkSize)
      ensures ok ==> areas == old(areas) + [arena.value] && home.Keys == old(home.Keys) + Members(free)
      ensures !ok ==> unchanged(this)
      ensures Kept(old(heap), heap, out, chunkSize)
    {
      hide Carved, Linked, NoDup, Thread, Apart, Homes, At;
      ok := arena.Some?;
      if !ok { return; }
      var p := arena.value;
      var stride := HEADER + chunkSize;
      var n := length / stride;
      Whole(length, stride);
      var h, last, chunks := Carve(heap, p, n, stride, length);
      LastStaysZero(heap, h, chunks, p, areas, length, stride);
      ArenaLinked(heap, h, chunks, p, length, stride);
      ThreadPlaces(heap, h, chunks, p, length, stride);
      ArenaCarved(home, areas, length, stride, chunks, p);
      HomesKeys(chunks, |areas|);
      ThreadKeeps(heap, h, chunks, p, home, areas, length, chunkSize);
      assert free == [];
      home := home + Homes(chunks, |areas|);
      heap, head, areas, chunkCount, free := h, p, areas + [p], chunkCount + n, chunks;
    }

    // Hand out the first free chunk, past its header.
    method Alloc(arena: Option<nat>) returns (r: Option<nat>)
      requires Valid()
      requires arena.Some? ==> FreshArena(arena.value, heap, areas, length)
      modifies this
      ensures Valid()
      ensures r.None? <==> old(chunkCount) == 0 && arena.None?
      ensures r.None? ==> unchanged(this)
      ensures r.Some? ==>
        && HEADER < r.value && r.value - HEADER in home && r.value - HEADER !in old(out) && out == old(out) + {r.value - HEADER}
      ensures old(chunkCount) > 0 ==>
        home == old(home) && areas == old(areas) && r.value == old(free)[0] + HEADER && free == old(free)[1..]
      ensures r.Some? && old(chunkCount) == 0 ==>
        && areas == old(areas) + [arena.value] && r.value == arena.value + HEADER
        && chunkCount == length / (HEADER + chunkSize) - 1
        && InPlace([arena.value] + free, arena.value, HEADER + chunkSize)
      ensures Kept(old(heap), heap, old(out), chunkSize)
    {
      hide Carved, Linked, NoDup, Apart;
      if chunkCount == 0 {
        var ok := Extend(arena);
        if !ok { return None; }
      }
      Pop(heap, head, free);
      var a := head;
      r := Some(a + HEADER);
      head := At(heap, head);
      chunkCount := chunkCount - 1;
      ghost var rest := free[1..];
      assert [a] + rest == free;
      assert Members(free) == {a} + Members(rest);
      out, free := out + {a}, rest;
    }

    // Take a chunk back.
    method Free(target: nat)
      requires Valid() && HEADER <= target && target - HEADER in out
      modifies this`chunkCount, this`head, this`heap, this`free, this`out
      ensures Valid() && out == old(out) - {target - HEADER} && free == [target - HEADER] + old(free)
      ensures chunkCount == old(chunkCount) + 1 && Kept(old(heap), heap, old(out), chunkSize)
    {
      hide Linked, NoDup;
      var a := target - HEADER;
      HeaderKeeps(heap, home, areas, length, chunkSize, out, a, head);
      Push(heap, head, free, a);
      assert Members([a] + free) == {a} + Members(free);
      heap := heap[a := head];
      head := a;
      chunkCount := chunkCount + 1;
      out, free := out - {a}, [a] + free;
    }

    // The owner of a chunk writes into it: neither the free list nor any other chunk notices.
    method Write(target: nat, k: nat, v: nat)
      requires Valid() && HEADER <= target && target - HEADER in out && k < chunkSize
      modifies this`heap
      ensures Valid() && Payload(heap, target - HEADER, chunkSize) == Payload(old(heap), target - HEADER, chunkSize)[k := v]
      ensures Kept(old(heap), heap, out - {target - HEADER}, chunkSize)
    {
      hide NoDup;
      PayloadKeeps(heap, home, areas, length, chunkSize, head, free, out, target - HEADER, k, v);
      heap := heap[target + k := v];
    }

    // Hand out a chunk with its payload cleared.
    method Calloc(arena: Option<nat>) returns (r: Option<nat>)
      requires Valid()
      requires arena.Some? ==> FreshArena(arena.value, heap, areas, length)
      modifies this
      ensures Valid()
      ensures r.None? <==> old(chunkCount) == 0 && arena.None?
      ensures r.Some? ==>
        && HEADER < r.value && r.value - HEADER in home && r.value - HEADER !in old(out) && out == old(out) + {r.value - HEADER}
        && Payload(heap, r.value - HEADER, chunkSize) == seq(chunkSize, _ => 0)
      ensures old(chunkCount) > 0 ==> home == old(home) && r.value == old(free)[0] + HEADER && free == old(free)[1..]
      ensures r.Some? && old(chunkCount) == 0 ==>
        && areas == old(areas) + [arena.value] && r.value == arena.value + HEADER
        && chunkCount == length / (HEADER + chunkSize) - 1
      ensures Kept(old(heap), heap, old(out), chunkSize)
    {
      hide Carved, Linked, NoDup, Payload;
      r := Alloc(arena);
      if r.None? { return; }
      var a := r.value - HEADER;
      ghost var given, list, count, places, arenas := heap, free, chunkCount, home, areas;
      var i := 0;
      while i < chunkSize
        invariant i <= chunkSize && Valid() && out == old(out) + {a} && a in home
        invariant free == list && chunkCount == count && home == places && areas == arenas
        invariant forall k :: 0 <= k < i ==> Payload(heap, a, chunkSize)[k] == 0
        invariant Kept(given, heap, old(out), chunkSize)
      {
        Write(r.value, i, 0);
        assert out - {a} == old(out);
        i := i + 1;
      }
    }
  }

  // A fresh arena is apart from every payload.
  lemma ThreadKeeps(heap0: Heap, heap: Heap, chunks: seq<nat>, p: nat, home: map<nat, nat>, areas: seq<nat>, length: nat, size: nat)
    requires Thread(heap0, heap, chunks, p, length, HEADER + size) && Carved(home, areas, length, HEADER + size)
    requires forall i :: 0 <= i < |areas| ==> Apart(areas[i], p, length)
    ensures Kept(heap0, heap, home.Keys, size)
  {
    forall a | a in home ensures Payload(heap, a, size) == Payload(heap0, a, size) {
      assert Apart(areas[home[a]], p, length);
    }
  }

  lemma PayloadElsewhere(heap: Heap, at: nat, v: nat, a: nat, size: nat)
    requires at < a + HEADER || a + HEADER + size <= at
    ensures Payload(heap[at := v], a, size) == Payload(heap, a, size)
  {
  }

  // No header lies in a payload.
  lemma HeaderKeeps(heap: Heap, home: map<nat, nat>, areas: seq<nat>, length: nat, size: nat, out: set<nat>, a: nat, v: nat)
    requires Carved(home, areas, length, HEADER + size) && out <= home.Keys && a in home
    ensures Kept(heap, heap[a := v], out, size)
  {
    forall b | b in out ensures Payload(heap[a := v], b, size) == Payload(heap, b, size) {
      if b != a { assert Apart(a, b, HEADER + size); }
      PayloadElsewhere(heap, a, v, b, size);
    }
  }

  // A write into a payload misses every header on the free list and every other payload.
  lemma PayloadKeeps(heap: Heap, home: map<nat, nat>, areas: seq<nat>, length: nat, size: nat, head: nat, free: seq<nat>,
                     out: set<nat>, a: nat, k: nat, v: nat)
    requires Carved(home, areas, length, HEADER + size) && Linked(heap, head, free)
    requires a in out && out + Members(free) == home.Keys && out !! Members(free) && k < size
    ensures Linked(heap[a + HEADER + k := v], head, free) && Kept(heap, heap[a + HEADER + k := v], out - {a}, size)
    ensures Payload(heap[a + HEADER + k := v], a, size) == Payload(heap, a, size)[k := v]
  {
    var after := heap[a + HEADER + k := v];
    forall i | 0 <= i < |free| ensures LinkAt(after, free, i) {
      assert LinkAt(heap, free, i) && free[i] in Members(free) && Apart(a, free[i], HEADER + size);
    }
    forall b | b in out - {a} ensures Payload(after, b, size) == Payload(heap, b, size) {
      assert Apart(a, b, HEADER + size);
      PayloadElsewhere(heap, a + HEADER + k, v, b, size);
    }
  }

  lemma NothingWritten(a: nat)
    ensures At(map[], a) == 0
  {
  }

  lemma NothingCarved(length: nat, stride: nat)
    ensures Carved(map[], [], length, stride)
  {
  }

  lemma HomesKeys(chunks: seq<nat>, area: nat)
    ensures Homes(chunks, area).Keys == Members(chunks)
  {
  }

  lemma LastCleared(heap0: Heap, heap: Heap, chunks: seq<nat>, p: nat, length: nat, stride: nat)
    requires Thread(heap0, heap, chunks, p, length, stride) && 0 < stride && At(heap0, chunks[|chunks| - 1]) == 0
    ensures Thread(heap0, heap[chunks[|chunks| - 1] := 0], chunks, p, length, stride)
    ensures At(heap[chunks[|chunks| - 1] := 0], chunks[|chunks| - 1]) == 0
  {
    var last := chunks[|chunks| - 1];
    forall k | 0 <= k < |chunks| - 1 ensures At(heap[last := 0], chunks[k]) == chunks[k + 1] {
      SpacedApart(chunks, stride, k, |chunks| - 1);
    }
  }

  lemma LastStaysZero(heap0: Heap, heap: Heap, chunks: seq<nat>, p: nat, areas: seq<nat>, length: nat, stride: nat)
    requires Thread(heap0, heap, chunks, p, length, stride) && FreshArena(p, heap0, areas, length) && 0 < stride
    ensures At(heap, chunks[|chunks| - 1]) == 0 && 0 < p && forall i :: 0 <= i < |areas| ==> Apart(areas[i], p, length)
  {
  }

  lemma ThreadPlaces(heap0: Heap, heap: Heap, chunks: seq<nat>, p: nat, length: nat, stride: nat)
    requires Thread(heap0, heap, chunks, p, length, stride)
    ensures Spaced(chunks, stride) && forall k :: 0 <= k < |chunks| ==> p <= chunks[k] && chunks[k] + stride <= p + length
  {
  }

  lemma Pop(heap: Heap, head: nat, free: seq<nat>)
    requires Linked(heap, head, free) && NoDup(free) && free != []
    ensures head == free[0] != 0 && Linked(heap, At(heap, head), free[1..]) && NoDup(free[1..]) && head !in free[1..]
  {
    var rest := free[1..];
    assert LinkAt(heap, free, 0);
    forall k | 0 <= k < |rest| ensures LinkAt(heap, rest, k) {
      assert LinkAt(heap, free, k + 1);
    }
  }

  lemma Push(heap: Heap, head: nat, free: seq<nat>, a: nat)
    requires Linked(heap, head, free) && NoDup(free) && a !in free && a != 0
    ensures Linked(heap[a := head], a, [a] + free) && NoDup([a] + free)
  {
    var after := [a] + free;
    var linked := heap[a := head];
    forall k | 0 <= k < |after| ensures LinkAt(linked, after, k) {
      if k > 0 { assert LinkAt(heap, free, k - 1) && free[k - 1] in free; }
    }
    assert after[1..] == free;
  }

  lemma Whole(size: nat, stride: nat)
    requires 0 < stride <= size
    ensures 0 < size / stride && (size / stride) * stride <= size
  {
    DivPositive(size, stride);
  }

  // Chunks handed out never overlap each other, and lie inside an arena, header and all.
  lemma HandedOutApart(pool: Pool, a: nat, b: nat)
    requires pool.Valid() && a in pool.out && b in pool.out
    ensures a != b ==> Apart(a, b, HEADER + pool.chunkSize)
    ensures exists i :: 0 <= i < |pool.areas| && pool.areas[i] <= a && a + HEADER + pool.chunkSize <= pool.areas[i] + pool.length
  {
    var i := pool.home[a];
    assert pool.areas[i] <= a;
  }

  // Nothing is lost: the free chunks and the chunks handed out are all there is.
  lemma ChunksConserved(pool: Pool)
    requires pool.Valid()
    ensures pool.chunkCount + |pool.out| == |pool.home|
  {
    hide Linked, Carved;
    var s := Members(pool.free);
    NoDupSize(pool.free);
    assert |pool.out + s| == |pool.out| + |s|;
    assert pool.home.Keys == pool.out + s;
    assert |pool.home| == |pool.home.Keys|;
  }

  lemma {:induction false} NoDupSize(s: seq<nat>)
    requires NoDup(s)
    ensures |Members(s)| == |s|
    decreases |s|
  {
    if s != [] {
      NoDupSize(s[1..]);
      assert Members(s) == {s[0]} + Members(s[1..]);
    }
  }
}
