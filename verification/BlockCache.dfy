// The block cache: live entries and a history of evicted ones in shared hash buckets, against a
// bounded map that forgets the key inserted first.
module BlockCache {
  import opened Lists
  import opened Options

  // An entry. Entries are told apart by the order in which they were allocated.
  datatype Node<V> = Node(key: nat, value: V, alive: bool, freq: nat)

  type Id = nat

  // ----- lists -----

  ghost predicate Decreasing(s: seq<Id>) {
    s == [] || ((forall y :: y in s[1..] ==> y < s[0]) && Decreasing(s[1..]))
  }

  lemma {:induction false} DecreasingNoDup(s: seq<Id>)
    requires Decreasing(s)
    ensures NoDup(s)
    decreases |s|
  {
    if s != [] { DecreasingNoDup(s[1..]); }
  }

  lemma Prepend(x: Id, s: seq<Id>)
    ensures NoDup(s) && x !in s ==> NoDup([x] + s)
    ensures Decreasing(s) && (forall y :: y in s ==> y < x) ==> Decreasing([x] + s)
    ensures forall y :: y in [x] + s <==> y == x || y in s
  {
    assert ([x] + s)[1..] == s;
  }

  // Unlinking one element.
  function Without(s: seq<Id>, x: Id): (r: seq<Id>) {
    if s == [] then [] else if s[0] == x then s[1..] else [s[0]] + Without(s[1..], x)
  }

  lemma {:induction false} WithoutNoDup(s: seq<Id>, x: Id)
    requires NoDup(s)
    ensures NoDup(Without(s, x)) && |Without(s, x)| == (if x in s then |s| - 1 else |s|)
    ensures forall y :: y in Without(s, x) <==> y in s && y != x
    decreases |s|
  {
    if s != [] && s[0] != x {
      WithoutNoDup(s[1..], x);
      Prepend(s[0], Without(s[1..], x));
    }
  }

  lemma {:induction false} WithoutDecreasing(s: seq<Id>, x: Id)
    requires Decreasing(s)
    ensures Decreasing(Without(s, x)) && |Without(s, x)| == (if x in s then |s| - 1 else |s|)
    ensures forall y :: y in Without(s, x) <==> y in s && y != x
    decreases |s|
  {
    DecreasingNoDup(s);
    WithoutNoDup(s, x);
    if s != [] && s[0] != x {
      WithoutDecreasing(s[1..], x);
      Prepend(s[0], Without(s[1..], x));
    }
  }

  // ----- what every operation keeps -----

  type Nodes<V> = map<Id, Node<V>>

  // The live list holds the live entries, the newest first; the history holds the others.
  ghost predicate ListsOk<V>(nodes: Nodes<V>, live: seq<Id>, ghosts: seq<Id>) {
    && Decreasing(live) && NoDup(ghosts)
    && (forall i :: i in live <==> i in nodes && nodes[i].alive)
    && (forall i :: i in ghosts <==> i in nodes && !nodes[i].alive)
  }

  // Every bucket holds the entries that hash to it, the newest first.
  ghost predicate BucketsOk<V>(nodes: Nodes<V>, buckets: seq<seq<Id>>, hash: nat -> nat) {
    && (forall k :: hash(k) < |buckets|)
    && (forall b :: 0 <= b < |buckets| ==> BucketOk(nodes, buckets[b], b, hash))
  }

  ghost predicate BucketOk<V>(nodes: Nodes<V>, bucket: seq<Id>, b: nat, hash: nat -> nat) {
    Decreasing(bucket) && forall i :: i in bucket <==> i in nodes && hash(nodes[i].key) == b
  }

  // `latest` names the newest entry of every key in memory; only that entry may be live.
  ghost predicate Indexed<V>(nodes: Nodes<V>, latest: map<nat, Id>, next: Id) {
    && (forall i :: i in nodes ==> i < next && nodes[i].key in latest && i <= latest[nodes[i].key])
    && (forall i :: i in nodes && nodes[i].alive ==> i == latest[nodes[i].key])
    && (forall k :: k in latest ==> latest[k] in nodes && nodes[latest[k]].key == k)
  }

  // In the history, the entries of one key stand the newest first.
  ghost predicate GhostOrder<V>(nodes: Nodes<V>, ghosts: seq<Id>) {
    ghosts == [] ||
    (&& ghosts[0] in nodes && GhostOrder(nodes, ghosts[1..])
     && (forall y :: y in ghosts[1..] && y in nodes && nodes[y].key == nodes[ghosts[0]].key ==> y < ghosts[0]))
  }

  lemma {:induction false} GhostOrderSame<V>(nodes: Nodes<V>, after: Nodes<V>, ghosts: seq<Id>)
    requires GhostOrder(nodes, ghosts)
    requires forall i :: i in ghosts ==> i in nodes && i in after && nodes[i].key == after[i].key
    ensures GhostOrder(after, ghosts)
    decreases |ghosts|
  {
    if ghosts != [] { GhostOrderSame(nodes, after, ghosts[1..]); }
  }

  lemma {:induction false} GhostOrderWithout<V>(nodes: Nodes<V>, ghosts: seq<Id>, x: Id)
    requires GhostOrder(nodes, ghosts) && NoDup(ghosts)
    ensures GhostOrder(nodes, Without(ghosts, x))
    decreases |ghosts|
  {
    if ghosts != [] && ghosts[0] != x {
      GhostOrderWithout(nodes, ghosts[1..], x);
      WithoutNoDup(ghosts[1..], x);
      assert Without(ghosts, x)[1..] == Without(ghosts[1..], x);
    }
  }

  lemma {:induction false} LastIsOldest<V>(nodes: Nodes<V>, ghosts: seq<Id>, y: Id)
    requires GhostOrder(nodes, ghosts) && NoDup(ghosts) && ghosts != [] && y in ghosts
    requires forall i :: i in ghosts ==> i in nodes
    requires nodes[y].key == nodes[ghosts[|ghosts| - 1]].key
    ensures ghosts[|ghosts| - 1] <= y
    decreases |ghosts|
  {
    if |ghosts| > 1 {
      var last := ghosts[|ghosts| - 1];
      assert ghosts[1..][|ghosts| - 2] == last;
      if y == ghosts[0] { assert last in ghosts[1..]; } else { LastIsOldest(nodes, ghosts[1..], y); }
    }
  }

  // ----- eviction -----

  lemma EvictLists<V>(nodes: Nodes<V>, live: seq<Id>, ghosts: seq<Id>, x: Id)
    requires ListsOk(nodes, live, ghosts) && x in live
    ensures ListsOk(nodes[x := nodes[x].(alive := false)], Without(live, x), [x] + ghosts)
    ensures |Without(live, x)| == |live| - 1
  {
    WithoutDecreasing(live, x);
    Prepend(x, ghosts);
  }

  lemma EvictBuckets<V>(nodes: Nodes<V>, buckets: seq<seq<Id>>, hash: nat -> nat, x: Id)
    requires BucketsOk(nodes, buckets, hash) && x in nodes
    ensures BucketsOk(nodes[x := nodes[x].(alive := false)], buckets, hash)
  {
    SameBuckets(nodes, nodes[x := nodes[x].(alive := false)], buckets, hash);
  }

  lemma EvictGhosts<V>(nodes: Nodes<V>, ghosts: seq<Id>, latest: map<nat, Id>, next: Id, x: Id)
    requires Indexed(nodes, latest, next) && GhostOrder(nodes, ghosts) && x in nodes && nodes[x].alive
    requires forall i :: i in ghosts ==> i in nodes && i != x
    ensures GhostOrder(nodes[x := nodes[x].(alive := false)], [x] + ghosts)
  {
    GhostOrderSame(nodes, nodes[x := nodes[x].(alive := false)], ghosts);
    assert ([x] + ghosts)[1..] == ghosts;
  }

  lemma LiveIsNode<V>(nodes: Nodes<V>, live: seq<Id>, ghosts: seq<Id>, x: Id)
    requires ListsOk(nodes, live, ghosts) && x in live
    ensures x in nodes && nodes[x].alive && |live| > 0 && forall i :: i in ghosts ==> i in nodes && i != x
  {
  }

  // ----- forgetting a ghost -----

  lemma DropLists<V>(nodes: Nodes<V>, live: seq<Id>, ghosts: seq<Id>, x: Id)
    requires ListsOk(nodes, live, ghosts) && GhostOrder(nodes, ghosts) && x in ghosts
    ensures ListsOk(nodes - {x}, live, Without(ghosts, x)) && |Without(ghosts, x)| == |ghosts| - 1
    ensures GhostOrder(nodes - {x}, Without(ghosts, x))
  {
    WithoutNoDup(ghosts, x);
    GhostOrderWithout(nodes, ghosts, x);
    GhostOrderSame(nodes, nodes - {x}, Without(ghosts, x));
  }

  lemma DropBuckets<V>(nodes: Nodes<V>, buckets: seq<seq<Id>>, hash: nat -> nat, x: Id)
    requires BucketsOk(nodes, buckets, hash) && x in nodes
    ensures
      var b := hash(nodes[x].key);
      BucketsOk(nodes - {x}, buckets[b := Without(buckets[b], x)], hash)
  {
    hide Without;
    var b := hash(nodes[x].key);
    assert BucketOk(nodes, buckets[b], b, hash);
    WithoutDecreasing(buckets[b], x);
    var after := buckets[b := Without(buckets[b], x)];
    forall c | 0 <= c < |after| ensures BucketOk(nodes - {x}, after[c], c, hash) {
      assert BucketOk(nodes, buckets[c], c, hash);
    }
  }

  // The entry that leaves the history is the oldest of its key, so the key goes only with its
  // newest entry.
  lemma DropIndexed<V>(nodes: Nodes<V>, latest: map<nat, Id>, next: Id, x: Id)
    requires Indexed(nodes, latest, next) && x in nodes
    requires forall j :: j in nodes && nodes[j].key == nodes[x].key ==> x <= j
    ensures
      var key := nodes[x].key;
      Indexed(nodes - {x}, if latest[key] == x then latest - {key} else latest, next)
  {
  }

  // ----- a new entry -----

  lemma AddLists<V>(nodes: Nodes<V>, live: seq<Id>, ghosts: seq<Id>, next: Id, n: Node<V>)
    requires ListsOk(nodes, live, ghosts) && GhostOrder(nodes, ghosts) && n.alive && forall i :: i in nodes ==> i < next
    ensures ListsOk(nodes[next := n], [next] + live, ghosts) && GhostOrder(nodes[next := n], ghosts)
  {
    Prepend(next, live);
    GhostOrderSame(nodes, nodes[next := n], ghosts);
  }

  lemma AddBuckets<V>(nodes: Nodes<V>, buckets: seq<seq<Id>>, next: Id, hash: nat -> nat, n: Node<V>)
    requires BucketsOk(nodes, buckets, hash) && forall i :: i in nodes ==> i < next
    ensures
      var b := hash(n.key);
      BucketsOk(nodes[next := n], buckets[b := [next] + buckets[b]], hash)
  {
    var b := hash(n.key);
    assert BucketOk(nodes, buckets[b], b, hash);
    Prepend(next, buckets[b]);
    var after := buckets[b := [next] + buckets[b]];
    forall c | 0 <= c < |after| ensures BucketOk(nodes[next := n], after[c], c, hash) {
      assert BucketOk(nodes, buckets[c], c, hash);
    }
  }

  // A key that is not live gets a new entry, which may take the place of its newest one.
  lemma AddIndexed<V>(nodes: Nodes<V>, latest: map<nat, Id>, next: Id, n: Node<V>, gone: set<Id>)
    requires Indexed(nodes, latest, next) && forall i :: i in nodes && nodes[i].key == n.key ==> !nodes[i].alive
    requires forall i :: i in gone ==> i in nodes && nodes[i].key == n.key
    ensures Indexed((nodes - gone)[next := n], latest[n.key := next], next + 1)
  {
  }

  // ----- the bounded map -----

  datatype Binding<V> = Binding(key: nat, value: V)

  // The bindings, the one inserted last first.
  type Order<V> = seq<Binding<V>>

  function Lookup<V>(o: Order<V>, key: nat): Option<V> {
    if o == [] then None else if o[0].key == key then Some(o[0].value) else Lookup(o[1..], key)
  }

  function Erase<V>(o: Order<V>, key: nat): Order<V> {
    if o == [] then [] else if o[0].key == key then o[1..] else [o[0]] + Erase(o[1..], key)
  }

  // A put displaces the binding of the key, or else, in a full map, the one inserted first.
  function PutSpec<V>(o: Order<V>, capacity: nat, key: nat, value: V): (Order<V>, Option<V>) {
    var top := [Binding(key, value)];
    if Lookup(o, key).Some? then (top + Erase(o, key), Lookup(o, key))
    else if |o| == capacity && o != [] then (top + o[..|o| - 1], Some(o[|o| - 1].value))
    else (top + o, None)
  }

  // The bindings of the live entries.
  function View<V>(nodes: Nodes<V>, live: seq<Id>): (o: Order<V>)
    requires forall i :: i in live ==> i in nodes
    ensures |o| == |live|
  {
    if live == [] then [] else [Binding(nodes[live[0]].key, nodes[live[0]].value)] + View(nodes, live[1..])
  }

  lemma {:induction false} ViewAt<V>(nodes: Nodes<V>, live: seq<Id>, k: nat)
    requires (forall i :: i in live ==> i in nodes) && k < |live|
    ensures View(nodes, live)[k] == Binding(nodes[live[k]].key, nodes[live[k]].value)
    decreases |live|
  {
    if k > 0 { ViewAt(nodes, live[1..], k - 1); }
  }

  lemma ViewSame<V>(nodes: Nodes<V>, after: Nodes<V>, live: seq<Id>)
    requires forall i :: i in live ==> i in nodes && i in after
    requires forall i :: i in live ==> nodes[i].key == after[i].key && nodes[i].value == after[i].value
    ensures View(nodes, live) == View(after, live)
  {
    forall k | 0 <= k < |live| ensures View(nodes, live)[k] == View(after, live)[k] {
      ViewAt(nodes, live, k);
      ViewAt(after, live, k);
    }
  }

  // Looking a key up in the bounded map finds its live entry.
  lemma {:induction false} ViewLookup<V>(nodes: Nodes<V>, live: seq<Id>, key: nat)
    requires forall i :: i in live ==> i in nodes
    ensures Lookup(View(nodes, live), key).None? ==> forall i :: i in live ==> nodes[i].key != key
    ensures Lookup(View(nodes, live), key).Some? ==>
      exists i :: i in live && nodes[i].key == key && Lookup(View(nodes, live), key) == Some(nodes[i].value)
    decreases |live|
  {
    if live != [] {
      var o := View(nodes, live);
      assert o[1..] == View(nodes, live[1..]);
      ViewLookup(nodes, live[1..], key);
      if o[0].key == key { assert live[0] in live; }
    }
  }

  // Keys are live once.
  ghost predicate LiveOnce<V>(nodes: Nodes<V>, live: seq<Id>) {
    && (forall i :: i in live ==> i in nodes)
    && (forall i, j :: i in live && j in live && nodes[i].key == nodes[j].key ==> i == j)
  }

  // Unlinking a live entry erases its binding.
  lemma {:induction false} ViewWithout<V>(nodes: Nodes<V>, live: seq<Id>, x: Id)
    requires LiveOnce(nodes, live) && x in live && NoDup(live)
    ensures forall i :: i in Without(live, x) ==> i in nodes
    ensures View(nodes, Without(live, x)) == Erase(View(nodes, live), nodes[x].key)
    ensures Lookup(View(nodes, live), nodes[x].key) == Some(nodes[x].value)
    decreases |live|
  {
    WithoutNoDup(live, x);
    var o := View(nodes, live);
    assert o[1..] == View(nodes, live[1..]);
    if live[0] != x {
      assert x in live[1..];
      ViewWithout(nodes, live[1..], x);
      assert Without(live, x)[1..] == Without(live[1..], x);
      assert live[0] in live;
    }
  }

  lemma {:induction false} WithoutLast(s: seq<Id>)
    requires s != [] && NoDup(s)
    ensures Without(s, s[|s| - 1]) == s[..|s| - 1]
    decreases |s|
  {
    if |s| > 1 {
      assert s[1..][|s| - 2] == s[|s| - 1];
      WithoutLast(s[1..]);
      assert [s[0]] + s[1..][..|s| - 2] == s[..|s| - 1];
    }
  }

  lemma {:induction false} ViewFront<V>(nodes: Nodes<V>, live: seq<Id>)
    requires live != [] && forall i :: i in live ==> i in nodes
    ensures View(nodes, live[..|live| - 1]) == View(nodes, live)[..|live| - 1]
    decreases |live|
  {
    if |live| > 1 {
      assert live[..|live| - 1][1..] == live[1..][..|live| - 2];
      ViewFront(nodes, live[1..]);
    }
  }

  // ----- frequencies -----

  // `count` gives, for each key in memory, the puts and updating hits since it was first inserted
  // or last replaced in place; the newest entry of the key carries that number.
  ghost predicate Counted<V>(nodes: Nodes<V>, latest: map<nat, Id>, count: map<nat, nat>) {
    && count.Keys == latest.Keys
    && (forall k :: k in latest ==> latest[k] in nodes && nodes[latest[k]].freq == count[k])
  }

  lemma CountedKeys<V>(nodes: Nodes<V>, latest: map<nat, Id>, count: map<nat, nat>)
    requires Counted(nodes, latest, count)
    ensures count.Keys == latest.Keys
  {
  }

  lemma EvictIndexed<V>(nodes: Nodes<V>, latest: map<nat, Id>, count: map<nat, nat>, next: Id, x: Id)
    requires Indexed(nodes, latest, next) && Counted(nodes, latest, count) && x in nodes
    ensures Indexed(nodes[x := nodes[x].(alive := false)], latest, next)
    ensures Counted(nodes[x := nodes[x].(alive := false)], latest, count)
  {
  }

  lemma LiveIsOnce<V>(nodes: Nodes<V>, live: seq<Id>, ghosts: seq<Id>, latest: map<nat, Id>, next: Id)
    requires ListsOk(nodes, live, ghosts) && Indexed(nodes, latest, next)
    ensures LiveOnce(nodes, live) && NoDup(live)
  {
    DecreasingNoDup(live);
  }

  // The counts without the key of the oldest history entry, unless the key has a newer entry.
  ghost function WithoutOldest<V>(nodes: Nodes<V>, ghosts: seq<Id>, latest: map<nat, Id>, count: map<nat, nat>): map<nat, nat> {
    if ghosts == [] || ghosts[|ghosts| - 1] !in nodes then count
    else
      var x := ghosts[|ghosts| - 1];
      var key := nodes[x].key;
      if key in latest && latest[key] == x then count - {key} else count
  }

  // A put does not change which history entry is the oldest.
  lemma SameOldest<V>(before: Nodes<V>, after: Nodes<V>, live: seq<Id>, ghosts: seq<Id>, grown: seq<Id>,
                      latest: map<nat, Id>, count: map<nat, nat>, next: Id, key: nat)
    requires ListsOk(before, live, ghosts) && ghosts != [] && |grown| == |ghosts| + 1 && grown[1..] == ghosts
    requires (forall i :: i in before ==> i < next && i in after && after[i].key == before[i].key)
    requires key in latest ==> latest[key] in before && before[latest[key]].alive
    ensures WithoutOldest(after, grown, latest[key := next], count) == WithoutOldest(before, ghosts, latest, count)
  {
    var x := ghosts[|ghosts| - 1];
    assert grown[1..][|ghosts| - 1] == x && x in ghosts;
  }

  // What a put makes of the counts: a key that is remembered and was not replaced in place goes on
  // counting, any other key starts over.
  ghost function Counting(count: map<nat, nat>, key: nat, inPlace: bool): map<nat, nat> {
    count[key := if key in count && !inPlace then count[key] + 1 else 1]
  }

  class Cache<V(==)> {
    const capacity: nat
    const hash: nat -> nat
    var nodes: Nodes<V>
    var live: seq<Id>
    var ghosts: seq<Id>
    var buckets: seq<seq<Id>>
    var size: nat
    var ghostSize: nat
    var next: Id
    ghost var latest: map<nat, Id>
    ghost var count: map<nat, nat>

    ghost predicate Struct()
      reads this
    {
      && ListsOk(nodes, live, ghosts) && BucketsOk(nodes, buckets, hash) && GhostOrder(nodes, ghosts)
      && (forall i :: i in nodes ==> i < next)
      && size == |live| && ghostSize == |ghosts|
    }

    ghost predicate Valid()
      reads this
    {
      && Struct() && Indexed(nodes, latest, next) && Counted(nodes, latest, count)
      && 0 < capacity && size <= capacity && ghostSize <= capacity
    }

    // The bounded map the cache stands for.
    ghost function Contents(): Order<V>
      reads this
      requires Struct()
    {
      View(nodes, live)
    }

    constructor (capacity: nat, buckets: nat, hash: nat -> nat)
      requires 0 < capacity && forall k :: hash(k) < buckets
      ensures Valid() && Contents() == [] && count == map[] && this.capacity == capacity
    {
      this.capacity, this.hash := capacity, hash;
      nodes, live, ghosts, size, ghostSize, next := map[], [], [], 0, 0, 0;
      this.buckets := seq(buckets, _ => []);
      latest, count := map[], map[];
    }

    // The first entry of a key in its bucket, or -1.
    method Find(key: nat) returns (r: int)
      requires Struct() && Indexed(nodes, latest, next)
      ensures r < 0 ==> key !in latest
      ensures r >= 0 ==> key in latest && r == latest[key] && r in nodes
    {
      var rest := buckets[hash(key)];
      assert BucketOk(nodes, rest, hash(key), hash);
      while rest != []
        invariant Decreasing(rest) && forall i :: i in rest ==> i in nodes
        invariant forall i :: i in nodes && nodes[i].key == key ==> i in rest
      {
        if nodes[rest[0]].key == key {
          assert latest[key] in rest && rest == [rest[0]] + rest[1..];
          return rest[0];
        }
        rest := rest[1..];
      }
      r := -1;
    }

    // The live entry of a key, or -1.
    method FindLive(key: nat) returns (i: int)
      requires Struct() && Indexed(nodes, latest, next)
      ensures i < 0 ==> Lookup(Contents(), key) == None
      ensures i >= 0 ==> i in nodes && nodes[i].alive && nodes[i].key == key && latest[key] == i
      ensures i >= 0 ==> Lookup(Contents(), key) == Some(nodes[i].value)
    {
      hide ListsOk, BucketsOk, GhostOrder;
      LookupIsLatest(nodes, live, ghosts, latest, next, key);
      i := Find(key);
      if i >= 0 && !nodes[i].alive { i := -1; }
    }

    // A lookup finds what the bounded map holds; an updating hit is counted.
    method Get(key: nat, update: bool) returns (r: Option<V>)
      requires Valid()
      modifies this`nodes, this`count
      ensures Valid() && Contents() == old(Contents()) && r == Lookup(Contents(), key)
      ensures r.Some? ==> key in old(count)
      ensures count == if r.Some? && update then old(count)[key := old(count)[key] + 1] else old(count)
    {
      hide ListsOk, BucketsOk, GhostOrder, Decreasing, Indexed, Counted, View, Lookup;
      var i := FindLive(key);
      if i < 0 { return None; }
      r := Some(nodes[i].value);
      HitKeeps(nodes, live, ghosts, buckets, hash, latest, count, next, i);
      if update {
        nodes := nodes[i := nodes[i].(freq := nodes[i].freq + 1)];
        count := count[key := count[key] + 1];
      }
    }

    // The frequency of a live key is its count.
    method Freq(key: nat) returns (f: nat)
      requires Valid()
      ensures Lookup(Contents(), key).Some? ==> key in count && f == count[key]
      ensures Lookup(Contents(), key).None? ==> f == 0
    {
      hide ListsOk, BucketsOk, GhostOrder, Decreasing;
      var i := FindLive(key);
      if i < 0 { return 0; }
      f := nodes[i].freq;
    }

    // Move a live entry to the history.
    method Evict(x: Id) returns (value: V)
      requires Struct() && Indexed(nodes, latest, next) && Counted(nodes, latest, count) && x in live
      modifies this`nodes, this`live, this`ghosts, this`size, this`ghostSize
      ensures Struct() && Indexed(nodes, latest, next) && Counted(nodes, latest, count)
      ensures size == old(size) - 1 && ghostSize == old(ghostSize) + 1
      ensures x in old(nodes) && value == old(nodes)[x].value && nodes == old(nodes)[x := old(nodes)[x].(alive := false)]
      ensures live == Without(old(live), x) && ghosts == [x] + old(ghosts)
    {
      hide Without, Decreasing, NoDup, GhostOrder, ListsOk, BucketsOk, Indexed, Counted;
      LiveIsNode(nodes, live, ghosts, x);
      EvictLists(nodes, live, ghosts, x);
      EvictBuckets(nodes, buckets, hash, x);
      EvictGhosts(nodes, ghosts, latest, next, x);
      EvictIndexed(nodes, latest, count, next, x);
      value := nodes[x].value;
      nodes := nodes[x := nodes[x].(alive := false)];
      live, size := Without(live, x), size - 1;
      ghosts, ghostSize := [x] + ghosts, ghostSize + 1;
    }

    // Take an entry out of the history and out of its bucket.
    method Unlink(x: Id)
      requires Struct() && x in ghosts
      modifies this`nodes, this`ghosts, this`buckets, this`ghostSize
      ensures Struct() && ghostSize == old(ghostSize) - 1 && nodes == old(nodes) - {x} && ghosts == Without(old(ghosts), x)
    {
      hide Without, Decreasing, NoDup, GhostOrder;
      DropLists(nodes, live, ghosts, x);
      DropBuckets(nodes, buckets, hash, x);
      var b := hash(nodes[x].key);
      buckets := buckets[b := Without(buckets[b], x)];
      ghosts, ghostSize := Without(ghosts, x), ghostSize - 1;
      nodes := nodes - {x};
    }

    // Put a new entry at the front of the live list and of its bucket.
    method Link(n: Node<V>)
      requires Struct() && n.alive
      modifies this`nodes, this`live, this`buckets, this`size, this`next
      ensures Struct() && size == old(size) + 1 && next == old(next) + 1
      ensures nodes == old(nodes)[old(next) := n] && live == [old(next)] + old(live)
    {
      hide Decreasing, NoDup, GhostOrder;
      AddLists(nodes, live, ghosts, next, n);
      AddBuckets(nodes, buckets, next, hash, n);
      var b := hash(n.key);
      buckets := buckets[b := [next] + buckets[b]];
      live, size := [next] + live, size + 1;
      nodes, next := nodes[next := n], next + 1;
    }

    // Drop the oldest history once there is too much of it.
    method GhostListUpdate()
      requires Struct() && Indexed(nodes, latest, next) && Counted(nodes, latest, count) && ghostSize <= capacity + 1
      modifies this`nodes, this`ghosts, this`buckets, this`ghostSize, this`latest, this`count
      ensures Struct() && Indexed(nodes, latest, next) && Counted(nodes, latest, count) && ghostSize <= capacity
      ensures Contents() == old(Contents())
      ensures old(ghostSize) <= capacity ==> unchanged(this)
      ensures old(ghostSize) > capacity ==>
        && count == WithoutOldest(old(nodes), old(ghosts), old(latest), old(count))
        && forall k :: k in old(count) && k !in count ==> Lookup(Contents(), k).None?
    {
      hide ListsOk, BucketsOk, GhostOrder, Indexed, Counted, View, Lookup;
      if ghostSize <= capacity { return; }
      var x := ghosts[|ghosts| - 1];
      TrimKeeps(nodes, live, ghosts, latest, count, next);
      ghost var key := nodes[x].key;
      Unlink(x);
      if latest[key] == x {
        latest, count := latest - {key}, count - {key};
      }
    }

    // Find what the key has to do with the cache, and evict what a put of it displaces.
    method MakeRoom(key: nat) returns (revived: int, displaced: Option<V>)
      requires Valid()
      modifies this`nodes, this`live, this`ghosts, this`size, this`ghostSize
      ensures Struct() && Indexed(nodes, latest, next) && Counted(nodes, latest, count)
      ensures size < capacity && ghostSize <= capacity + 1
      ensures forall value :: PutSpec(old(Contents()), capacity, key, value) == ([Binding(key, value)] + Contents(), displaced)
      ensures key in latest ==> latest[key] in nodes && !nodes[latest[key]].alive
      ensures revived >= 0 <==> key in latest && Lookup(old(Contents()), key).None?
      ensures revived >= 0 ==> revived == latest[key] && revived in nodes
      ensures ghostSize == old(ghostSize) + (if displaced.Some? then 1 else 0)
      ensures |ghosts| >= |old(ghosts)| && ghosts[|ghosts| - |old(ghosts)|..] == old(ghosts)
      ensures nodes.Keys == old(nodes.Keys) && forall i :: i in nodes ==> nodes[i].key == old(nodes)[i].key
    {
      hide ListsOk, BucketsOk, GhostOrder, Indexed, Counted, View, Lookup, Erase, Without;
      LookupIsLatest(nodes, live, ghosts, latest, next, key);
      LatestIsNode(nodes, latest, next, key);
      revived, displaced := -1, None;
      var replaced := -1;
      var found := Find(key);
      if found >= 0 {
        if nodes[found].alive { replaced := found; } else { revived := found; }
      }
      if replaced < 0 && size == capacity { replaced := live[|live| - 1]; }
      if replaced >= 0 {
        AliveIsLive(nodes, live, ghosts, replaced);
        EvictView(nodes, live, ghosts, latest, next, replaced);
        var v := Evict(replaced);
        displaced := Some(v);
      }
    }

    // Enter a new binding, with the count of the history entry it revives, which goes.
    method Enter(key: nat, value: V, revived: int)
      requires Struct() && Indexed(nodes, latest, next) && Counted(nodes, latest, count)
      requires key in latest ==> latest[key] in nodes && !nodes[latest[key]].alive
      requires revived >= 0 ==> key in latest && revived == latest[key] && revived in nodes
      modifies this`nodes, this`live, this`ghosts, this`buckets, this`size, this`ghostSize, this`next, this`latest, this`count
      ensures Struct() && Indexed(nodes, latest, next) && Counted(nodes, latest, count)
      ensures Contents() == [Binding(key, value)] + old(Contents()) && size == old(size) + 1
      ensures latest == old(latest)[key := old(next)]
      ensures revived >= 0 ==> key in old(count)
      ensures count == old(count)[key := if revived >= 0 then old(count)[key] + 1 else 1]
      ensures revived < 0 ==> ghosts == old(ghosts) && ghostSize == old(ghostSize)
      ensures revived >= 0 ==> ghostSize == old(ghostSize) - 1
      ensures revived < 0 ==> nodes == old(nodes)[old(next) := Node(key, value, true, 1)]
    {
      hide ListsOk, BucketsOk, GhostOrder, Indexed, View, Lookup, Erase, Without;
      var n := Node(key, value, true, if revived >= 0 then nodes[revived].freq + 1 else 1);
      AddKeeps(nodes, live, ghosts, latest, count, next, n, if revived >= 0 then {revived} else {});
      if revived >= 0 {
        HistoryIsGhost(nodes, live, ghosts, revived);
        Unlink(revived);
      } else {
        assert nodes - {} == nodes;
      }
      latest, count := latest[key := next], count[key := n.freq];
      Link(n);
    }

    // A put: the bounded map takes the binding and gives back what it displaces; counting goes on
    // through eviction, and only a full history forgets, the key it has known longest.
    method Put(key: nat, value: V) returns (displaced: Option<V>)
      requires Valid() && Lookup(Contents(), key) != Some(value)
      modifies this
      ensures Valid() && (Contents(), displaced) == PutSpec(old(Contents()), capacity, key, value)
      ensures
        var counts := Counting(old(count), key, Lookup(old(Contents()), key).Some?);
        var revived := key in old(count) && Lookup(old(Contents()), key).None?;
        && count == (if displaced.Some? && !revived && old(ghostSize) == capacity
                     then WithoutOldest(old(nodes), old(ghosts), old(latest), counts) else counts)
        && forall k :: k in counts && k !in count ==> Lookup(Contents(), k).None?
    {
      hide ListsOk, BucketsOk, GhostOrder, Indexed, Counted, View, Lookup, Erase, Without;
      var revived;
      LookupIsLatest(nodes, live, ghosts, latest, next, key);
      CountedKeys(nodes, latest, count);
      revived, displaced := MakeRoom(key);
      Enter(key, value, revived);
      if displaced.Some? && revived < 0 && old(ghostSize) == capacity {
        SameOldest(old(nodes), nodes, old(live), old(ghosts), ghosts, old(latest), count, old(next), key);
      }
      GhostListUpdate();
    }
  }

  lemma LatestIsNode<V>(nodes: Nodes<V>, latest: map<nat, Id>, next: Id, key: nat)
    requires Indexed(nodes, latest, next)
    ensures key in latest ==> latest[key] in nodes && nodes[latest[key]].key == key
  {
  }

  lemma AliveIsLive<V>(nodes: Nodes<V>, live: seq<Id>, ghosts: seq<Id>, x: Id)
    requires ListsOk(nodes, live, ghosts) && ((x in nodes && nodes[x].alive) || x in live)
    ensures x in live && x in nodes
  {
  }

  lemma HistoryIsGhost<V>(nodes: Nodes<V>, live: seq<Id>, ghosts: seq<Id>, x: Id)
    requires ListsOk(nodes, live, ghosts) && x in nodes && !nodes[x].alive
    ensures x in ghosts
  {
  }

  // Evicting an entry erases its binding; for the last entry that is the binding inserted first.
  lemma EvictView<V>(nodes: Nodes<V>, live: seq<Id>, ghosts: seq<Id>, latest: map<nat, Id>, next: Id, x: Id)
    requires ListsOk(nodes, live, ghosts) && Indexed(nodes, latest, next) && x in live
    ensures
      var after := nodes[x := nodes[x].(alive := false)];
      var o := View(nodes, live);
      && (forall i :: i in Without(live, x) ==> i in after)
      && View(after, Without(live, x)) == Erase(o, nodes[x].key)
      && (x == live[|live| - 1] ==> View(after, Without(live, x)) == o[..|o| - 1] && o[|o| - 1].value == nodes[x].value)
  {
    hide View, Erase, Decreasing, Without;
    var after := nodes[x := nodes[x].(alive := false)];
    LiveIsOnce(nodes, live, ghosts, latest, next);
    ViewWithout(nodes, live, x);
    ViewSame(nodes, after, Without(live, x));
    if x == live[|live| - 1] {
      WithoutLast(live);
      ViewFront(nodes, live);
      ViewAt(nodes, live, |live| - 1);
    }
  }

  // Adding an entry for a key that is not live, in place of `gone`, if anything.
  lemma AddKeeps<V>(nodes: Nodes<V>, live: seq<Id>, ghosts: seq<Id>, latest: map<nat, Id>, count: map<nat, nat>, next: Id,
                    n: Node<V>, gone: set<Id>)
    requires ListsOk(nodes, live, ghosts) && Indexed(nodes, latest, next) && Counted(nodes, latest, count)
    requires n.key in latest ==> !nodes[latest[n.key]].alive
    requires gone == {} || (n.key in latest && gone == {latest[n.key]})
    ensures
      var after := (nodes - gone)[next := n];
      && Indexed(after, latest[n.key := next], next + 1) && Counted(after, latest[n.key := next], count[n.key := n.freq])
      && (forall i :: i in [next] + live ==> i in after)
      && View(after, [next] + live) == [Binding(n.key, n.value)] + View(nodes, live)
      && count.Keys == latest.Keys && (forall i :: i in gone ==> nodes[i].freq == count[n.key])
  {
    hide Decreasing, NoDup;
    var after := (nodes - gone)[next := n];
    AddIndexed(nodes, latest, next, n, gone);
    ViewSame(nodes, after, live);
    assert ([next] + live)[1..] == live;
  }

  // Forgetting the last entry of the history leaves the live entries alone, and forgets a key only
  // when it is not live.
  lemma TrimKeeps<V>(nodes: Nodes<V>, live: seq<Id>, ghosts: seq<Id>, latest: map<nat, Id>, count: map<nat, nat>, next: Id)
    requires ListsOk(nodes, live, ghosts) && Indexed(nodes, latest, next) && Counted(nodes, latest, count)
    requires GhostOrder(nodes, ghosts) && ghosts != []
    ensures
      var x := ghosts[|ghosts| - 1];
      && x in nodes && nodes[x].key in latest && nodes[x].key in count && (forall i :: i in live ==> i in nodes - {x})
      && (var key := nodes[x].key;
          var l := if latest[key] == x then latest - {key} else latest;
          var c := if latest[key] == x then count - {key} else count;
          && Indexed(nodes - {x}, l, next) && Counted(nodes - {x}, l, c)
          && View(nodes - {x}, live) == View(nodes, live)
          && (latest[key] == x ==> Lookup(View(nodes, live), key) == None))
  {
    hide GhostOrder, Decreasing, NoDup, View, Lookup;
    var x := ghosts[|ghosts| - 1];
    assert x in ghosts;
    OldestGhost(nodes, live, ghosts, latest, next);
    DropIndexed(nodes, latest, next, x);
    LookupIsLatest(nodes, live, ghosts, latest, next, nodes[x].key);
    ViewSame(nodes, nodes - {x}, live);
  }

  lemma LookupIsLatest<V>(nodes: Nodes<V>, live: seq<Id>, ghosts: seq<Id>, latest: map<nat, Id>, next: Id, key: nat)
    requires ListsOk(nodes, live, ghosts) && Indexed(nodes, latest, next)
    ensures Lookup(View(nodes, live), key) ==
      if key in latest && nodes[latest[key]].alive then Some(nodes[latest[key]].value) else None
  {
    hide View, Lookup;
    LiveIsOnce(nodes, live, ghosts, latest, next);
    ViewLookup(nodes, live, key);
    if key in latest && nodes[latest[key]].alive { ViewWithout(nodes, live, latest[key]); }
  }

  lemma OldestGhost<V>(nodes: Nodes<V>, live: seq<Id>, ghosts: seq<Id>, latest: map<nat, Id>, next: Id)
    requires ListsOk(nodes, live, ghosts) && Indexed(nodes, latest, next) && GhostOrder(nodes, ghosts) && ghosts != []
    ensures
      var x := ghosts[|ghosts| - 1];
      x in nodes && forall j :: j in nodes && nodes[j].key == nodes[x].key ==> x <= j
  {
    hide GhostOrder, Decreasing, NoDup;
    var x := ghosts[|ghosts| - 1];
    assert x in ghosts;
    forall j | j in nodes && nodes[j].key == nodes[x].key ensures x <= j {
      if !nodes[j].alive { LastIsOldest(nodes, ghosts, j); }
    }
  }

  lemma HitKeeps<V>(nodes: Nodes<V>, live: seq<Id>, ghosts: seq<Id>, buckets: seq<seq<Id>>, hash: nat -> nat,
                    latest: map<nat, Id>, count: map<nat, nat>, next: Id, x: Id)
    requires ListsOk(nodes, live, ghosts) && BucketsOk(nodes, buckets, hash) && GhostOrder(nodes, ghosts)
    requires Indexed(nodes, latest, next) && Counted(nodes, latest, count) && x in nodes && x == latest[nodes[x].key]
    ensures
      var after := nodes[x := nodes[x].(freq := nodes[x].freq + 1)];
      && ListsOk(after, live, ghosts) && BucketsOk(after, buckets, hash) && GhostOrder(after, ghosts)
      && Indexed(after, latest, next) && nodes[x].key in count
      && Counted(after, latest, count[nodes[x].key := count[nodes[x].key] + 1]) && View(after, live) == View(nodes, live)
  {
    hide View, Decreasing, NoDup, GhostOrder, BucketsOk, ListsOk, Indexed, Counted;
    HitLists(nodes, live, ghosts, x);
    HitIndexed(nodes, latest, count, next, x);
    var after := nodes[x := nodes[x].(freq := nodes[x].freq + 1)];
    GhostOrderSame(nodes, after, ghosts);
    ViewSame(nodes, after, live);
    SameBuckets(nodes, after, buckets, hash);
  }

  lemma HitLists<V>(nodes: Nodes<V>, live: seq<Id>, ghosts: seq<Id>, x: Id)
    requires ListsOk(nodes, live, ghosts) && x in nodes
    ensures ListsOk(nodes[x := nodes[x].(freq := nodes[x].freq + 1)], live, ghosts)
    ensures (forall i :: i in live ==> i in nodes) && (forall i :: i in ghosts ==> i in nodes)
  {
    hide Decreasing, NoDup;
  }

  lemma HitIndexed<V>(nodes: Nodes<V>, latest: map<nat, Id>, count: map<nat, nat>, next: Id, x: Id)
    requires Indexed(nodes, latest, next) && Counted(nodes, latest, count) && x in nodes && x == latest[nodes[x].key]
    ensures
      var after := nodes[x := nodes[x].(freq := nodes[x].freq + 1)];
      && nodes[x].key in count && Indexed(after, latest, next)
      && Counted(after, latest, count[nodes[x].key := count[nodes[x].key] + 1])
  {
  }

  lemma SameBuckets<V>(nodes: Nodes<V>, after: Nodes<V>, buckets: seq<seq<Id>>, hash: nat -> nat)
    requires BucketsOk(nodes, buckets, hash) && after.Keys == nodes.Keys
    requires forall i :: i in nodes ==> nodes[i].key == after[i].key
    ensures BucketsOk(after, buckets, hash)
  {
    forall b | 0 <= b < |buckets| ensures BucketOk(after, buckets[b], b, hash) {
      assert BucketOk(nodes, buckets[b], b, hash);
    }
  }

  // ----- what the bounded map promises -----

  ghost predicate Distinct<V>(o: Order<V>) {
    o == [] || ((forall b :: b in o[1..] ==> b.key != o[0].key) && Distinct(o[1..]))
  }

  lemma {:induction false} LookupAbsent<V>(o: Order<V>, key: nat)
    requires forall b :: b in o ==> b.key != key
    ensures Lookup(o, key) == None
    decreases |o|
  {
    if o != [] { LookupAbsent(o[1..], key); }
  }

  lemma {:induction false} EraseLookup<V>(o: Order<V>, key: nat, k: nat)
    requires Distinct(o)
    ensures Lookup(Erase(o, key), k) == if k == key then None else Lookup(o, k)
    decreases |o|
  {
    if o != [] {
      EraseLookup(o[1..], key, k);
      if o[0].key == key {
        LookupAbsent(o[1..], key);
      } else {
        assert ([o[0]] + Erase(o[1..], key))[1..] == Erase(o[1..], key);
      }
    }
  }

  lemma {:induction false} FrontLookup<V>(o: Order<V>, k: nat)
    requires Distinct(o) && o != []
    ensures Lookup(o[..|o| - 1], k) == if k == o[|o| - 1].key then None else Lookup(o, k)
    ensures Lookup(o, o[|o| - 1].key) == Some(o[|o| - 1].value)
    decreases |o|
  {
    if |o| > 1 {
      assert o[1..][|o| - 2] == o[|o| - 1];
      assert o[..|o| - 1][1..] == o[1..][..|o| - 2];
      FrontLookup(o[1..], k);
    }
  }

  // After a put, the key has the new value; every other key keeps its value, except that a full map
  // without the key loses the key inserted first. What is given back is what was lost.
  lemma PutLaw<V>(o: Order<V>, capacity: nat, key: nat, value: V, k: nat)
    requires Distinct(o) && |o| <= capacity && 0 < capacity
    ensures
      var (p, displaced) := PutSpec(o, capacity, key, value);
      var full := Lookup(o, key).None? && |o| == capacity;
      && |p| <= capacity && Lookup(p, key) == Some(value)
      && (k != key ==> Lookup(p, k) == if full && k == o[|o| - 1].key then None else Lookup(o, k))
      && displaced == if full then Lookup(o, o[|o| - 1].key) else Lookup(o, key)
  {
    var (p, displaced) := PutSpec(o, capacity, key, value);
    assert p[1..] == p[1..|p|];
    if Lookup(o, key).Some? {
      EraseLookup(o, key, k);
      EraseLength(o, key);
      assert p[1..] == Erase(o, key);
    } else if |o| == capacity {
      FrontLookup(o, k);
      assert p[1..] == o[..|o| - 1];
    } else {
      assert p[1..] == o;
    }
  }

  lemma {:induction false} EraseLength<V>(o: Order<V>, key: nat)
    ensures |Erase(o, key)| == if Lookup(o, key).Some? then |o| - 1 else |o|
    decreases |o|
  {
    if o != [] { EraseLength(o[1..], key); }
  }

  // The cache never holds a key twice.
  lemma {:induction false} ViewDistinct<V>(nodes: Nodes<V>, live: seq<Id>)
    requires LiveOnce(nodes, live) && NoDup(live)
    ensures Distinct(View(nodes, live))
    decreases |live|
  {
    if live != [] {
      var o := View(nodes, live);
      assert o[1..] == View(nodes, live[1..]);
      ViewDistinct(nodes, live[1..]);
      forall b | b in o[1..] ensures b.key != o[0].key {
        var k :| 0 <= k < |o[1..]| && o[1..][k] == b;
        ViewAt(nodes, live[1..], k);
        assert live[1..][k] in live && live[0] in live;
      }
    }
  }

  lemma ContentsDistinct<V>(c: Cache<V>)
    requires c.Valid()
    ensures Distinct(c.Contents()) && |c.Contents()| == c.size <= c.capacity
  {
    hide ListsOk, BucketsOk, GhostOrder, Counted;
    LiveIsOnce(c.nodes, c.live, c.ghosts, c.latest, c.next);
    ViewDistinct(c.nodes, c.live);
  }

  // A hit does not move its entry: in a full cache the key inserted first goes next, even when it
  // has just been used.
  method HitDoesNotSave<V>(c: Cache<V>, key: nat, value: V, oldest: nat) returns (hit: Option<V>, displaced: Option<V>)
    requires c.Valid() && c.size == c.capacity && Lookup(c.Contents(), key) == None
    requires c.Contents() != [] && oldest == c.Contents()[|c.Contents()| - 1].key
    modifies c
    ensures c.Valid() && hit.Some? && displaced == hit
    ensures Lookup(c.Contents(), oldest) == None && Lookup(c.Contents(), key) == Some(value)
    ensures forall k :: k != key && k != oldest ==> Lookup(c.Contents(), k) == Lookup(old(c.Contents()), k)
  {
    hide View, Erase, Distinct, Lookup, PutSpec, ListsOk, BucketsOk, GhostOrder, Indexed, Counted, Decreasing;
    ghost var o := c.Contents();
    ContentsDistinct(c);
    FrontLookup(o, oldest);
    hit := c.Get(oldest, true);
    displaced := c.Put(key, value);
    forall k ensures k != key ==> Lookup(c.Contents(), k) == if k == oldest then None else Lookup(o, k) {
      PutLaw(o, c.capacity, key, value, k);
    }
    PutLaw(o, c.capacity, key, value, key);
  }
}
