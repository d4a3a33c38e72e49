// The ordered map itself: insertion, removal and lookup over an explicit path array.
module LlrbMap {
  import opened LlrbTree

  // Path-array capacity on a 64-bit host: 16 * sizeof(void *).
  const RB_MAX_DEPTH: nat := 128

  ghost function ToMap<V>(s: seq<(int, V)>): map<int, V> {
    if s == [] then map[] else ToMap(s[..|s| - 1])[s[|s| - 1].0 := s[|s| - 1].1]
  }

  lemma {:induction false} SortedLast<V>(s: seq<(int, V)>)
    requires Sorted(s) && s != []
    ensures forall p :: p in s[..|s| - 1] ==> p.0 < s[|s| - 1].0
  {
    if 1 < |s| {
      var t := s[..|s| - 1];
      SortedLast(t);
      assert t == t[..|t| - 1] + [t[|t| - 1]];
    }
  }

  lemma {:induction false} ToMapLookup<V>(s: seq<(int, V)>)
    requires Sorted(s)
    ensures forall p :: p in s ==> p.0 in ToMap(s) && ToMap(s)[p.0] == p.1
    ensures forall k :: k in ToMap(s) ==> (k, ToMap(s)[k]) in s
    ensures |ToMap(s)| == |s|
  {
    if s != [] {
      var t, last := s[..|s| - 1], s[|s| - 1];
      ToMapLookup(t);
      assert s == t + [last];
      SortedLast(s);
    }
  }

  lemma SpliceSorted<V>(a: seq<(int, V)>, b: seq<(int, V)>, k: int, v: V)
    requires Sorted(a + [(k, v)] + b)
    ensures Sorted(a + b)
    ensures forall p :: p in a + b ==> p.0 != k
  {
    var s, t := a + b, a + [(k, v)] + b;
    SortedMeans(s);
    SortedMeans(t);
    forall i, j | 0 <= i < j < |s| ensures s[i].0 < s[j].0 {
      var i', j' := if i < |a| then i else i + 1, if j < |a| then j else j + 1;
      assert t[i'].0 < t[j'].0;
    }
    forall i | 0 <= i < |s| ensures s[i].0 != k {
      var i' := if i < |a| then i else i + 1;
      assert t[i'] == s[i] && t[|a|] == (k, v) && i' != |a|;
    }
  }

  // Splicing one binding into a sorted sequence adds exactly that binding to the map.
  lemma ToMapSplice<V>(a: seq<(int, V)>, b: seq<(int, V)>, k: int, v: V)
    requires Sorted(a + [(k, v)] + b)
    ensures Sorted(a + b)
    ensures k !in ToMap(a + b)
    ensures ToMap(a + [(k, v)] + b) == ToMap(a + b)[k := v]
    ensures ToMap(a + b) == ToMap(a + [(k, v)] + b) - {k}
  {
    SpliceSorted(a, b, k, v);
    ToMapLookup(a + b);
    ToMapLookup(a + [(k, v)] + b);
    SameBindings(a + b, a + [(k, v)] + b, ToMap(a + b), ToMap(a + [(k, v)] + b), k, v);
  }

  lemma SameBindings<V>(s: seq<(int, V)>, t: seq<(int, V)>, m: map<int, V>, n: map<int, V>, k: int, v: V)
    requires forall p :: p in t <==> p in s || p == (k, v)
    requires forall p :: p in s ==> p.0 != k
    requires forall p :: p in s ==> p.0 in m && m[p.0] == p.1
    requires forall x :: x in m ==> (x, m[x]) in s
    requires forall p :: p in t ==> p.0 in n && n[p.0] == p.1
    requires forall x :: x in n ==> (x, n[x]) in t
    ensures k !in m && n == m[k := v] && m == n - {k}
  {
    assert (k, v) in t;
    forall x | x in m ensures x in n && n[x] == m[x] && x != k {
      assert (x, m[x]) in t;
    }
    forall x | x in n && x != k ensures x in m {
      assert (x, n[x]) in s;
    }
  }

  // ----- insertion fix-up -----

  // A red node with a red left child: the shape one insertion step may leave behind.
  ghost predicate LeftRedPair<V>(t: Tree<V>) {
    && IsRed(t) && IsRed(t.left) && Llrb(t.left) && Llrb(t.right) && !IsRed(t.right)
    && BlackHeight(t.left) == BlackHeight(t.right)
  }

  // What hangs below the path while an insertion climbs.
  ghost predicate Climbing<V>(path: seq<Entry<V>>, t: Tree<V>)
    requires IsPath(path)
  {
    || (Llrb(t) && t.Node? && Fits(path, BlackHeight(t), false))
    || (LeftRedPair(t) && Fits(path, BlackHeight(t), true))
  }

  // One iteration of the insertion loop for a red child: 4-node fix-up, 4-node split or
  // left lean, in the order the loop tests them.
  function InsertStep<V>(e: Entry<V>, child: Tree<V>): (r: Tree<V>)
    requires e.node.Node? && !e.cmp.Equal? && IsRed(child)
    ensures Items(r) == Items(Relink(e, child))
  {
    var cnode := Relink(e, child);
    if e.cmp.Less? then
      if IsRed(child.left) then
        var painted := cnode.(left := child.(left := child.left.(red := false)));
        assert Items(painted.left) == Items(child);
        RotateRight(painted)
      else cnode
    else if IsRed(cnode.left) then
      cnode.(left := cnode.left.(red := false), right := child.(red := false), red := true)
    else
      var leaned := RotateLeft(cnode);
      leaned.(red := cnode.red, left := leaned.left.(red := true))
  }

  lemma InsertStepClimbs<V>(path: seq<Entry<V>>, child: Tree<V>)
    requires IsPath(path) && path != [] && IsRed(child) && Climbing(path, child)
    ensures Climbing(path[..|path| - 1], InsertStep(path[|path| - 1], child))
  {
    var e := path[|path| - 1];
    var n := e.node;
    var r := InsertStep(e, child);
    assert Fits(path, BlackHeight(child), false);
    if e.cmp.Less? && IsRed(child.left) {
      assert r == child.(left := child.left.(red := false), right := n.(left := child.right));
      assert Llrb(r.left) && Llrb(r.right);
    } else if e.cmp.Less? {
      assert r == n.(left := child);
    } else if IsRed(n.left) {
      assert r == Node(true, n.left.(red := false), n.key, n.val, child.(red := false));
      assert Llrb(r.left) && Llrb(r.right);
    } else {
      assert r == child.(red := n.red, left := Node(true, n.left, n.key, n.val, child.left));
      assert Llrb(r.left);
    }
  }

  // ----- removal fix-up -----

  // A repaired subtree either regained its black height or is still one short of it.
  datatype Repair<+V> = Restored(tree: Tree<V>) | Deficient(tree: Tree<V>)

  // Cases of the unwinding loop when the path leaves `n` to the left.
  function RepairLess<V>(n: Tree<V>, child: Tree<V>): (r: Repair<V>)
    requires n.Node? && n.right.Node?
    ensures Items(r.tree) == Items(n.(left := child))
  {
    var node := n.(left := child);
    var right := node.right;
    if IsRed(right.left) then
      if node.red then
        var black := node.(red := false);
        Restored(RotateLeft(black.(right := RotateRight(right))))
      else
        var painted := right.(left := right.left.(red := false));
        assert Items(painted) == Items(right);
        Restored(RotateLeft(node.(right := RotateRight(painted))))
    else if node.red then
      Restored(RotateLeft(node))
    else
      Deficient(RotateLeft(node.(red := true)))
  }

  // Cases when the path leaves `n` to the right.
  function RepairGreater<V>(n: Tree<V>, child: Tree<V>): (r: Repair<V>)
    requires n.Node? && n.left.Node? && (n.left.red ==> n.left.right.Node?)
    ensures Items(r.tree) == Items(n.(right := child))
  {
    var node := n.(right := child);
    var left := node.left;
    if left.red then
      var leftright := left.right;
      if IsRed(leftright.left) then
        var painted := leftright.(left := leftright.left.(red := false));
        assert Items(painted) == Items(leftright);
        var unode := RotateRight(node.(left := left.(right := painted)));
        Restored(RotateLeft(unode.(right := RotateRight(unode.right))))
      else
        var painted := leftright.(red := true);
        assert Items(painted) == Items(leftright);
        var top := RotateRight(node.(left := left.(right := painted)));
        Restored(top.(red := false))
    else if node.red then
      if IsRed(left.left) then
        var painted := left.(red := true, left := left.left.(red := false));
        assert Items(painted) == Items(left);
        Restored(RotateRight(node.(red := false, left := painted)))
      else
        Restored(node.(red := false, left := left.(red := true)))
    else
      if IsRed(left.left) then
        var painted := left.(left := left.left.(red := false));
        assert Items(painted) == Items(left);
        Restored(RotateRight(node.(left := painted)))
      else
        Deficient(node.(left := left.(red := true)))
  }

  // The unwinding loop's state: a black subtree, one black level short of what its path wants.
  ghost predicate Short<V>(path: seq<Entry<V>>, t: Tree<V>)
    requires IsPath(path)
  {
    Llrb(t) && !IsRed(t) && Fits(path, BlackHeight(t) + 1, false)
  }

  // A repair either completes the tree or keeps the loop invariant one level up.
  ghost predicate Repairs<V>(path: seq<Entry<V>>, r: Repair<V>)
    requires IsPath(path)
  {
    match r
    case Restored(t) => Llrb(t) && Fits(path, BlackHeight(t), IsRed(t))
    case Deficient(t) => Short(path, t)
  }

  lemma RepairLessWorks<V>(path: seq<Entry<V>>, t: Tree<V>)
    requires IsPath(path) && path != [] && path[|path| - 1].cmp.Less? && Short(path, t)
    ensures path[|path| - 1].node.right.Node?
    ensures path[|path| - 1].node.red ==> 1 < |path|
    ensures Repairs(path[..|path| - 1], RepairLess(path[|path| - 1].node, t))
  {
    var n := path[|path| - 1].node;
    var right := n.right;
    assert right.Node?;
    var r := RepairLess(n, t);
    assert Llrb(right.left) && Llrb(right.right) && BlackHeight(right.left) == BlackHeight(right.right) == BlackHeight(t);
    FitsBlack(path[..|path| - 1], BlackHeight(t) + 1 + (if n.red then 0 else 1), n.red);
    assert |path| == 1 ==> path[..0] == [] && !n.red;
    if IsRed(right.left) {
      var rl := right.left;
      assert Llrb(rl.left) && Llrb(rl.right) && BlackHeight(rl.left) == BlackHeight(rl.right) == BlackHeight(t);
      assert r.tree == Node(n.red, Node(false, t, n.key, n.val, rl.left), rl.key, rl.val, Node(false, rl.right, right.key, right.val, right.right));
      assert Llrb(r.tree.left) && Llrb(r.tree.right);
    } else {
      assert r.tree == right.(left := Node(true, t, n.key, n.val, right.left));
      assert Llrb(r.tree.left);
    }
  }

  lemma RepairGreaterWorks<V>(path: seq<Entry<V>>, t: Tree<V>)
    requires IsPath(path) && path != [] && path[|path| - 1].cmp.Greater? && Short(path, t)
    ensures path[|path| - 1].node.left.Node?
    ensures path[|path| - 1].node.left.red ==> path[|path| - 1].node.left.right.Node?
    ensures path[|path| - 1].node.red ==> 1 < |path|
    ensures Repairs(path[..|path| - 1], RepairGreater(path[|path| - 1].node, t))
  {
    var n := path[|path| - 1].node;
    assert n.left.Node?;
    assert Fits(path[..|path| - 1], BlackHeight(t) + 1 + (if n.red then 0 else 1), n.red);
    assert |path| == 1 ==> path[..0] == [] && !n.red;
    if n.left.red { RepairRedSibling(path, t); } else { RepairBlackSibling(path, t); }
  }

  lemma RepairRedSibling<V>(path: seq<Entry<V>>, t: Tree<V>)
    requires IsPath(path) && path != [] && path[|path| - 1].cmp.Greater? && Short(path, t)
    requires IsRed(path[|path| - 1].node.left)
    ensures path[|path| - 1].node.left.right.Node?
    ensures Repairs(path[..|path| - 1], RepairGreater(path[|path| - 1].node, t))
  {
    var n := path[|path| - 1].node;
    var left := n.left;
    var lr := left.right;
    assert Llrb(left.left) && Llrb(left.right) && BlackHeight(left.left) == BlackHeight(left.right);
    assert lr.Node? && !n.red;
    assert Llrb(lr.left) && Llrb(lr.right) && BlackHeight(lr.left) == BlackHeight(lr.right) == BlackHeight(t);
    var r := RepairGreater(n, t);
    if IsRed(lr.left) {
      assert Llrb(lr.left.left) && Llrb(lr.left.right);
      assert r.tree == Node(false, Node(true, left.left, left.key, left.val, lr.left.(red := false)), lr.key, lr.val, Node(false, lr.right, n.key, n.val, t));
      assert !IsRed(left.left) && Llrb(lr.left.(red := false)) && !IsRed(lr.left.(red := false));
      assert Llrb(r.tree.left) && Llrb(r.tree.right);
    } else {
      assert r.tree == Node(false, left.left, left.key, left.val, Node(false, lr.(red := true), n.key, n.val, t));
      assert Llrb(lr.(red := true)) && !IsRed(lr.left) && !IsRed(t);
      assert Llrb(r.tree.left) && Llrb(r.tree.right);
    }
  }

  lemma RepairBlackSibling<V>(path: seq<Entry<V>>, t: Tree<V>)
    requires IsPath(path) && path != [] && path[|path| - 1].cmp.Greater? && Short(path, t)
    requires path[|path| - 1].node.left.Node? && !path[|path| - 1].node.left.red
    ensures Repairs(path[..|path| - 1], RepairGreater(path[|path| - 1].node, t))
  {
    var n := path[|path| - 1].node;
    var left := n.left;
    assert Llrb(left.left) && Llrb(left.right) && BlackHeight(left.left) == BlackHeight(left.right);
    FitsBlack(path[..|path| - 1], BlackHeight(t) + 1 + (if n.red then 0 else 1), n.red);
    var r := RepairGreater(n, t);
    if IsRed(left.left) {
      assert Llrb(left.left.left) && Llrb(left.left.right);
      assert r.tree == Node(n.red, left.left.(red := false), left.key, left.val, Node(false, left.right, n.key, n.val, t));
    } else {
      assert r.tree == Node(false, left.(red := true), n.key, n.val, t);
    }
    assert Llrb(r.tree.left) && Llrb(r.tree.right);
  }

  // ----- descending -----

  // `path` leads from `root` to the subtree `t`, and the path array still has room for the
  // rest of the way down.
  ghost predicate OnPath<V>(root: Tree<V>, path: seq<Entry<V>>, t: Tree<V>) {
    && IsPath(path) && Plug(path, t) == root
    && Llrb(t) && Fits(path, BlackHeight(t), IsRed(t))
    && |path| + Height(t) <= Height(root)
  }

  lemma OnPathDown<V>(root: Tree<V>, path: seq<Entry<V>>, t: Tree<V>, cmp: Cmp)
    requires OnPath(root, path, t) && t.Node? && !cmp.Equal?
    ensures OnPath(root, path + [Entry(t, cmp)], if cmp.Less? then t.left else t.right)
  {
    var down := path + [Entry(t, cmp)];
    assert down[..|down| - 1] == path;
    assert Relink(Entry(t, cmp), if cmp.Less? then t.left else t.right) == t;
  }

  // Everything left of the path is smaller than `key`, everything right of it is larger.
  ghost predicate Brackets<V>(path: seq<Entry<V>>, key: int)
    requires IsPath(path)
  {
    && (forall p :: p in Before(path) ==> p.0 < key)
    && (forall p :: p in After(path) ==> key < p.0)
  }

  // The search for `key` has come to `t`.
  ghost predicate Seeking<V>(root: Tree<V>, path: seq<Entry<V>>, t: Tree<V>, key: int) {
    OnPath(root, path, t) && Brackets(path, key)
  }

  lemma SeekDown<V>(root: Tree<V>, path: seq<Entry<V>>, t: Tree<V>, key: int)
    requires Seeking(root, path, t, key) && Sorted(Items(root)) && t.Node? && key != t.key
    ensures Seeking(root, path + [Entry(t, Compare(key, t.key))], if key < t.key then t.left else t.right, key)
  {
    var e := Entry(t, Compare(key, t.key));
    OnPathDown(root, path, t, e.cmp);
    var down := path + [e];
    assert down[..|down| - 1] == path;
    PlugItems(path, t);
    SortedParts(Before(path), Items(t.left), (t.key, t.val), Items(t.right), After(path));
  }

  lemma SlotIsOpen<V>(root: Tree<V>, path: seq<Entry<V>>, key: int)
    requires Seeking(root, path, Leaf, key)
    ensures OpenSlot(root, path, key)
  {
    PlugItems(path, Leaf);
    assert Before(path) + Items<V>(Leaf) == Before(path);
  }

  lemma Unbound<V>(a: seq<(int, V)>, b: seq<(int, V)>, key: int)
    requires Sorted(a + b)
    requires (forall p :: p in a ==> p.0 < key) && (forall p :: p in b ==> key < p.0)
    ensures key !in ToMap(a + b)
  {
    ToMapLookup(a + b);
  }

  // A search that ends at a leaf has not met the key, because it is not bound.
  lemma MissingKey<V>(root: Tree<V>, path: seq<Entry<V>>, key: int)
    requires Seeking(root, path, Leaf, key) && Sorted(Items(root))
    ensures key !in ToMap(Items(root))
  {
    SlotIsOpen(root, path, key);
    Unbound(Before(path), After(path), key);
  }

  lemma SeekStart<V>(root: Tree<V>, key: int)
    requires Llrb(root) && !IsRed(root)
    ensures Seeking(root, [], root, key)
  {
  }

  lemma SortedParts<V>(a: seq<(int, V)>, b: seq<(int, V)>, m: (int, V), c: seq<(int, V)>, d: seq<(int, V)>)
    requires Sorted(a + (b + [m] + c) + d)
    ensures forall p :: p in b ==> p.0 < m.0
    ensures forall p :: p in c ==> m.0 < p.0
  {
    var s := a + (b + [m] + c) + d;
    var at := |a| + |b|;
    SortedMeans(s);
    assert s[at] == m;
    forall i | 0 <= i < |b| ensures b[i].0 < m.0 { assert s[|a| + i] == b[i]; }
    forall i | 0 <= i < |c| ensures m.0 < c[i].0 { assert s[at + 1 + i] == c[i]; }
  }

  // ----- swapping a node with its successor -----

  // Replacing key and value of the entry at `m`, below which the path only goes left.
  lemma {:induction false} SwapBelow<V>(path: seq<Entry<V>>, m: nat, key: int, val: V, h: nat, red: bool)
    requires IsPath(path) && m < |path| && path[m].cmp.Greater?
    requires forall i :: m < i < |path| ==> path[i].cmp.Less?
    ensures
      var n := path[m].node;
      var swapped := path[m := Entry(n.(key := key, val := val), Greater)];
      && IsPath(swapped)
      && Before(path) == Before(path[..m]) + Items(n.left) + [(n.key, n.val)]
      && Before(swapped) == Before(path[..m]) + Items(n.left) + [(key, val)]
      && After(swapped) == After(path)
      && Fits(swapped, h, red) == Fits(path, h, red)
  {
    var n := path[m].node;
    var e := Entry(n.(key := key, val := val), Greater);
    var swapped := path[m := e];
    var last := |path| - 1;
    if m == last {
      assert swapped[..last] == path[..last];
    } else {
      assert swapped[..last] == path[..last][m := e];
      assert path[..last][..m] == path[..m];
      SwapBelow(path[..last], m, key, val, h + (if path[last].node.red then 0 else 1), path[last].node.red);
    }
  }

  // ----- the two loops over the path -----

  // In-order contents of the whole tree while `t` hangs below `path`.
  ghost function Whole<V>(path: seq<Entry<V>>, t: Tree<V>): seq<(int, V)>
    requires IsPath(path)
  {
    Before(path) + Items(t) + After(path)
  }

  // One iteration of the insertion loop.
  method ClimbOnce<V>(ghost path: seq<Entry<V>>, e: Entry<V>, child: Tree<V>) returns (t: Tree<V>)
    requires IsPath(path) && path != [] && e == path[|path| - 1] && IsRed(child) && Climbing(path, child)
    ensures Climbing(path[..|path| - 1], t)
    ensures Whole(path[..|path| - 1], t) == Whole(path, child)
  {
    t := InsertStep(e, child);
    InsertStepClimbs(path, child);
    WholeUp(path, child, t);
  }

  // One iteration of the unwinding loop.
  method RepairOnce<V>(ghost path: seq<Entry<V>>, e: Entry<V>, child: Tree<V>) returns (r: Repair<V>)
    requires IsPath(path) && path != [] && e == path[|path| - 1] && Short(path, child)
    ensures Repairs(path[..|path| - 1], r)
    ensures Whole(path[..|path| - 1], r.tree) == Whole(path, child)
  {
    if e.cmp.Less? {
      RepairLessWorks(path, child);
      r := RepairLess(e.node, child);
    } else {
      RepairGreaterWorks(path, child);
      r := RepairGreater(e.node, child);
    }
    WholeUp(path, child, r.tree);
  }

  // Link `t` below the path. The ancestors that the loops did not reach stay linked as they are.
  method Link<V>(ghost path: seq<Entry<V>>, entries: seq<Entry<V>>, t: Tree<V>) returns (root: Tree<V>)
    requires path == entries && IsPath(path) && Llrb(t) && Fits(path, BlackHeight(t), IsRed(t))
    ensures Llrb(root) && !IsRed(root) && Items(root) == Whole(path, t)
  {
    root := Plug(entries, t);
    PlugLlrb(path, t);
    PlugItems(path, t);
  }

  // Climb from the new node, fixing colours and leaning, until a black child ends the loop;
  // then paint the root black.
  method InsertFixup<V>(path: array<Entry<V>>, depth: nat, node: Tree<V>) returns (root: Tree<V>)
    requires depth < path.Length && IsPath(path[..depth]) && Climbing(path[..depth], node)
    ensures Llrb(root) && !IsRed(root)
    ensures Items(root) == Whole(path[..depth], node)
  {
    var i, cur := depth, node;
    while 0 < i && IsRed(cur)
      invariant 0 <= i <= depth && IsPath(path[..i]) && Climbing(path[..i], cur)
      invariant Whole(path[..i], cur) == Whole(path[..depth], node)
    {
      ghost var p := path[..i];
      assert p[..i - 1] == path[..i - 1];
      cur := ClimbOnce(p, path[i - 1], cur);
      i := i - 1;
    }
    if IsRed(cur) {
      assert path[..i] == [];
      root := cur.(red := false);
    } else {
      root := Link(path[..i], path[..i], cur);
    }
  }

  // Unwind from the pruned black leaf until the missing black level is restored.
  method RemoveFixup<V>(path: array<Entry<V>>, depth: nat) returns (root: Tree<V>)
    requires depth < path.Length && IsPath(path[..depth]) && Short(path[..depth], Leaf)
    ensures Llrb(root) && !IsRed(root)
    ensures Items(root) == Whole(path[..depth], Leaf)
  {
    var i, cur := depth, Leaf;
    while 0 < i
      invariant 0 <= i <= depth && IsPath(path[..i]) && Short(path[..i], cur)
      invariant Whole(path[..i], cur) == Whole(path[..depth], Leaf)
    {
      ghost var p := path[..i];
      assert p[..i - 1] == path[..i - 1];
      var r := RepairOnce(p, path[i - 1], cur);
      if r.Restored? {
        root := Link(path[..i - 1], path[..i - 1], r.tree);
        return;
      }
      cur := r.tree;
      i := i - 1;
    }
    root := cur;
    assert path[..i] == [];
  }

  // A leaf of the given colour can be cut off below `path`: a red one without further ado.
  ghost predicate Prunable<V>(path: seq<Entry<V>>, red: bool)
    requires IsPath(path)
  {
    Fits(path, if red then 0 else 1, red)
  }

  // Cut off the leaf below the path; a red leaf needs no repair.
  method Prune<V>(path: array<Entry<V>>, depth: nat, red: bool) returns (root: Tree<V>)
    requires 0 < depth < path.Length && IsPath(path[..depth]) && Prunable(path[..depth], red)
    ensures Llrb(root) && !IsRed(root)
    ensures Items(root) == Before(path[..depth]) + After(path[..depth])
  {
    ghost var p := path[..depth];
    if red {
      assert p[depth - 1].cmp.Less?;
      FitsBlack(p, 0, true);
      root := Link(p, path[..depth], Leaf);
    } else {
      root := RemoveFixup(path, depth);
    }
    assert Before(p) + Items<V>(Leaf) == Before(p);
  }

  // ----- the map -----

  const ADDRESS_SPACE: nat := 0x8000_0000_0000_0000

  // `key` belongs at the empty subtree below `path`.
  ghost predicate OpenSlot<V>(root: Tree<V>, path: seq<Entry<V>>, key: int) {
    && IsPath(path) && Fits(path, 0, false) && Brackets(path, key)
    && Items(root) == Before(path) + After(path)
  }

  // Outcome of looking for an insertion point.
  datatype Probe<+V> = Exists(node: Tree<V>) | TooDeep | Vacant(depth: nat)

  class RbMap<V> {
    var root: Tree<V>
    var size: nat

    ghost predicate Valid()
      reads this
    {
      Llrb(root) && !IsRed(root) && Sorted(Items(root)) && size == |Items(root)|
    }

    ghost function Contents(): map<int, V>
      reads this
    {
      ToMap(Items(root))
    }

    constructor ()
      ensures Valid() && Contents() == map[]
    {
      root, size := Leaf, 0;
    }

    // Walk down to `key`, recording the way in the path array. Stops short of the last slot.
    method InsertUnique(key: int, path: array<Entry<V>>) returns (probe: Probe<V>)
      requires Valid() && path.Length == RB_MAX_DEPTH
      modifies path
      ensures
        match probe
        case Exists(node) => node.Node? && node.key == key && key in Contents() && Contents()[key] == node.val
        case TooDeep => ADDRESS_SPACE <= size
        case Vacant(depth) =>
          && depth < RB_MAX_DEPTH && key !in Contents()
          && OpenSlot(root, path[..depth], key)
    {
      var cur, depth := root, 0;
      ghost var way: seq<Entry<V>> := [];
      while cur.Node? && depth < RB_MAX_DEPTH - 1
        invariant depth == |way| <= RB_MAX_DEPTH - 1 && path[..depth] == way
        invariant Seeking(root, way, cur, key)
        decreases cur
      {
        var cmp := Compare(key, cur.key);
        if cmp.Equal? {
          ItemInRoot(root, way, cur);
          return Exists(cur);
        }
        path[depth] := Entry(cur, cmp);
        SeekDown(root, way, cur, key);
        way := way + [Entry(cur, cmp)];
        cur := if cmp.Less? then cur.left else cur.right;
        depth := depth + 1;
      }
      if depth >= RB_MAX_DEPTH - 1 {
        if size < ADDRESS_SPACE { PathArraySuffices(root); }
        return TooDeep;
      }
      SlotIsOpen(root, way, key);
      Unbound(Before(way), After(way), key);
      return Vacant(depth);
    }

    // Insert a binding. `memory` says whether a node could be allocated.
    method Insert(key: int, val: V, memory: bool) returns (inserted: bool)
      requires Valid()
      modifies this
      ensures Valid()
      ensures inserted ==> key !in old(Contents()) && Contents() == old(Contents())[key := val] && size == old(size) + 1
      ensures !inserted ==> root == old(root) && size == old(size)
      ensures old(size) < ADDRESS_SPACE ==> (inserted <==> key !in old(Contents()) && memory)
    {
      var path := new Entry<V>[RB_MAX_DEPTH](_ => Entry(Leaf, Equal));
      var probe := InsertUnique(key, path);
      if !probe.Vacant? || !memory {
        return false;
      }
      var node := Node(true, Leaf, key, val, Leaf);
      ghost var way := path[..probe.depth];
      NewNodeClimbs(way, node);
      root := InsertFixup(path, probe.depth, node);
      InsertedContents(Before(way), After(way), key, val);
      size := size + 1;
      return true;
    }

    // Walk down to the node holding `key`; its slot is marked as left to the right, in
    // preparation for the successor search.
    method LocateNode(key: int, path: array<Entry<V>>) returns (at: nat, node: Tree<V>)
      requires Valid() && key in Contents() && size < ADDRESS_SPACE && path.Length == RB_MAX_DEPTH
      modifies path
      ensures at < RB_MAX_DEPTH - 1 && node.Node? && node.key == key
      ensures OnPath(root, path[..at], node) && path[at] == Entry(node, Greater)
    {
      hide Plug, Fits, Llrb, BlackHeight, Items, Sorted, IsPath, Brackets, ToMap, IsRed;
      PathArraySuffices(root);
      SeekStart(root, key);
      at, node := 0, root;
      ghost var way: seq<Entry<V>> := [];
      while node.Node?
        invariant at == |way| < RB_MAX_DEPTH && path[..at] == way
        invariant Seeking(root, way, node, key)
        decreases node
      {
        var cmp := Compare(key, node.key);
        if cmp.Equal? {
          path[at] := Entry(node, Greater);
          assert path[..at] == way;
          return;
        }
        path[at] := Entry(node, cmp);
        SeekDown(root, way, node, key);
        way := way + [Entry(node, cmp)];
        node := if cmp.Less? then node.left else node.right;
        at := at + 1;
      }
      MissingKey(root, way, key);
      assert false;
    }

    // Continue to the leftmost node of the right subtree; returns the number of used slots.
    method LocateSuccessor(path: array<Entry<V>>, at: nat) returns (depth: nat)
      requires Valid() && size < ADDRESS_SPACE && path.Length == RB_MAX_DEPTH && at < RB_MAX_DEPTH - 1
      requires path[at].node.Node? && path[at].cmp.Greater? && OnPath(root, path[..at], path[at].node)
      modifies path
      ensures at < depth < RB_MAX_DEPTH && path[at] == old(path[at]) && path[..at] == old(path[..at])
      ensures OnPath(root, path[..depth], Leaf)
      ensures forall i :: at < i < depth ==> path[i].cmp.Less?
      ensures path[depth - 1].node.Node? && Followed(path[depth - 1]).Leaf?
    {
      hide Sorted, Items, Plug, Fits, BlackHeight;
      PathArraySuffices(root);
      var cur := path[at].node.right;
      depth := at + 1;
      ghost var way := path[..at] + [path[at]];
      OnPathDown(root, path[..at], path[at].node, Greater);
      while cur.Node?
        invariant at < depth == |way| < RB_MAX_DEPTH && path[..depth] == way
        invariant way[at] == old(path[at]) && way[..at] == old(path[..at])
        invariant OnPath(root, way, cur)
        invariant forall i :: at < i < depth ==> way[i].cmp.Less?
        invariant Followed(way[depth - 1]) == cur
        decreases cur
      {
        path[depth] := Entry(cur, Less);
        OnPathDown(root, way, cur, Less);
        way := way + [Entry(cur, Less)];
        cur := cur.left;
        depth := depth + 1;
      }
    }

    // Put the successor's key and value where the doomed node was; the doomed node takes the
    // successor's place and colour.
    method SwapWithSuccessor(path: array<Entry<V>>, at: nat, depth: nat) returns (red: bool)
      requires Valid() && at < depth < path.Length && path[at].cmp.Greater?
      requires OnPath(root, path[..depth + 1], Leaf)
      requires (forall i :: at < i <= depth ==> path[i].cmp.Less?) && Followed(path[depth]).Leaf?
      modifies path
      ensures Doomed(root, path[..depth], red, old(path[at].node.key))
    {
      ghost var way := path[..depth + 1];
      SwapPrune(root, way, at);
      var node, succ := path[at].node, path[depth].node;
      red := succ.red;
      path[at] := Entry(node.(key := succ.key, val := succ.val), Greater);
      assert path[..depth] == way[..depth][at := path[at]];
    }

    // Remove the node holding `key`: swap it with its successor, prune it, and repair.
    method RbRemove(key: int)
      requires Valid() && key in Contents() && size < ADDRESS_SPACE
      modifies this`root
      ensures Llrb(root) && !IsRed(root) && Drops(old(root), key, Items(root))
    {
      var path := new Entry<V>[RB_MAX_DEPTH](_ => Entry(Leaf, Equal));
      var at, node := LocateNode(key, path);
      var depth := LocateSuccessor(path, at);
      depth := depth - 1;
      var red := node.red;
      if depth != at {
        red := SwapWithSuccessor(path, at, depth);
      } else {
        PruneTop(root, path[..depth], node);
        if node.left.Node? {
          assert !node.red;
          assert IsRed(node.left);
          root := Plug(path[..depth], node.left.(red := false));
          return;
        }
        if depth == 0 {
          root := Leaf;
          return;
        }
      }
      root := Prune(path, depth, red);
    }

    // Erase through an iterator: NULL iterators and empty maps are left alone.
    method Erase(it: Tree<V>)
      requires Valid() && size < ADDRESS_SPACE && (it.Node? ==> it.key in Contents())
      modifies this
      ensures Valid()
      ensures it.Leaf? ==> root == old(root) && size == old(size)
      ensures it.Node? ==> Contents() == old(Contents()) - {it.key} && size == old(size) - 1
    {
      if it.Leaf? || size == 0 {
        ToMapLookup(Items(root));
        return;
      }
      RbRemove(it.key);
      if 0 < size {
        size := size - 1;
      }
    }
  }

  // Once `path` loses its leaf, the map has lost exactly `key`.
  ghost predicate Drops<V>(root: Tree<V>, key: int, rest: seq<(int, V)>) {
    && Sorted(rest) && |rest| == |Items(root)| - 1
    && ToMap(rest) == ToMap(Items(root)) - {key}
  }

  // The leaf below `path` can be cut off, and cutting it off drops `key`.
  ghost predicate Doomed<V>(root: Tree<V>, path: seq<Entry<V>>, red: bool, key: int) {
    IsPath(path) && Prunable(path, red) && Drops(root, key, Before(path) + After(path))
  }

  lemma DropOne<V>(root: Tree<V>, a: seq<(int, V)>, key: int, val: V, b: seq<(int, V)>)
    requires Sorted(Items(root)) && Items(root) == a + [(key, val)] + b
    ensures Drops(root, key, a + b)
  {
    ToMapSplice(a, b, key, val);
  }

  // The doomed node is the last on its path: it has no right subtree.
  lemma PruneTop<V>(root: Tree<V>, path: seq<Entry<V>>, n: Tree<V>)
    requires OnPath(root, path, n) && Sorted(Items(root)) && n.Node? && n.right.Leaf?
    ensures n.left.Node? ==>
      var up := Plug(path, n.left.(red := false));
      && !n.red && IsRed(n.left) && Llrb(up) && !IsRed(up) && Drops(root, n.key, Items(up))
    ensures n.left.Leaf? ==> Doomed(root, path, n.red, n.key)
  {
    PlugItems(path, n);
    assert Items(root) == (Before(path) + Items(n.left)) + [(n.key, n.val)] + After(path);
    DropOne(root, Before(path) + Items(n.left), n.key, n.val, After(path));
    if n.left.Node? {
      var up := n.left.(red := false);
      assert BlackHeight(n.left) == 0 && IsRed(n.left) && Llrb(n.left);
      assert Llrb(up) && BlackHeight(up) == 1 && Items(up) == Items(n.left);
      PlugLlrb(path, up);
      PlugItems(path, up);
    } else {
      assert Before(path) + Items(n.left) == Before(path);
    }
  }

  // The doomed node swaps places with its successor, the last node on the path.
  lemma SwapPrune<V>(root: Tree<V>, path: seq<Entry<V>>, at: nat)
    requires OnPath(root, path, Leaf) && Sorted(Items(root)) && at < |path| - 1 && path[at].cmp.Greater?
    requires (forall i :: at < i < |path| ==> path[i].cmp.Less?) && Followed(path[|path| - 1]).Leaf?
    ensures
      var n, succ := path[at].node, path[|path| - 1].node;
      var swapped := path[..|path| - 1][at := Entry(n.(key := succ.key, val := succ.val), Greater)];
      Doomed(root, swapped, succ.red, n.key)
  {
    hide Items, Sorted, Before, After, Fits, Plug, ToMap;
    var last := |path| - 1;
    var n, succ, way := path[at].node, path[last].node, path[..last];
    LeafTop(root, path);
    SwapBelow(way, at, succ.key, succ.val, if succ.red then 0 else 1, succ.red);
    SwapItems(root, Before(way[..at]) + Items(n.left), n.key, n.val, [(succ.key, succ.val)], After(way));
  }

  // The last node of a path that ends in its left NULL is a leaf node.
  lemma LeafTop<V>(root: Tree<V>, path: seq<Entry<V>>)
    requires OnPath(root, path, Leaf) && path != [] && path[|path| - 1].cmp.Less? && Followed(path[|path| - 1]).Leaf?
    ensures
      var way, top := path[..|path| - 1], path[|path| - 1].node;
      Prunable(way, top.red) && Items(root) == Before(way) + [(top.key, top.val)] + After(way)
  {
    var way, top := path[..|path| - 1], path[|path| - 1].node;
    assert Relink(path[|path| - 1], Leaf) == top && top.right.Leaf?;
    PlugItems(way, top);
    assert Items(top) == [(top.key, top.val)];
  }

  lemma SwapItems<V>(root: Tree<V>, a: seq<(int, V)>, key: int, val: V, m: seq<(int, V)>, b: seq<(int, V)>)
    requires Sorted(Items(root)) && Items(root) == (a + [(key, val)]) + m + b
    ensures Drops(root, key, (a + m) + b)
  {
    assert Items(root) == a + [(key, val)] + (m + b);
    DropOne(root, a, key, val, m + b);
    assert a + (m + b) == (a + m) + b;
  }

  lemma NewNodeClimbs<V>(path: seq<Entry<V>>, node: Tree<V>)
    requires IsPath(path) && Fits(path, 0, false)
    requires node.Node? && node.red && node.left.Leaf? && node.right.Leaf?
    ensures Climbing(path, node) && Items(node) == [(node.key, node.val)]
  {
    assert Llrb(node.left) && Llrb(node.right);
    assert Items(node.left) == [] && Items(node.right) == [];
  }

  lemma InsertedContents<V>(a: seq<(int, V)>, b: seq<(int, V)>, key: int, val: V)
    requires Sorted(a + b)
    requires (forall p :: p in a ==> p.0 < key) && (forall p :: p in b ==> key < p.0)
    ensures Sorted(a + [(key, val)] + b)
    ensures ToMap(a + [(key, val)] + b) == ToMap(a + b)[key := val]
  {
    SpliceIn(a, b, key, val);
    ToMapSplice(a, b, key, val);
  }

  lemma ItemInRoot<V>(root: Tree<V>, path: seq<Entry<V>>, t: Tree<V>)
    requires IsPath(path) && Plug(path, t) == root && t.Node? && Sorted(Items(root))
    ensures (t.key, t.val) in Items(root)
    ensures t.key in ToMap(Items(root)) && ToMap(Items(root))[t.key] == t.val
  {
    PlugItems(path, t);
    ToMapLookup(Items(root));
  }

  lemma SpliceIn<V>(a: seq<(int, V)>, b: seq<(int, V)>, key: int, val: V)
    requires Sorted(a + b)
    requires (forall p :: p in a ==> p.0 < key) && (forall p :: p in b ==> key < p.0)
    ensures Sorted(a + [(key, val)] + b)
  {
    SortedMeans(a + b);
    assert forall i :: 0 <= i < |a| ==> a[i] in a;
    assert forall i :: 0 <= i < |b| ==> b[i] in b;
    SpliceIncreasing(a, b, (key, val), a + b, a + [(key, val)] + b);
    SortedMeans(a + [(key, val)] + b);
  }

  lemma SpliceIncreasing<V>(a: seq<(int, V)>, b: seq<(int, V)>, m: (int, V), s: seq<(int, V)>, t: seq<(int, V)>)
    requires s == a + b && t == a + [m] + b && Increasing(s)
    requires forall i :: 0 <= i < |a| ==> a[i].0 < m.0
    requires forall i :: 0 <= i < |b| ==> m.0 < b[i].0
    ensures Increasing(t)
  {
    forall i, j | 0 <= i < j < |t| ensures t[i].0 < t[j].0 {
      var i', j' := if i < |a| then i else i - 1, if j < |a| then j else j - 1;
      assert i == |a| || t[i] == s[i'];
      assert j == |a| || t[j] == s[j'];
    }
  }
}
