// The node layer of the left-leaning red-black map: trees, their invariants, the two
// rotations, and the path that replaces parent pointers.
module LlrbTree {
  import opened Arith

  // A map node. `Leaf` plays the part of NULL; keys are compared as integers, which is what
  // both comparators shipped with the map do.
  datatype Tree<+V> = Leaf | Node(red: bool, left: Tree, key: int, val: V, right: Tree)

  datatype Cmp = Less | Equal | Greater

  // One path-array slot: a node and the side on which the path leaves it.
  datatype Entry<+V> = Entry(node: Tree<V>, cmp: Cmp)

  predicate IsRed<V>(t: Tree<V>) {
    t.Node? && t.red
  }

  function Compare(a: int, b: int): Cmp {
    if a < b then Less else if a == b then Equal else Greater
  }

  // In-order contents.
  function Items<V>(t: Tree<V>): seq<(int, V)> {
    match t
    case Leaf => []
    case Node(_, l, k, v, r) => Items(l) + [(k, v)] + Items(r)
  }

  // Strictly increasing keys, adjacent pair by adjacent pair; `SortedMeans` gives the
  // quantified reading.
  ghost predicate Sorted<V>(s: seq<(int, V)>) {
    |s| <= 1 || (s[|s| - 2].0 < s[|s| - 1].0 && Sorted(s[..|s| - 1]))
  }

  ghost predicate Increasing<V>(s: seq<(int, V)>) {
    forall i, j :: 0 <= i < j < |s| ==> s[i].0 < s[j].0
  }

  lemma {:induction false} SortedMeans<V>(s: seq<(int, V)>)
    ensures Sorted(s) <==> Increasing(s)
  {
    if 1 < |s| {
      var t := s[..|s| - 1];
      SortedMeans(t);
      if Sorted(s) {
        forall i, j | 0 <= i < j < |s| ensures s[i].0 < s[j].0 {
          assert s[i] == t[i] && t[|s| - 2] == s[|s| - 2];
        }
      }
      if Increasing(s) {
        forall i, j | 0 <= i < j < |t| ensures t[i].0 < t[j].0 { assert s[i] == t[i] && s[j] == t[j]; }
      }
    }
  }

  // Black nodes on the leftmost path.
  ghost function BlackHeight<V>(t: Tree<V>): nat {
    match t
    case Leaf => 0
    case Node(red, l, _, _, _) => BlackHeight(l) + if red then 0 else 1
  }

  // No red right child, no red node with a red left child, equal black height everywhere.
  ghost predicate Llrb<V>(t: Tree<V>) {
    match t
    case Leaf => true
    case Node(red, l, _, _, r) =>
      Llrb(l) && Llrb(r) && !IsRed(r) && (red ==> !IsRed(l)) && BlackHeight(l) == BlackHeight(r)
  }

  // Rotations return the new subtree root. Their preconditions are the null dereferences
  // that the C macros would otherwise make.
  function RotateLeft<V>(x: Tree<V>): (r: Tree<V>)
    requires x.Node? && x.right.Node?
    ensures Items(r) == Items(x)
  {
    assert Items(x) == Items(x.left) + [(x.key, x.val)] + (Items(x.right.left) + [(x.right.key, x.right.val)] + Items(x.right.right));
    x.right.(left := x.(right := x.right.left))
  }

  function RotateRight<V>(x: Tree<V>): (r: Tree<V>)
    requires x.Node? && x.left.Node?
    ensures Items(r) == Items(x)
  {
    var moved := x.(left := x.left.right);
    assert Items(x.left.(right := moved)) == Items(x.left.left) + [(x.left.key, x.left.val)] + Items(moved);
    x.left.(right := moved)
  }

  // ----- paths -----

  ghost predicate IsPath<V>(path: seq<Entry<V>>) {
    forall i :: 0 <= i < |path| ==> path[i].node.Node? && !path[i].cmp.Equal?
  }

  // The child of a path entry that the path does not follow.
  function Sibling<V>(e: Entry<V>): Tree<V>
    requires e.node.Node?
  {
    if e.cmp.Less? then e.node.right else e.node.left
  }

  // The child of a path entry that the path follows.
  function Followed<V>(e: Entry<V>): Tree<V>
    requires e.node.Node?
  {
    if e.cmp.Less? then e.node.left else e.node.right
  }

  // Link `t` below `e` on the side the path takes.
  function Relink<V>(e: Entry<V>, t: Tree<V>): Tree<V>
    requires e.node.Node?
  {
    if e.cmp.Less? then e.node.(left := t) else e.node.(right := t)
  }

  // The whole tree once `t` hangs below the path.
  function Plug<V>(path: seq<Entry<V>>, t: Tree<V>): Tree<V>
    requires IsPath(path)
  {
    if path == [] then t
    else Plug(path[..|path| - 1], Relink(path[|path| - 1], t))
  }

  ghost function Before<V>(path: seq<Entry<V>>): seq<(int, V)>
    requires IsPath(path)
  {
    if path == [] then []
    else
      var e := path[|path| - 1];
      Before(path[..|path| - 1]) + if e.cmp.Less? then [] else Items(e.node.left) + [(e.node.key, e.node.val)]
  }

  ghost function After<V>(path: seq<Entry<V>>): seq<(int, V)>
    requires IsPath(path)
  {
    if path == [] then []
    else
      var e := path[|path| - 1];
      (if e.cmp.Less? then [(e.node.key, e.node.val)] + Items(e.node.right) else []) + After(path[..|path| - 1])
  }

  // Moving one level up a path regroups the in-order contents and changes nothing else.
  lemma WholeUp<V>(path: seq<Entry<V>>, t: Tree<V>, u: Tree<V>)
    requires IsPath(path) && path != [] && Items(u) == Items(Relink(path[|path| - 1], t))
    ensures Before(path[..|path| - 1]) + Items(u) + After(path[..|path| - 1]) == Before(path) + Items(t) + After(path)
  {
    var e, up := path[|path| - 1], path[..|path| - 1];
    if e.cmp.Less? {
      RegroupRight(Before(up), Items(t), [(e.node.key, e.node.val)], Items(e.node.right), After(up));
    } else {
      RegroupLeft(Before(up), Items(e.node.left), [(e.node.key, e.node.val)], Items(t), After(up));
    }
  }

  lemma RegroupRight<T>(a: seq<T>, t: seq<T>, k: seq<T>, r: seq<T>, b: seq<T>)
    ensures a + (t + k + r) + b == (a + []) + t + ((k + r) + b)
  {
  }

  lemma RegroupLeft<T>(a: seq<T>, l: seq<T>, k: seq<T>, t: seq<T>, b: seq<T>)
    ensures a + (l + k + t) + b == (a + (l + k)) + t + ([] + b)
  {
  }

  lemma {:induction false} PlugItems<V>(path: seq<Entry<V>>, t: Tree<V>)
    requires IsPath(path)
    ensures Items(Plug(path, t)) == Before(path) + Items(t) + After(path)
  {
    if path != [] {
      var u := Relink(path[|path| - 1], t);
      PlugItems(path[..|path| - 1], u);
      WholeUp(path, t, u);
    }
  }

  // The hole at the end of `path` takes any subtree of black height `h`; when `red` is set,
  // also a red one. A root must be black.
  ghost predicate Fits<V>(path: seq<Entry<V>>, h: nat, red: bool)
    requires IsPath(path)
  {
    if path == [] then !red
    else
      var e := path[|path| - 1];
      var s := Sibling(e);
      && Llrb(s) && BlackHeight(s) == h
      && (if e.cmp.Less? then !IsRed(s) && (e.node.red ==> !red)
          else !red && (e.node.red ==> !IsRed(s)))
      && Fits(path[..|path| - 1], h + (if e.node.red then 0 else 1), e.node.red)
  }

  // A hole that takes a red subtree takes a black one.
  lemma FitsBlack<V>(path: seq<Entry<V>>, h: nat, red: bool)
    requires IsPath(path) && Fits(path, h, red)
    ensures Fits(path, h, false)
  {
  }

  lemma {:induction false} PlugLlrb<V>(path: seq<Entry<V>>, t: Tree<V>)
    requires IsPath(path) && Llrb(t) && Fits(path, BlackHeight(t), IsRed(t))
    ensures Llrb(Plug(path, t)) && !IsRed(Plug(path, t))
  {
    if path != [] {
      PlugLlrb(path[..|path| - 1], Relink(path[|path| - 1], t));
    }
  }

  // ----- height -----

  ghost function Height<V>(t: Tree<V>): nat {
    match t
    case Leaf => 0
    case Node(_, l, _, _, r) => 1 + if Height(l) < Height(r) then Height(r) else Height(l)
  }

  lemma {:induction false} HeightVersusBlackHeight<V>(t: Tree<V>)
    requires Llrb(t)
    ensures Height(t) <= 2 * BlackHeight(t) + if IsRed(t) then 1 else 0
    ensures Pow2(BlackHeight(t)) <= |Items(t)| + 1
  {
    if t.Node? {
      HeightVersusBlackHeight(t.left);
      HeightVersusBlackHeight(t.right);
    }
  }

  // Height is at most 2*log2(n + 1): the bound the fixed path array relies on.
  lemma HeightBound<V>(t: Tree<V>)
    requires Llrb(t) && !IsRed(t)
    ensures Pow2((Height(t) + 1) / 2) <= |Items(t)| + 1
  {
    HeightVersusBlackHeight(t);
    Pow2Le((Height(t) + 1) / 2, BlackHeight(t));
  }

  lemma Pow2Of64()
    ensures Pow2(64) == 0x1_0000_0000_0000_0000
  {
    hide Pow2;
    Pow2Values();
    Pow2Add(32, 32);
  }

  // With fewer than 2^63 nodes no path has more than 126 nodes.
  lemma PathArraySuffices<V>(t: Tree<V>)
    requires Llrb(t) && !IsRed(t) && |Items(t)| < 0x8000_0000_0000_0000
    ensures Height(t) <= 126
  {
    HeightVersusBlackHeight(t);
    Pow2Of64();
    if 64 <= BlackHeight(t) {
      Pow2Le(64, BlackHeight(t));
    }
  }
}
