// Lookup and in-order iteration over the map without parent pointers.
module LlrbIter {
  import opened LlrbTree
  import opened LlrbMap

  // The node at in-order position `i`.
  ghost function NodeAt<V>(t: Tree<V>, i: nat): (n: Tree<V>)
    requires i < |Items(t)|
    ensures n.Node? && Items(t)[i] == (n.key, n.val)
  {
    var l := |Items(t.left)|;
    if i < l then NodeAt(t.left, i)
    else if i == l then t
    else NodeAt(t.right, i - l - 1)
  }

  // The node at position `i`, or NULL past the end.
  ghost function NodeOrEnd<V>(t: Tree<V>, i: nat): Tree<V> {
    if i < |Items(t)| then NodeAt(t, i) else Leaf
  }

  // In a sorted tree, comparing keys with the root compares positions with the root.
  lemma RootSplits<V>(t: Tree<V>, i: nat)
    requires t.Node? && Sorted(Items(t)) && i < |Items(t)|
    ensures Sorted(Items(t.left)) && Sorted(Items(t.right))
    ensures NodeAt(t, i).key < t.key <==> i < |Items(t.left)|
    ensures NodeAt(t, i).key > t.key <==> i > |Items(t.left)|
  {
    hide Sorted, Increasing;
    var l, r := Items(t.left), Items(t.right);
    assert Items(t) == l + [(t.key, t.val)] + r;
    SplitSorted(l, (t.key, t.val), r, i);
  }

  lemma SplitSorted<V>(l: seq<(int, V)>, m: (int, V), r: seq<(int, V)>, i: nat)
    requires Sorted(l + [m] + r) && i < |l + [m] + r|
    ensures Sorted(l) && Sorted(r)
    ensures (l + [m] + r)[i].0 < m.0 <==> i < |l|
    ensures (l + [m] + r)[i].0 > m.0 <==> i > |l|
  {
    hide Sorted;
    var s := l + [m] + r;
    SortedMeans(s);
    SortedMeans(l);
    SortedMeans(r);
    assert s[|l|] == m;
    forall a, b | 0 <= a < b < |l| ensures l[a].0 < l[b].0 { assert s[a] == l[a] && s[b] == l[b]; }
    forall a, b | 0 <= a < b < |r| ensures r[a].0 < r[b].0 { assert s[|l| + 1 + a] == r[a] && s[|l| + 1 + b] == r[b]; }
  }

  // The successor of a node with a right subtree is that subtree's first node.
  lemma {:induction false} NextBelow<V>(t: Tree<V>, i: nat)
    requires i < |Items(t)| && NodeAt(t, i).right.Node?
    ensures i + 1 < |Items(t)| && NodeAt(t, i + 1) == NodeAt(NodeAt(t, i).right, 0)
  {
    var l := |Items(t.left)|;
    if i < l { NextBelow(t.left, i); } else if l < i { NextBelow(t.right, i - l - 1); }
  }

  // The predecessor of a node with a left subtree is that subtree's last node.
  lemma {:induction false} PrevBelow<V>(t: Tree<V>, i: nat)
    requires i < |Items(t)| && NodeAt(t, i).left.Node?
    ensures 0 < i && NodeAt(t, i - 1) == NodeAt(NodeAt(t, i).left, |Items(NodeAt(t, i).left)| - 1)
  {
    var l := |Items(t.left)|;
    if i < l { PrevBelow(t.left, i); } else if l < i { PrevBelow(t.right, i - l - 1); }
  }

  // Find the node of a key, at its in-order position, or fail when the key is not bound.
  method Find<V>(root: Tree<V>, key: int) returns (it: Tree<V>, ghost i: nat)
    requires Sorted(Items(root))
    ensures it.Node? ==> it.key == key && i < |Items(root)| && it == NodeAt(root, i)
    ensures it.Leaf? ==> key !in ToMap(Items(root))
  {
    it := root;
    hide Within, Sorted;
    ghost var first: nat := 0;
    WithinItself(root);
    while it.Node?
      invariant Sorted(Items(it)) && Within(root, it, first)
      invariant forall p :: p in Items(root) && p.0 == key ==> p in Items(it)
      decreases it
    {
      var cmp := Compare(key, it.key);
      if cmp.Equal? {
        i := first + |Items(it.left)|;
        WithinTop(root, it, first);
        return;
      }
      KeepSide(it, key);
      WithinSides(root, it, first);
      if cmp.Less? {
        it := it.left;
      } else {
        first := first + |Items(it.left)| + 1;
        it := it.right;
      }
    }
    ToMapLookup(Items(root));
    i := 0;
  }

  // `t` is the subtree of `root` that starts at position `first`.
  ghost predicate Within<V>(root: Tree<V>, t: Tree<V>, first: nat) {
    && first + |Items(t)| <= |Items(root)|
    && forall m :: 0 <= m < |Items(t)| ==> NodeAt(root, first + m) == NodeAt(t, m)
  }

  lemma WithinItself<V>(root: Tree<V>)
    ensures Within(root, root, 0)
  {
  }

  lemma WithinTop<V>(root: Tree<V>, t: Tree<V>, first: nat)
    requires t.Node? && Within(root, t, first)
    ensures first + |Items(t.left)| < |Items(root)| && NodeAt(root, first + |Items(t.left)|) == t
  {
    assert NodeAt(t, |Items(t.left)|) == t;
  }

  lemma WithinSides<V>(root: Tree<V>, t: Tree<V>, first: nat)
    requires t.Node? && Within(root, t, first)
    ensures Within(root, t.left, first) && Within(root, t.right, first + |Items(t.left)| + 1)
  {
    var l := |Items(t.left)|;
    forall m | 0 <= m < |Items(t.left)| ensures NodeAt(root, first + m) == NodeAt(t.left, m) {
      assert NodeAt(t, m) == NodeAt(t.left, m);
    }
    forall m | 0 <= m < |Items(t.right)| ensures NodeAt(root, first + l + 1 + m) == NodeAt(t.right, m) {
      assert NodeAt(t, l + 1 + m) == NodeAt(t.right, m);
    }
  }

  lemma KeepSide<V>(t: Tree<V>, key: int)
    requires t.Node? && Sorted(Items(t)) && key != t.key
    ensures Sorted(Items(t.left)) && Sorted(Items(t.right))
    ensures
      var side := if key < t.key then t.left else t.right;
      && (forall p :: p in Items(side) ==> p in Items(t))
      && (forall p :: p in Items(t) && p.0 == key ==> p in Items(side))
  {
    RootSplits(t, |Items(t.left)|);
    assert [] + Items(t) + [] == Items(t);
    SortedParts([], Items(t.left), (t.key, t.val), Items(t.right), []);
  }

  method Leftmost<V>(t: Tree<V>) returns (n: Tree<V>)
    requires t.Node?
    ensures n == NodeAt(t, 0)
  {
    n := t;
    while n.left.Node?
      invariant n.Node? && NodeAt(n, 0) == NodeAt(t, 0)
      decreases n
    {
      n := n.left;
    }
  }

  method Rightmost<V>(t: Tree<V>) returns (n: Tree<V>)
    requires t.Node?
    ensures n == NodeAt(t, |Items(t)| - 1)
  {
    n := t;
    while n.right.Node?
      invariant n.Node? && NodeAt(n, |Items(n)| - 1) == NodeAt(t, |Items(t)| - 1)
      decreases n
    {
      n := n.right;
    }
  }

  method First<V>(root: Tree<V>) returns (it: Tree<V>)
    ensures it == NodeOrEnd(root, 0)
  {
    it := root;
    if it.Node? {
      it := Leftmost(root);
    }
  }

  method Last<V>(root: Tree<V>) returns (it: Tree<V>)
    ensures it == if root.Leaf? then Leaf else NodeAt(root, |Items(root)| - 1)
  {
    it := root;
    if it.Node? {
      it := Rightmost(root);
    }
  }

  // The iterator at position `i` moves to position `i + 1`, or to the end.
  method Next<V>(root: Tree<V>, it: Tree<V>, ghost i: nat) returns (next: Tree<V>)
    requires Sorted(Items(root)) && i < |Items(root)| && it == NodeAt(root, i)
    ensures next == NodeOrEnd(root, i + 1)
  {
    if it.right.Node? {
      NextBelow(root, i);
      next := Leftmost(it.right);
      return;
    }
    var curr := root;
    ghost var j: nat := i;
    next := Leaf;
    while curr.Node?
      invariant Sorted(Items(curr)) && j < |Items(curr)| && NodeAt(curr, j) == it
      invariant NodeOrEnd(root, i + 1) == if j + 1 < |Items(curr)| then NodeAt(curr, j + 1) else next
      decreases curr
    {
      RootSplits(curr, j);
      if it.key < curr.key {
        next := curr;
        curr := curr.left;
      } else if it.key > curr.key {
        j := j - |Items(curr.left)| - 1;
        curr := curr.right;
      } else {
        break;
      }
    }
  }

  // The iterator at position `i` moves to position `i - 1`, or off the front.
  method Prev<V>(root: Tree<V>, it: Tree<V>, ghost i: nat) returns (prev: Tree<V>)
    requires Sorted(Items(root)) && i < |Items(root)| && it == NodeAt(root, i)
    ensures prev == if i == 0 then Leaf else NodeAt(root, i - 1)
  {
    if it.left.Node? {
      PrevBelow(root, i);
      prev := Rightmost(it.left);
      return;
    }
    var curr := root;
    ghost var j: nat := i;
    prev := Leaf;
    while curr.Node?
      invariant Sorted(Items(curr)) && j < |Items(curr)| && NodeAt(curr, j) == it
      invariant (if i == 0 then Leaf else NodeAt(root, i - 1)) == if 0 < j then NodeAt(curr, j - 1) else prev
      decreases curr
    {
      RootSplits(curr, j);
      if it.key > curr.key {
        prev := curr;
        j := j - |Items(curr.left)| - 1;
        curr := curr.right;
      } else if it.key < curr.key {
        curr := curr.left;
      } else {
        break;
      }
    }
  }

  // Going back from the next position returns to where the step came from.
  method NextThenPrev<V>(root: Tree<V>, it: Tree<V>, ghost i: nat) returns (next: Tree<V>, back: Tree<V>)
    requires Sorted(Items(root)) && i + 1 < |Items(root)| && it == NodeAt(root, i)
    ensures next == NodeAt(root, i + 1) && next.Node? && back == it
  {
    next := Next(root, it, i);
    back := Prev(root, next, i + 1);
  }

  // Starting at the first node and repeating Next visits every binding once, in increasing
  // key order.
  method Traverse<V>(root: Tree<V>) returns (visited: seq<(int, V)>)
    requires Sorted(Items(root))
    ensures visited == Items(root) && Increasing(visited)
  {
    visited := [];
    var it := First(root);
    while it.Node?
      invariant |visited| <= |Items(root)| && visited == Items(root)[..|visited|]
      invariant it == NodeOrEnd(root, |visited|)
      decreases |Items(root)| - |visited|
    {
      var next := Next(root, it, |visited|);
      visited := visited + [(it.key, it.val)];
      it := next;
    }
    SortedMeans(visited);
  }
}
