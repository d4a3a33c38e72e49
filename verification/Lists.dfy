// Lists without repetition, and how many flags of a list are set.
module Lists {

  ghost predicate NoDup<T>(s: seq<T>) {
    s == [] || (s[0] !in s[1..] && NoDup(s[1..]))
  }

  // No two positions hold the same element.
  lemma {:induction false} NoDupMeans<T>(s: seq<T>)
    ensures NoDup(s) <==> forall i, j :: 0 <= i < j < |s| ==> s[i] != s[j]
    decreases |s|
  {
    if s != [] {
      var rest := s[1..];
      NoDupMeans(rest);
      if NoDup(s) {
        forall i, j | 0 <= i < j < |s| ensures s[i] != s[j] {
          assert s[j] == rest[j - 1];
          if i > 0 { assert s[i] == rest[i - 1]; }
        }
      } else if s[0] !in rest {
        var i, j :| 0 <= i < j < |rest| && rest[i] == rest[j];
        assert s[i + 1] == s[j + 1];
      }
    }
  }

  function Count(s: seq<bool>): nat {
    if s == [] then 0 else (if s[0] then 1 else 0) + Count(s[1..])
  }

  lemma {:induction false} CountUpdate(s: seq<bool>, k: nat, v: bool)
    requires k < |s|
    ensures Count(s[k := v]) == Count(s) + (if v then 1 else 0) - (if s[k] then 1 else 0)
    decreases |s|
  {
    if k == 0 {
      assert s[0 := v][1..] == s[1..];
    } else {
      assert s[k := v][1..] == s[1..][k - 1 := v];
      CountUpdate(s[1..], k - 1, v);
    }
  }

  lemma {:induction false} CountNone(s: seq<bool>)
    requires forall k :: 0 <= k < |s| ==> !s[k]
    ensures Count(s) == 0
    decreases |s|
  {
    if s != [] { CountNone(s[1..]); }
  }

  // All flags are set exactly when the count is the length.
  lemma {:induction false} CountBound(s: seq<bool>)
    ensures Count(s) <= |s| && (Count(s) == |s| <==> forall k :: 0 <= k < |s| ==> s[k])
    decreases |s|
  {
    if s != [] {
      CountBound(s[1..]);
      assert s == [s[0]] + s[1..];
    }
  }
}
