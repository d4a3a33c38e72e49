// The path canonicaliser: one pass over the input with a read and a write index, against a stack
// of components.
module SanitizePath {

  const MAX_PATH_LEN: nat := 1024

  // ----- meaning -----

  // The position of the first slash, or the length.
  function Slash(s: string): (k: nat)
    ensures k <= |s| && '/' !in s[..k] && (k < |s| ==> s[k] == '/')
  {
    if s == [] || s[0] == '/' then 0
    else
      var k := 1 + Slash(s[1..]);
      assert s[..k] == [s[0]] + s[1..][..k - 1];
      k
  }

  // All elements between slashes, empty ones included.
  function Split(s: string): (es: seq<string>)
    ensures |es| > 0
    decreases |s|
  {
    var k := Slash(s);
    if k == |s| then [s] else [s[..k]] + Split(s[k + 1..])
  }

  // Where a path leads: so many levels up from the start (or the root), then down these names.
  datatype Place = Place(root: bool, ups: nat, names: seq<string>)

  function Enter(p: Place, e: string): Place {
    if e == "" || e == "." then p
    else if e != ".." then p.(names := p.names + [e])
    else if p.names != [] then p.(names := p.names[..|p.names| - 1])
    else if p.root then p
    else p.(ups := p.ups + 1)
  }

  function Follow(p: Place, es: seq<string>): Place
    decreases |es|
  {
    if es == [] then p else Follow(Enter(p, es[0]), es[1..])
  }

  function Start(s: string): Place {
    Place(s != [] && s[0] == '/', 0, [])
  }

  function Meaning(s: string): Place {
    Follow(Start(s), Split(s))
  }

  // ----- text -----

  function Join(ps: seq<string>): string {
    if ps == [] then ""
    else if |ps| == 1 then ps[0]
    else Join(ps[..|ps| - 1]) + "/" + ps[|ps| - 1]
  }

  function Dots(n: nat): (ps: seq<string>)
    ensures |ps| == n && forall k :: 0 <= k < n ==> ps[k] == ".."
  {
    seq(n, _ => "..")
  }

  function Parts(p: Place): seq<string> {
    Dots(p.ups) + p.names
  }

  function Head(p: Place): string {
    if p.root then "/" else ""
  }

  function Text(p: Place): string {
    Head(p) + Join(Parts(p))
  }

  function Sanitized(s: string): string {
    var t := Text(Meaning(s));
    if t == "" then "." else t
  }

  // ----- canonical places -----

  predicate IsName(e: string) {
    e != "" && e != "." && e != ".." && '/' !in e
  }

  ghost predicate Canonical(p: Place) {
    (p.root ==> p.ups == 0) && forall k :: 0 <= k < |p.names| ==> IsName(p.names[k])
  }

  lemma EnterCanonical(p: Place, e: string)
    requires Canonical(p) && '/' !in e
    ensures Canonical(Enter(p, e)) && Enter(p, e).root == p.root
  {
  }

  lemma {:induction false} SplitHasNoSlash(s: string)
    ensures forall k :: 0 <= k < |Split(s)| ==> '/' !in Split(s)[k]
    decreases |s|
  {
    var k := Slash(s);
    if k == |s| {
      assert s[..k] == s;
    } else {
      SplitHasNoSlash(s[k + 1..]);
    }
  }

  lemma {:induction false} FollowCanonical(p: Place, es: seq<string>)
    requires Canonical(p) && forall k :: 0 <= k < |es| ==> '/' !in es[k]
    ensures Canonical(Follow(p, es)) && Follow(p, es).root == p.root
    decreases |es|
  {
    hide Enter;
    if es != [] {
      EnterCanonical(p, es[0]);
      FollowCanonical(Enter(p, es[0]), es[1..]);
    }
  }

  // Every path means a canonical place: no empty or "." name, ".." only in front of a relative one.
  lemma MeaningCanonical(s: string)
    ensures Canonical(Meaning(s)) && Meaning(s).root == (s != [] && s[0] == '/')
  {
    SplitHasNoSlash(s);
    FollowCanonical(Start(s), Split(s));
  }

  // ----- pushing and popping in the text -----

  lemma JoinPush(ps: seq<string>, e: string)
    ensures Join(ps + [e]) == Join(ps) + (if ps == [] then "" else "/") + e
  {
    assert (ps + [e])[..|ps|] == ps;
  }

  lemma TextPush(p: Place, e: string)
    ensures Text(p.(names := p.names + [e])) == Text(p) + (if Parts(p) == [] then "" else "/") + e
  {
    hide Join;
    assert Dots(p.ups) + (p.names + [e]) == Parts(p) + [e];
    JoinPush(Parts(p), e);
    assert Head(p) + (Join(Parts(p)) + (if Parts(p) == [] then "" else "/") + e) == Text(p) + (if Parts(p) == [] then "" else "/") + e;
  }

  lemma TextUp(p: Place)
    requires p.names == []
    ensures Text(p.(ups := p.ups + 1)) == Text(p) + (if Parts(p) == [] then "" else "/") + ".."
  {
    hide Join;
    assert Dots(p.ups + 1) + [] == Parts(p) + [".."];
    JoinPush(Parts(p), "..");
    assert Head(p) + (Join(Parts(p)) + (if Parts(p) == [] then "" else "/") + "..") == Text(p) + (if Parts(p) == [] then "" else "/") + "..";
  }

  // Text is empty beyond its head exactly when there are no parts.
  lemma {:induction false} JoinEmpty(ps: seq<string>)
    requires forall k :: 0 <= k < |ps| ==> ps[k] != ""
    ensures Join(ps) == "" <==> ps == []
  {
    if |ps| > 1 { assert Join(ps)[|Join(ps[..|ps| - 1])|] == '/'; }
  }

  lemma PartsNonEmpty(p: Place)
    requires Canonical(p)
    ensures forall k :: 0 <= k < |Parts(p)| ==> Parts(p)[k] != ""
    ensures Text(p) == Head(p) <==> Parts(p) == []
  {
    JoinEmpty(Parts(p));
  }

  // ----- the canonical text says the same and cannot be shortened -----

  // Splitting undoes joining.
  lemma {:induction false} SplitJoin(ps: seq<string>)
    requires ps != [] && forall k :: 0 <= k < |ps| ==> '/' !in ps[k]
    ensures Split(Join(ps)) == ps
    decreases |ps|
  {
    if |ps| == 1 {
      SplitPlain(ps[0]);
    } else {
      var front, e := ps[..|ps| - 1], ps[|ps| - 1];
      SplitJoin(front);
      SplitAppend(Join(front), e);
      assert front + [e] == ps;
    }
  }

  lemma {:induction false} SlashOf(a: string, b: string)
    requires '/' !in a && (b == "" || b[0] == '/')
    ensures Slash(a + b) == |a|
    decreases |a|
  {
    if a == "" {
      assert a + b == b;
    } else {
      assert (a + b)[1..] == a[1..] + b;
      SlashOf(a[1..], b);
    }
  }

  lemma SplitPlain(e: string)
    requires '/' !in e
    ensures Split(e) == [e]
  {
    SlashOf(e, "");
    assert e + "" == e;
  }

  lemma SplitAt(a: string, b: string)
    requires '/' !in a
    ensures Split(a + "/" + b) == [a] + Split(b)
  {
    var t := a + "/" + b;
    SlashOf(a, "/" + b);
    assert t == a + ("/" + b);
    assert t[..|a|] == a && t[|a| + 1..] == b;
  }

  lemma {:induction false} SplitAppend(s: string, e: string)
    requires '/' !in e
    ensures Split(s + "/" + e) == Split(s) + [e]
    decreases |s|
  {
    hide Split;
    var k := Slash(s);
    if k == |s| {
      assert s[..k] == s;
      SplitPlain(s);
      SplitPlain(e);
      SplitAt(s, e);
    } else {
      var a, rest := s[..k], s[k + 1..];
      assert s == a + "/" + rest;
      assert s + "/" + e == a + "/" + (rest + "/" + e);
      SplitAt(a, rest);
      SplitAt(a, rest + "/" + e);
      SplitAppend(rest, e);
    }
  }

  lemma {:induction false} FollowAppend(p: Place, es: seq<string>, fs: seq<string>)
    ensures Follow(p, es + fs) == Follow(Follow(p, es), fs)
    decreases |es|
  {
    hide Enter;
    if es == [] {
      assert es + fs == fs;
    } else {
      assert (es + fs)[1..] == es[1..] + fs;
      FollowAppend(Enter(p, es[0]), es[1..], fs);
    }
  }

  lemma {:induction false} FollowDots(p: Place, n: nat)
    requires !p.root && p.names == []
    ensures Follow(p, Dots(n)) == p.(ups := p.ups + n)
    decreases n
  {
    if n > 0 {
      assert Dots(n)[1..] == Dots(n - 1);
      FollowDots(p.(ups := p.ups + 1), n - 1);
    }
  }

  lemma {:induction false} FollowNames(p: Place, ns: seq<string>)
    requires forall k :: 0 <= k < |ns| ==> IsName(ns[k])
    ensures Follow(p, ns) == p.(names := p.names + ns)
    decreases |ns|
  {
    if ns == [] {
      assert p.names + ns == p.names;
    } else {
      FollowNames(Enter(p, ns[0]), ns[1..]);
      assert (p.names + [ns[0]]) + ns[1..] == p.names + ns;
    }
  }

  // Following the parts of a canonical place leads to it.
  lemma FollowParts(p: Place)
    requires Canonical(p)
    ensures Follow(Place(p.root, 0, []), Parts(p)) == p
  {
    var s := Place(p.root, 0, []);
    FollowAppend(s, Dots(p.ups), p.names);
    if !p.root { FollowDots(s, p.ups); }
    FollowNames(Follow(s, Dots(p.ups)), p.names);
  }

  // The text of a canonical place means that place.
  lemma MeaningOfText(p: Place)
    requires Canonical(p)
    ensures Meaning(if Text(p) == "" then "." else Text(p)) == p
  {
    hide Enter, Follow, Join;
    var ps, t := Parts(p), Text(p);
    PartsNonEmpty(p);
    FollowParts(p);
    if p.root {
      assert t[1..] == Join(ps) && Slash(t) == 0;
      assert t[..0] == "";
      assert Split(t) == [""] + Split(t[1..]);
      FollowSkips(Start(t), Split(t[1..]));
      JoinedSplit(ps, Start(t));
    } else if ps == [] {
      OnlyDot();
    } else {
      JoinStart(ps);
      assert t == Join(ps);
      SplitJoin(ps);
    }
  }

  lemma JoinedSplit(ps: seq<string>, p: Place)
    requires forall k :: 0 <= k < |ps| ==> '/' !in ps[k]
    ensures Follow(p, Split(Join(ps))) == Follow(p, ps)
  {
    if ps == [] {
      assert Split("") == [""];
      FollowSkips(p, []);
    } else {
      SplitJoin(ps);
    }
  }

  lemma FollowSkips(p: Place, es: seq<string>)
    ensures Follow(p, [""] + es) == Follow(p, es)
  {
    assert ([""] + es)[1..] == es;
  }

  lemma OnlyDot()
    ensures Meaning(".") == Place(false, 0, [])
  {
    assert Slash(".") == 1;
    assert ["."][1..] == [];
    assert Follow(Start("."), ["."]) == Follow(Enter(Start("."), "."), []);
  }

  // A joined text does not begin with a slash.
  lemma {:induction false} JoinStart(ps: seq<string>)
    requires ps != [] && forall k :: 0 <= k < |ps| ==> ps[k] != "" && '/' !in ps[k]
    ensures Join(ps) != "" && Join(ps)[0] == ps[0][0] && Join(ps)[0] != '/'
    decreases |ps|
  {
    if |ps| > 1 { JoinStart(ps[..|ps| - 1]); }
  }

  // Sanitizing keeps where a path leads.
  lemma SanitizedMeansSame(s: string)
    ensures Meaning(Sanitized(s)) == Meaning(s)
  {
    hide Meaning, Text;
    MeaningCanonical(s);
    MeaningOfText(Meaning(s));
  }

  // Sanitizing twice is sanitizing once.
  lemma SanitizedIdempotent(s: string)
    ensures Sanitized(Sanitized(s)) == Sanitized(s)
  {
    hide Meaning, Text;
    SanitizedMeansSame(s);
  }

  // Two paths sanitize to the same text exactly when they lead to the same place.
  lemma SanitizedDecides(s: string, t: string)
    ensures Sanitized(s) == Sanitized(t) <==> Meaning(s) == Meaning(t)
  {
    hide Meaning, Text;
    SanitizedMeansSame(s);
    SanitizedMeansSame(t);
  }

  // The elements of a sanitized path, apart from "/" and ".": ".." only in front of a relative
  // path, and names that are not empty, "." or "..".
  lemma SanitizedElements(s: string)
    ensures
      var r, m := Sanitized(s), Meaning(s);
      || r == "/" || r == "."
      || (&& (m.root ==> m.ups == 0 && r[0] == '/') && (forall k :: 0 <= k < |m.names| ==> IsName(m.names[k]))
          && Split(if m.root then r[1..] else r) == Dots(m.ups) + m.names)
  {
    hide Meaning, Join, Split;
    var m := Meaning(s);
    MeaningCanonical(s);
    PartsNonEmpty(m);
    if Parts(m) != [] {
      SplitJoin(Parts(m));
      assert Text(m)[|Head(m)|..] == Join(Parts(m));
    }
  }

  // The text with the separator the next element will need.
  function Room(p: Place): nat {
    |Text(p)| + if Parts(p) == [] then 0 else 1
  }

  lemma EnterRoom(p: Place, e: string)
    requires Canonical(p) && '/' !in e
    ensures Room(Enter(p, e)) <= Room(p) + |e| + 1
  {
    hide Join;
    if e == "" || e == "." {
    } else if e != ".." {
      TextPush(p, e);
    } else if p.names != [] {
      var q, last := p.(names := p.names[..|p.names| - 1]), p.names[|p.names| - 1];
      assert q.names + [last] == p.names;
      TextPush(q, last);
    } else if !p.root {
      TextUp(p);
    }
  }

  function Total(es: seq<string>): nat {
    if es == [] then 0 else |es[0]| + 1 + Total(es[1..])
  }

  lemma {:induction false} SplitTotal(s: string)
    ensures Total(Split(s)) == |s| + 1
    decreases |s|
  {
    var k := Slash(s);
    if k < |s| {
      SplitTotal(s[k + 1..]);
      assert Split(s)[1..] == Split(s[k + 1..]);
    } else {
      assert [s][1..] == [];
    }
  }

  lemma {:induction false} FollowRoom(p: Place, es: seq<string>)
    requires Canonical(p) && forall k :: 0 <= k < |es| ==> '/' !in es[k]
    ensures Room(Follow(p, es)) <= Room(p) + Total(es)
    decreases |es|
  {
    hide Enter, Room;
    if es != [] {
      EnterCanonical(p, es[0]);
      EnterRoom(p, es[0]);
      FollowRoom(Enter(p, es[0]), es[1..]);
    }
  }

  // The result is never longer than a non-empty input.
  lemma SanitizedNoLonger(s: string)
    requires s != ""
    ensures |Sanitized(s)| <= |s|
  {
    hide Follow, Enter, Join, Split;
    var m := Meaning(s);
    MeaningCanonical(s);
    PartsNonEmpty(m);
    SplitHasNoSlash(s);
    SplitTotal(s);
    StartRoom(s);
    if s[0] == '/' {
      RootSplit(s);
      var es := Split(s);
      assert es == [""] + es[1..];
      FollowSkips(Start(s), es[1..]);
      FollowRoom(Start(s), es[1..]);
      assert Total(es) == 1 + Total(es[1..]);
    } else {
      FollowRoom(Start(s), Split(s));
    }
  }

  lemma StartRoom(s: string)
    ensures Room(Start(s)) == if s != "" && s[0] == '/' then 1 else 0
  {
  }

  lemma RootSplit(s: string)
    requires s != "" && s[0] == '/'
    ensures Split(s)[0] == ""
  {
    assert s[..0] == "";
  }

  // No path that leads to the same place is shorter than the sanitized one.
  lemma SanitizedIsShortest(s: string, t: string)
    requires t != "" && Meaning(t) == Meaning(s)
    ensures |Sanitized(s)| <= |t|
  {
    hide Meaning, Text;
    SanitizedNoLonger(t);
  }

  // ----- the one-pass form -----

  // Append one character to the buffer.
  method Put(ret: array<char>, w: nat, c: char, ghost t: string)
    requires w < ret.Length && ret[..w] == t
    modifies ret
    ensures ret[..w + 1] == t + [c]
  {
    ret[w] := c;
  }

  // Append a separator if there is something to separate from.
  method Separate(ret: array<char>, w0: nat, needed: bool, ghost t: string) returns (w: nat)
    requires w0 <= ret.Length && (needed ==> w0 < ret.Length) && ret[..w0] == t
    modifies ret
    ensures w == (if needed then w0 + 1 else w0) && w <= ret.Length && ret[..w] == (if needed then t + "/" else t)
  {
    w := w0;
    if needed {
      Put(ret, w, '/', t);
      w := w + 1;
    }
  }

  // Append the element that starts at `r0`.
  method CopyElement(ret: array<char>, w0: nat, input: string, r0: nat, ghost t: string) returns (w: nat, r: nat)
    requires r0 <= |input| && w0 + (|input| - r0) <= ret.Length && ret[..w0] == t
    modifies ret
    ensures r == r0 + Slash(input[r0..]) <= |input| && w == w0 + (r - r0) <= ret.Length
    ensures ret[..w] == t + input[r0..r]
  {
    w, r := w0, r0;
    assert t + input[r0..r0] == t;
    while r < |input| && input[r] != '/'
      invariant r0 <= r <= |input| && w == w0 + (r - r0) <= ret.Length
      invariant ret[..w] == t + input[r0..r] && Slash(input[r0..]) == (r - r0) + Slash(input[r..])
    {
      assert input[r..][1..] == input[r + 1..];
      Put(ret, w, input[r], t + input[r0..r]);
      assert (t + input[r0..r]) + [input[r]] == t + input[r0..r + 1];
      w, r := w + 1, r + 1;
    }
  }

  // Step back over the last element, stopping at its separator or at `stop`.
  method Backtrack(ret: array<char>, w0: nat, stop: nat, ghost keep: string, ghost e: string) returns (w: nat)
    requires w0 <= ret.Length && stop < w0 && '/' !in e && e != "" && stop <= |keep|
    requires ret[..w0] == keep + e || (ret[..w0] == keep + "/" + e)
    requires ret[..w0] == keep + e ==> stop == |keep|
    ensures w == |keep| && w <= ret.Length && ret[..w] == keep
  {
    w := w0 - 1;
    ghost var t := ret[..w0];
    ghost var first := w0 - |e|;
    assert t[first..] == e;
    assert forall k :: first <= k < w0 ==> ret[k] == t[k] == e[k - first];
    while w > stop && ret[w] != '/'
      invariant |keep| <= w < w0 && stop <= w
      invariant w >= first || w == |keep|
    {
      w := w - 1;
    }
    assert ret[..w] == t[..w];
  }

  // The write index is past the part that ".." may not remove exactly when there is a name.
  lemma {:induction false} NamesGrow(p: Place)
    requires Canonical(p)
    ensures |Text(p.(names := []))| <= |Text(p)|
    ensures p.names != [] ==> |Text(p.(names := []))| < |Text(p)|
    decreases |p.names|
  {
    hide Text;
    if p.names == [] {
      assert p.(names := []) == p;
    } else {
      var q, last := p.(names := p.names[..|p.names| - 1]), p.names[|p.names| - 1];
      assert q.names + [last] == p.names;
      TextPush(q, last);
      NamesGrow(q);
    }
  }

  // A ".." element.
  method StepUp(ret: array<char>, w0: nat, dotdot0: nat, isRoot: bool, ghost p: Place) returns (w: nat, dotdot: nat)
    requires Canonical(p) && p.root == isRoot && w0 == |Text(p)| && dotdot0 == |Text(p.(names := []))|
    requires w0 + (if Parts(p) == [] then 2 else 3) <= ret.Length && ret[..w0] == Text(p)
    modifies ret
    ensures
      var q := Enter(p, "..");
      && w == |Text(q)| <= w0 + (if Parts(p) == [] then 2 else 3) && ret[..w] == Text(q)
      && dotdot == |Text(q.(names := []))|
  {
    hide Text, Parts;
    w, dotdot := w0, dotdot0;
    NamesGrow(p);
    if w > dotdot {
      ghost var q, last := p.(names := p.names[..|p.names| - 1]), p.names[|p.names| - 1];
      assert q.names + [last] == p.names;
      TextPush(q, last);
      NamesGrow(q);
      NoParts(q);
      assert q.(names := []) == p.(names := []);
      assert Parts(q) == [] ==> Text(q) + "" + last == Text(q) + last;
      w := Backtrack(ret, w, dotdot, Text(q), last);
    } else if !isRoot {
      NoParts(p);
      TextLength(p);
      TextUp(p);
      ghost var t := Text(p);
      w := Separate(ret, w, w > 0, t);
      t := if w0 > 0 then t + "/" else t;
      Put(ret, w, '.', t);
      Put(ret, w + 1, '.', t + ".");
      assert t + "." + "." == t + "..";
      w := w + 2;
      dotdot := w;
      assert Enter(p, "..").(names := []) == Enter(p, "..");
    }
  }

  lemma NoParts(p: Place)
    ensures Parts(p) == [] ==> p.names == []
  {
  }

  lemma TextLength(p: Place)
    requires Canonical(p)
    ensures |Text(p)| == |Head(p)| <==> Parts(p) == []
  {
    PartsNonEmpty(p);
    assert Text(p)[..|Head(p)|] == Head(p);
  }

  // A name.
  method StepName(ret: array<char>, w0: nat, input: string, r0: nat, isRoot: bool, ghost p: Place) returns (w: nat, r: nat)
    requires Canonical(p) && p.root == isRoot && w0 == |Text(p)| && r0 <= |input|
    requires w0 + (if Parts(p) == [] then 0 else 1) + (|input| - r0) <= ret.Length && ret[..w0] == Text(p)
    requires IsName(input[r0..r0 + Slash(input[r0..])])
    modifies ret
    ensures r0 <= r == r0 + Slash(input[r0..]) <= |input|
    ensures
      var q := Enter(p, input[r0..r]);
      && w == |Text(q)| == w0 + (if Parts(p) == [] then 0 else 1) + (r - r0) <= ret.Length && ret[..w] == Text(q)
  {
    hide Text, Parts;
    TextLength(p);
    w := Separate(ret, w0, (isRoot && w0 != 1) || (!isRoot && w0 != 0), Text(p));
    ghost var t := if Parts(p) == [] then Text(p) else Text(p) + "/";
    assert Text(p) + "" == Text(p);
    w, r := CopyElement(ret, w, input, r0, t);
    TextPush(p, input[r0..r]);
  }

  // Reading on: a slash, or one element up to the next slash or the end.
  lemma ReadSlash(p: Place, s: string, r: nat)
    requires r < |s| && s[r] == '/'
    ensures Follow(p, Split(s[r..])) == Follow(p, Split(s[r + 1..]))
  {
    hide Follow;
    assert s[r..] == "" + "/" + s[r + 1..];
    SplitAt("", s[r + 1..]);
    FollowSkips(p, Split(s[r + 1..]));
  }

  lemma ReadElement(p: Place, s: string, r: nat)
    requires r <= |s|
    ensures
      var k := r + Slash(s[r..]);
      Follow(p, Split(s[r..])) == Follow(Enter(p, s[r..k]), Split(s[k..]))
  {
    hide Split, Enter;
    var k := r + Slash(s[r..]);
    var e := s[r..k];
    assert s[r..][..k - r] == e;
    if k == |s| {
      assert s[r..] == e && s[k..] == "";
      SplitPlain(e);
      SplitPlain("");
      assert [e] == [e] + [] && [e][1..] == [];
      FollowSkips(Enter(p, e), []);
      assert [""] + [] == [""];
    } else {
      assert s[r..] == e + "/" + s[k + 1..];
      SplitAt(e, s[k + 1..]);
      ReadSlash(Enter(p, e), s, k);
    }
  }

  // The element at `r` when it is "." or "..".
  lemma DotElement(s: string, r: nat)
    requires r < |s| && s[r] == '.'
    ensures r + 1 == |s| || s[r + 1] == '/' <==> Slash(s[r..]) == 1
    ensures r + 1 < |s| && s[r + 1] == '.' && (r + 2 == |s| || s[r + 2] == '/') <==> Slash(s[r..]) == 2 && s[r..r + 2] == ".."
  {
    var t := s[r..];
    assert t[1..] == s[r + 1..];
    if r + 1 < |s| { assert t[1..][1..] == s[r + 2..]; }
  }

  // What holds between two elements: the buffer holds the text of the place reached so far, the
  // rest of the input leads from there to where the whole input leads, and there is room for it.
  ghost predicate Progress(input: string, r: nat, dotdot: nat, isRoot: bool, p: Place, buf: string) {
    && r <= |input| && Canonical(p) && p.root == isRoot
    && buf == Text(p) && |buf| <= r && dotdot == |Text(p.(names := []))|
    && Follow(p, Split(input[r..])) == Meaning(input)
    && (r < |input| && input[r] != '/' ==> Parts(p) == [] || |buf| < r)
  }

  // One turn of the loop.
  method Step(ret: array<char>, input: string, r0: nat, w0: nat, dotdot0: nat, isRoot: bool, ghost p0: Place)
    returns (r: nat, w: nat, dotdot: nat, ghost p: Place)
    requires r0 < |input| && ret.Length == |input| + 1 && w0 <= r0
    requires Progress(input, r0, dotdot0, isRoot, p0, ret[..w0])
    modifies ret
    ensures r0 < r <= |input| && w <= r && Progress(input, r, dotdot, isRoot, p, ret[..w])
  {
    hide Text, Parts, Split, Follow, Enter, Slash, IsName, Meaning;
    r, w, dotdot, p := r0, w0, dotdot0, p0;
    ghost var k := r + Slash(input[r..]);
    ghost var e := input[r..k];
    assert input[r..][..k - r] == e;
    ReadElement(p, input, r);
    EnterCanonical(p, e);
    if input[r] == '/' {
      ReadSlash(p, input, r);
      r := r + 1;
    } else if input[r] == '.' && (r + 1 == |input| || input[r + 1] == '/') {
      DotElement(input, r);
      assert e == ".";
      EnterDot(p);
      r := r + 1;
    } else if input[r] == '.' && input[r + 1] == '.' && (r + 2 == |input| || input[r + 2] == '/') {
      DotElement(input, r);
      p := Enter(p, "..");
      r := r + 2;
      w, dotdot := StepUp(ret, w, dotdot, isRoot, p0);
    } else {
      NameElement(input, r);
      w, r := StepName(ret, w, input, r, isRoot, p);
      EnterName(p, e);
      p := Enter(p, e);
    }
  }

  lemma EnterDot(p: Place)
    ensures Enter(p, ".") == p
  {
  }

  lemma EnterName(p: Place, e: string)
    requires IsName(e)
    ensures Enter(p, e) == p.(names := p.names + [e]) && Enter(p, e).(names := []) == p.(names := [])
  {
  }

  // What is neither a slash, nor "." nor "..", is a name.
  lemma NameElement(s: string, r: nat)
    requires r < |s| && s[r] != '/'
    requires !(s[r] == '.' && (r + 1 == |s| || s[r + 1] == '/'))
    requires !(s[r] == '.' && s[r + 1] == '.' && (r + 2 == |s| || s[r + 2] == '/'))
    ensures IsName(s[r..r + Slash(s[r..])]) && 0 < Slash(s[r..])
  {
    var k := Slash(s[r..]);
    var e := s[r..r + k];
    assert s[r..][..k] == e;
    assert k > 0;
    if s[r] == '.' { DotElement(s, r); }
    assert e[0] == s[r];
  }

  // The canonicaliser. The empty path gives a buffer that holds "." and nothing else; any other
  // path, cut off at the length limit, gives its sanitized form and zeros up to the end.
  method Sanitize(path: string) returns (ret: array<char>)
    ensures fresh(ret)
    ensures path == "" ==> ret[..] == "."
    ensures path != "" ==>
      var s := if |path| > MAX_PATH_LEN then path[..MAX_PATH_LEN] else path;
      && |Sanitized(s)| <= |s| && ret.Length == |s| + 1 && ret[..|Sanitized(s)|] == Sanitized(s)
      && forall k :: |Sanitized(s)| <= k < ret.Length ==> ret[k] == '\0'
  {
    hide Text, Parts, Split, Follow, Meaning;
    var input := if |path| > MAX_PATH_LEN then path[..MAX_PATH_LEN] else path;
    var n := |input|;
    ret := new char[n + 1](_ => '\0');
    if n == 0 {
      ret[0] := '.';
      return;
    }
    var isRoot := input[0] == '/';
    var w, r, dotdot := 0, 0, 0;
    ghost var p := Start(input);
    if isRoot {
      ret[w] := '/';
      w, r, dotdot := 1, 1, 1;
    }
    StartProgress(input, ret[..w]);
    while r < n
      invariant 0 <= w <= r <= n && ret.Length == n + 1
      invariant Progress(input, r, dotdot, isRoot, p, ret[..w])
      decreases n - r
    {
      r, w, dotdot, p := Step(ret, input, r, w, dotdot, isRoot, p);
    }
    EndProgress(input, dotdot, isRoot, p, ret[..w]);
    ghost var t := ret[..w];
    if w == 0 {
      ret[w] := '.';
      w := w + 1;
    }
    assert ret[..w] == Sanitized(input);
    ClearFrom(ret, w);
  }

  method ClearFrom(ret: array<char>, w: nat)
    requires w <= ret.Length
    modifies ret
    ensures ret[..w] == old(ret[..w]) && forall k :: w <= k < ret.Length ==> ret[k] == '\0'
  {
    var k := w;
    while k < ret.Length
      invariant w <= k <= ret.Length && forall j :: 0 <= j < w ==> ret[j] == old(ret[j])
      invariant forall j :: w <= j < k ==> ret[j] == '\0'
    {
      ret[k] := '\0';
      k := k + 1;
    }
  }

  lemma StartProgress(input: string, buf: string)
    requires input != "" && buf == (if input[0] == '/' then "/" else "")
    ensures Progress(input, if input[0] == '/' then 1 else 0, |buf|, input[0] == '/', Start(input), buf)
  {
    hide Split, Follow, Enter;
    assert input[0..] == input;
    if input[0] == '/' { ReadSlash(Start(input), input, 0); }
    assert Start(input).(names := []) == Start(input);
    assert Parts(Start(input)) == [];
  }

  lemma EndProgress(input: string, dotdot: nat, isRoot: bool, p: Place, buf: string)
    requires Progress(input, |input|, dotdot, isRoot, p, buf)
    ensures buf == Text(Meaning(input))
  {
    hide Text, Parts, Enter;
    assert input[|input|..] == "";
    SplitPlain("");
    FollowSkips(p, []);
    assert [""] + [] == [""];
  }
}
