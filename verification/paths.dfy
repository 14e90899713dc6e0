/** Slash-separated path strings: splitting (`strings.Split` on the
    separator), joining, the first segment of a key, the parent of a path
    (`filepath.Split` followed by trimming one trailing separator) and the set
    of a path together with all of its slash-ancestors. */
module Paths {

  const Sep: char := '/'

  /** Index of the first separator of `s`, or `|s|` when it has none. */
  function FirstSep(s: string): (i: nat)
    ensures i <= |s|
    ensures i < |s| ==> s[i] == Sep
    ensures forall j :: 0 <= j < i ==> s[j] != Sep
  {
    if |s| == 0 then 0
    else if s[0] == Sep then 0
    else 1 + FirstSep(s[1..])
  }

  /** Index of the last separator of `s`, or -1 when it has none. */
  function LastSep(s: string): (i: int)
    ensures -1 <= i < |s|
    ensures 0 <= i ==> s[i] == Sep
    ensures forall j :: i < j < |s| ==> s[j] != Sep
  {
    if |s| == 0 then -1
    else if s[|s| - 1] == Sep then |s| - 1
    else LastSep(s[..|s| - 1])
  }

  /** `strings.Split(s, "/")`: never empty (`SplitPieces` shows that no
      element holds a separator). */
  function Split(s: string): (r: seq<string>)
    ensures |r| >= 1
    decreases |s|
  {
    var i := FirstSep(s);
    if i == |s| then [s] else [s[..i]] + Split(s[i + 1..])
  }

  /** No piece of a split holds a separator. */
  lemma {:induction false} SplitPieces(s: string)
    ensures forall i :: 0 <= i < |Split(s)| ==> Sep !in Split(s)[i]
    decreases |s|
  {
    var i := FirstSep(s);
    if i < |s| {
      SplitPieces(s[i + 1..]);
      SplitCons(s);
    }
  }

  /** `strings.Join(segs, "/")`. */
  function Join(segs: seq<string>): string
    requires |segs| >= 1
  {
    if |segs| == 1 then segs[0] else segs[0] + [Sep] + Join(segs[1..])
  }

  /** The name of the user-visible link for a payload key: everything before
      the first separator, or the whole key when it has none. */
  function FirstSegment(k: string): (n: string)
    ensures Sep !in n
    ensures n <= k
    ensures n == Split(k)[0]
  {
    k[..FirstSep(k)]
  }

  /** The directory part of `s` with its trailing separator trimmed: the step
      of the ancestor walk in `pathsToRemove`. */
  function Parent(s: string): (r: string)
    ensures s != "" ==> |r| < |s|
    ensures r <= s
  {
    var i := LastSep(s);
    if i < 0 then "" else s[..i]
  }

  /** A non-empty path together with every proper prefix that ends just before
      a separator (other than the empty prefix): the path and all of its
      slash-ancestors. */
  function AncestorSet(s: string): set<string>
  {
    (if s == "" then {} else {s}) + (set i | 0 < i < |s| && s[i] == Sep :: s[..i])
  }

  /** `dir/…`: the path lies strictly inside `dir`. */
  predicate Below(dir: string, p: string) {
    dir + [Sep] <= p
  }

  /** The path is `dir` itself or lies inside it. */
  predicate Within(dir: string, p: string) {
    p == dir || Below(dir, p)
  }

  // ---------------------------------------------------------------------------
  // Lemmas

  /** Splitting and joining are inverse: joining the pieces gives back the
      string. */
  lemma {:induction false} JoinSplit(s: string)
    ensures Join(Split(s)) == s
    decreases |s|
  {
    var i := FirstSep(s);
    if i < |s| {
      var rest := s[i + 1..];
      JoinSplit(rest);
      SplitCons(s);
      JoinCons(s[..i], Split(rest));
      SplitAround(s, i);
    }
  }

  /** One step of `Split`: the piece before the first separator, then the
      split of the rest. */
  lemma SplitCons(s: string)
    requires Sep in s
    ensures Split(s) == [s[..FirstSep(s)]] + Split(s[FirstSep(s) + 1..])
  {
  }

  lemma ConcatSlices(a: string, b: string)
    ensures (a + [Sep] + b)[..|a|] == a
    ensures (a + [Sep] + b)[|a| + 1..] == b
  {
  }

  lemma SplitAround(s: string, i: nat)
    requires i < |s| && s[i] == Sep
    ensures s == s[..i] + [Sep] + s[i + 1..]
  {
  }

  /** Joining a piece in front of a non-empty sequence of pieces. */
  lemma JoinCons(a: string, rest: seq<string>)
    requires |rest| >= 1
    ensures Join([a] + rest) == a + [Sep] + Join(rest)
  {
    assert ([a] + rest)[1..] == rest;
  }

  /** Splitting a join of separator-free pieces gives back the pieces. */
  lemma {:induction false} SplitJoin(segs: seq<string>)
    requires |segs| >= 1
    requires forall i :: 0 <= i < |segs| ==> Sep !in segs[i]
    ensures Split(Join(segs)) == segs
  {
    if |segs| > 1 {
      var rest := Join(segs[1..]);
      SplitJoin(segs[1..]);
      assert segs == [segs[0]] + segs[1..];
      JoinCons(segs[0], segs[1..]);
      FirstSepOfConcat(segs[0], rest);
      SplitCons(segs[0] + [Sep] + rest);
      ConcatSlices(segs[0], rest);
    } else {
      FirstSepNone(segs[0]);
    }
  }

  lemma FirstSepNone(s: string)
    requires Sep !in s
    ensures FirstSep(s) == |s|
  {
  }

  lemma FirstSepOfConcat(a: string, b: string)
    requires Sep !in a
    ensures FirstSep(a + [Sep] + b) == |a|
  {
    var s := a + [Sep] + b;
    assert s[|a|] == Sep;
  }

  /** A separator-free string splits into itself. */
  lemma SplitNoSep(s: string)
    requires Sep !in s
    ensures Split(s) == [s]
  {
    FirstSepNone(s);
  }

  /** Appending a separator-free segment appends it to the split. */
  lemma {:induction false} SplitAppend(a: string, b: string)
    requires Sep !in b
    ensures Split(a + [Sep] + b) == Split(a) + [b]
    decreases |a|
  {
    var s := a + [Sep] + b;
    var i := FirstSep(a);
    if i == |a| {
      FirstSepOfConcat(a, b);
      assert s[..|a|] == a;
      assert s[|a| + 1..] == b;
      SplitNoSep(b);
    } else {
      assert FirstSep(s) == i by {
        assert s[i] == Sep;
        assert forall j :: 0 <= j < i ==> s[j] == a[j];
      }
      assert s[..i] == a[..i];
      assert s[i + 1..] == a[i + 1..] + [Sep] + b;
      SplitAppend(a[i + 1..], b);
    }
  }

  /** If `name` has no separator and `name/` is a prefix of `t`, then `name`
      is the first segment of `t`. */
  lemma FirstSegmentOfBelow(name: string, t: string)
    requires Sep !in name
    requires Below(name, t)
    ensures Split(t)[0] == name
  {
    assert t[|name|] == Sep;
    assert forall j :: 0 <= j < |name| ==> t[j] == name[j];
    assert forall j :: 0 <= j < |name| ==> t[j] != Sep by {
      forall j | 0 <= j < |name| ensures t[j] != Sep {
        assert name[j] in name;
      }
    }
    assert FirstSep(t) == |name|;
    assert t[..|name|] == name;
  }

  /** One step of the ancestor walk: the ancestors of a non-empty path are the
      path itself and the ancestors of its parent. */
  lemma AncestorSetStep(s: string)
    requires s != ""
    ensures AncestorSet(s) == {s} + AncestorSet(Parent(s))
  {
    var i := LastSep(s);
    var p := Parent(s);
    var lhs := set j | 0 < j < |s| && s[j] == Sep :: s[..j];
    var rhs := set j | 0 < j < |p| && p[j] == Sep :: p[..j];
    if i < 0 {
      assert lhs == {};
    } else {
      assert p == s[..i];
      forall a | a in lhs ensures a in AncestorSet(p) {
        var j :| 0 < j < |s| && s[j] == Sep && a == s[..j];
        assert j <= i;
        if j < i {
          assert p[j] == Sep && p[..j] == a;
          assert a in rhs;
        } else {
          assert a == p;
        }
      }
      forall a | a in AncestorSet(p) ensures a in lhs {
        if a == p {
          assert 0 < i;
          assert a == s[..i];
        } else {
          var j :| 0 < j < |p| && p[j] == Sep && a == p[..j];
          assert s[j] == Sep && s[..j] == a;
        }
      }
    }
  }

  /** Every ancestor is a prefix of the path, and the path is its own
      ancestor. */
  lemma AncestorsArePrefixes(s: string, a: string)
    requires a in AncestorSet(s)
    ensures a <= s && a != ""
  {
  }

  /** The ancestors of a path below a separator-free directory name are that
      directory or lie inside it. */
  lemma AncestorsWithin(name: string, s: string, a: string)
    requires Sep !in name
    requires Below(name, s)
    requires a in AncestorSet(s)
    ensures Within(name, a)
  {
    if a != s {
      var j :| 0 < j < |s| && s[j] == Sep && a == s[..j];
      if j > |name| {
        assert a[..|name| + 1] == name + [Sep];
      }
    }
  }

  /** A path inside a directory has a separator right after the directory
      name; so a separator-free name lies inside nothing. */
  lemma BelowHasSep(dir: string, p: string)
    ensures Below(dir, p) ==> |p| > |dir| && p[|dir|] == Sep && Sep in p
  {
    if Below(dir, p) {
      assert (dir + [Sep])[|dir|] == Sep;
    }
  }

  /** A path at or inside a separator-free name has that name as a segment. */
  lemma WithinSplit(name: string, p: string)
    requires Sep !in name
    requires Within(name, p)
    ensures name in Split(p)
  {
    if p == name {
      SplitNoSep(name);
    } else {
      FirstSegmentOfBelow(name, p);
    }
  }

  /** Two directories that both contain a path, the first separator-free:
      the first is a segment of the second. */
  lemma SharedWithin(n: string, o: string, q: string)
    requires Sep !in n
    ensures Within(n, q) && Within(o, q) ==> n in Split(o)
  {
    if Within(n, q) && Within(o, q) {
      if q == o {
        WithinSplit(n, o);
      } else {
        assert q[|o|] == Sep;
        assert |o| >= |n|;
        if |o| == |n| {
          assert o == q[..|o|] == n;
          SplitNoSep(n);
        } else {
          assert q[..|n| + 1] == n + [Sep];
          assert o[..|n| + 1] == q[..|n| + 1];
          assert Below(n, o);
          FirstSegmentOfBelow(n, o);
        }
      }
    }
  }

  /** `path.Join(dir, k)` for a cleaned key `k`: the key `.` names `dir`. */
  function SnapPath(dir: string, k: string): string {
    if k == "." then dir else dir + [Sep] + k
  }

  lemma SnapPathInjective(dir: string, k1: string, k2: string)
    requires SnapPath(dir, k1) == SnapPath(dir, k2)
    ensures k1 == k2
  {
    if k1 != "." && k2 != "." {
      assert k1 == SnapPath(dir, k1)[|dir| + 1..];
    }
  }

  /** An ancestor of `dir/k` strictly inside `dir/` is `dir/` followed by
      an ancestor of `k`. */
  lemma {:induction false} AncestorBelow(dir: string, k: string, q: string)
    requires k != "."
    requires q in AncestorSet(SnapPath(dir, k))
    requires Below(dir, q) && |q| > |dir| + 1
    ensures q[|dir| + 1..] in AncestorSet(k)
  {
    var s := SnapPath(dir, k);
    var m := |dir| + 1;
    if q != s {
      var i :| 0 < i < |s| && s[i] == Sep && q == s[..i];
      assert k[i - m] == s[i];
      assert q[m..] == k[..i - m];
    }
  }
}
