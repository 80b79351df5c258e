/**
 * Path handling for the project scanner: the ignore set, the rendering of a
 * root-relative path as text, and the text ordering used to store the
 * directory list of a sector in sorted order.
 */
module Paths {

  /** Directory names whose entries (and whole subtrees) the walk skips. */
  const IgnoreDirs: set<string> := {".venv", "__pycache__", ".git"}

  /** True when some component of `parts` is an ignored directory name. */
  function HasIgnoredPart(parts: seq<string>): (b: bool)
    ensures b <==> exists k :: 0 <= k < |parts| && parts[k] in IgnoreDirs
  {
    if |parts| == 0 then false
    else if parts[0] in IgnoreDirs then true
    else
      var rest := HasIgnoredPart(parts[1..]);
      assert forall k :: 1 <= k < |parts| ==> parts[k] == parts[1..][k - 1];
      rest
  }

  /** The text of a relative path with `/` between its components (`.` when it has none). */
  function JoinPath(parts: seq<string>): string
  {
    if |parts| == 0 then "."
    else if |parts| == 1 then parts[0]
    else parts[0] + "/" + JoinPath(parts[1..])
  }

  /** The text of a path starts with its first component and ends with its
      last; a path of two or more components has a `/` in its text. */
  lemma {:induction false} JoinPathEnds(parts: seq<string>)
    ensures |parts| == 0 ==> JoinPath(parts) == "."
    ensures |parts| > 0 ==> |parts[0]| <= |JoinPath(parts)| && JoinPath(parts)[..|parts[0]|] == parts[0]
    ensures |parts| > 0 ==> var r, last := JoinPath(parts), parts[|parts| - 1];
      |last| <= |r| && r[|r| - |last|..] == last
    ensures |parts| > 1 ==> '/' in JoinPath(parts)
  {
    if |parts| > 1 {
      var tail := JoinPath(parts[1..]);
      JoinPathEnds(parts[1..]);
      assert parts[1..][|parts[1..]| - 1] == parts[|parts| - 1];
      var r := JoinPath(parts);
      assert r == parts[0] + "/" + tail;
      assert r[|parts[0]|] == '/';
      assert r[|r| - |tail|..] == tail;
    }
  }

  /** No component of `parts` contains the separator `/`. */
  predicate SlashFree(parts: seq<string>)
  {
    forall k :: 0 <= k < |parts| ==> '/' !in parts[k]
  }

  /** Two non-empty paths whose components hold no `/` have the same text
      only when they are the same path. */
  lemma {:induction false} JoinPathInjective(a: seq<string>, b: seq<string>)
    requires |a| > 0 && |b| > 0 && SlashFree(a) && SlashFree(b)
    requires JoinPath(a) == JoinPath(b)
    ensures a == b
  {
    var s := JoinPath(a);
    if |a| > 1 {
      JoinPathEnds(a);
      assert '/' !in b[0];
    }
    if |b| > 1 {
      JoinPathEnds(b);
      assert '/' !in a[0];
    }
    if |a| > 1 && |b| > 1 {
      var ha, hb := a[0], b[0];
      assert s == ha + "/" + JoinPath(a[1..]);
      assert s == hb + "/" + JoinPath(b[1..]);
      assert s[|ha|] == '/' && s[|hb|] == '/';
      assert forall j :: 0 <= j < |ha| ==> s[j] == ha[j];
      assert forall j :: 0 <= j < |hb| ==> s[j] == hb[j];
      assert |ha| == |hb|;
      assert ha == s[..|ha|] == hb;
      assert JoinPath(a[1..]) == s[|ha| + 1..] == JoinPath(b[1..]);
      assert SlashFree(a[1..]) by { assert forall k :: 0 <= k < |a| - 1 ==> a[1..][k] == a[k + 1]; }
      assert SlashFree(b[1..]) by { assert forall k :: 0 <= k < |b| - 1 ==> b[1..][k] == b[k + 1]; }
      JoinPathInjective(a[1..], b[1..]);
      assert a == [ha] + a[1..];
      assert b == [hb] + b[1..];
    }
  }

  /** Strict lexicographic order on texts, character by character on code points,
      a proper prefix coming first. */
  predicate Less(a: string, b: string): (r: bool)
    ensures |a| <= |b| && a == b[..|a|] ==> (r <==> |a| < |b|)
    ensures |b| <= |a| && b == a[..|b|] ==> !r
  {
    if |a| == 0 then |b| > 0
    else |b| > 0 && (a[0] < b[0] || (a[0] == b[0] && Less(a[1..], b[1..])))
  }

  lemma {:induction false} LessIrreflexive(a: string)
    ensures !Less(a, a)
  {
    if |a| > 0 {
      LessIrreflexive(a[1..]);
    }
  }

  lemma {:induction false} LessTransitive(a: string, b: string, c: string)
    requires Less(a, b) && Less(b, c)
    ensures Less(a, c)
  {
    if |a| > 0 && a[0] == b[0] && b[0] == c[0] {
      LessTransitive(a[1..], b[1..], c[1..]);
    }
  }

  lemma {:induction false} LessTotal(a: string, b: string)
    requires a != b
    ensures Less(a, b) || Less(b, a)
  {
    if |a| > 0 && |b| > 0 && a[0] == b[0] {
      assert a == [a[0]] + a[1..] && b == [b[0]] + b[1..];
      LessTotal(a[1..], b[1..]);
    }
  }

  /** Strictly increasing, hence also free of duplicates. */
  ghost predicate StrictlySorted(s: seq<string>)
  {
    forall i, j :: 0 <= i < j < |s| ==> Less(s[i], s[j])
  }

  /** The least text of a non-empty set. */
  method MinPath(s: set<string>) returns (m: string)
    requires s != {}
    ensures m in s
    ensures forall x :: x in s && x != m ==> Less(m, x)
  {
    m :| m in s;
    var rest := s - {m};
    while rest != {}
      invariant rest <= s && m in s && m !in rest
      invariant forall x :: x in s - rest && x != m ==> Less(m, x)
      decreases rest
    {
      var y :| y in rest;
      if Less(y, m) {
        forall x | x in s - (rest - {y}) && x != y
          ensures Less(y, x)
        {
          if x != m {
            LessTransitive(y, m, x);
          }
        }
        m := y;
      } else {
        LessTotal(y, m);
      }
      rest := rest - {y};
    }
  }

  /** The directory set written out as a strictly increasing sequence. */
  method SortPaths(s: set<string>) returns (r: seq<string>)
    ensures StrictlySorted(r)
    ensures forall x :: x in r <==> x in s
  {
    r := [];
    var rest := s;
    while rest != {}
      invariant rest <= s
      invariant forall x :: x in s <==> x in r || x in rest
      invariant forall x :: x in r ==> x !in rest
      invariant StrictlySorted(r)
      invariant forall i, x :: 0 <= i < |r| && x in rest ==> Less(r[i], x)
      decreases rest
    {
      var m := MinPath(rest);
      r := r + [m];
      rest := rest - {m};
    }
  }

  /** A set has exactly one strictly increasing enumeration. */
  lemma {:induction false} StrictlySortedUnique(a: seq<string>, b: seq<string>)
    requires StrictlySorted(a) && StrictlySorted(b)
    requires forall x :: x in a <==> x in b
    ensures a == b
    decreases |a|
  {
    assert a != [] ==> a[0] in b;
    assert b != [] ==> b[0] in a;
    if a != [] {
      if a[0] != b[0] {
        var i :| 0 <= i < |a| && a[i] == b[0];
        var j :| 0 <= j < |b| && b[j] == a[0];
        assert Less(a[0], a[i]);
        assert Less(b[0], b[j]);
        LessTransitive(a[0], b[0], a[0]);
        LessIrreflexive(a[0]);
      }
      forall x
        ensures x in a[1..] <==> x in b[1..]
      {
        if x in a[1..] {
          var i :| 1 <= i < |a| && a[i] == x;
          assert Less(a[0], x);
          LessIrreflexive(x);
          assert x in a && x in b;
          var j :| 0 <= j < |b| && b[j] == x;
          assert j != 0;
        }
        if x in b[1..] {
          var j :| 1 <= j < |b| && b[j] == x;
          assert Less(b[0], x);
          LessIrreflexive(x);
          assert x in b && x in a;
          var i :| 0 <= i < |a| && a[i] == x;
          assert i != 0;
        }
      }
      StrictlySortedUnique(a[1..], b[1..]);
      assert a == [a[0]] + a[1..];
      assert b == [b[0]] + b[1..];
    }
  }
}
