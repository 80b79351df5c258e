/**
 * Sector discovery: the directories directly under the project root whose
 * name contains `_` are sectors; the sector's name is the text after the
 * first `_` with every `-` turned into a space.
 */
module Discovery {

  /** One child of the project root, as the directory listing yields it. */
  datatype Child = Child(name: string, isDir: bool)

  /** A child is a sector when it is a directory whose name contains `_`. */
  predicate IsSectorDir(c: Child)
  {
    c.isDir && '_' in c.name
  }

  /** The text after the first occurrence of `sep` (the second half of a split at most once). */
  function AfterFirst(s: string, sep: char): (r: string)
    requires sep in s
    ensures exists k :: 0 <= k < |s| && s[k] == sep && sep !in s[..k] && r == s[k + 1..]
  {
    if s[0] == sep then
      assert s[..0] == [];
      s[1..]
    else
      assert sep in s[1..] by {
        var j :| 0 <= j < |s| && s[j] == sep;
        assert s[1..][j - 1] == sep;
      }
      var r := AfterFirst(s[1..], sep);
      ghost var k :| 0 <= k < |s[1..]| && s[1..][k] == sep && sep !in s[1..][..k] && r == s[1..][k + 1..];
      assert s[..k + 1] == [s[0]] + s[1..][..k];
      assert r == s[k + 2..];
      r
  }

  /** `s` with every `from` replaced by `to`. */
  function ReplaceChar(s: string, from: char, to: char): (r: string)
    ensures |r| == |s|
  {
    if s == [] then []
    else [if s[0] == from then to else s[0]] + ReplaceChar(s[1..], from, to)
  }

  /** Replacing keeps the length and changes exactly the `from` characters. */
  lemma {:induction false} ReplaceCharSpec(s: string, from: char, to: char)
    ensures |ReplaceChar(s, from, to)| == |s|
    ensures forall i :: 0 <= i < |s| ==> ReplaceChar(s, from, to)[i] == if s[i] == from then to else s[i]
  {
    if s != [] {
      ReplaceCharSpec(s[1..], from, to);
    }
  }

  /** The sector name of a sector directory name. */
  function SectorName(dirName: string): (r: string)
    requires '_' in dirName
    ensures '-' !in r
  {
    ReplaceCharSpec(AfterFirst(dirName, '_'), '-', ' ');
    ReplaceChar(AfterFirst(dirName, '_'), '-', ' ')
  }

  /** The index of the first `sep` of `s`. */
  function FirstIndex(s: string, sep: char): (k: nat)
    requires sep in s
    ensures k < |s| && s[k] == sep && sep !in s[..k]
  {
    if s[0] == sep then 0
    else
      assert sep in s[1..] by {
        var j :| 0 <= j < |s| && s[j] == sep;
        assert s[1..][j - 1] == sep;
      }
      var k := FirstIndex(s[1..], sep);
      assert s[..k + 1] == [s[0]] + s[1..][..k];
      k + 1
  }

  /** The text after the first `sep` starts just past its first index. */
  lemma {:induction false} AfterFirstIndex(s: string, sep: char)
    requires sep in s
    ensures AfterFirst(s, sep) == s[FirstIndex(s, sep) + 1..]
  {
    if s[0] != sep {
      assert sep in s[1..] by {
        var j :| 0 <= j < |s| && s[j] == sep;
        assert s[1..][j - 1] == sep;
      }
      AfterFirstIndex(s[1..], sep);
      assert s[1..][FirstIndex(s[1..], sep) + 1..] == s[FirstIndex(s[1..], sep) + 2..];
    }
  }

  /**
   * The sector name is what follows the first `_` of the directory name,
   * character for character, except that each `-` becomes a space.
   */
  lemma SectorNameSpec(dirName: string)
    requires '_' in dirName
    ensures var k := FirstIndex(dirName, '_');
      && |SectorName(dirName)| == |dirName| - k - 1
      && forall i :: 0 <= i < |dirName| - k - 1 ==>
           SectorName(dirName)[i] == if dirName[k + 1 + i] == '-' then ' ' else dirName[k + 1 + i]
  {
    var k := FirstIndex(dirName, '_');
    SectorNameIsReplaced(dirName);
    ReplacedSuffix(dirName, k);
  }

  /** The sector name is the replacement applied past the first `_`. */
  lemma SectorNameIsReplaced(dirName: string)
    requires '_' in dirName
    ensures SectorName(dirName) == ReplaceChar(dirName[FirstIndex(dirName, '_') + 1..], '-', ' ')
  {
    AfterFirstIndex(dirName, '_');
  }

  /** Replacing in the text past index `k`, stated by position in the whole text. */
  lemma ReplacedSuffix(s: string, k: nat)
    requires k < |s|
    ensures |ReplaceChar(s[k + 1..], '-', ' ')| == |s| - k - 1
    ensures forall i {:trigger ReplaceChar(s[k + 1..], '-', ' ')[i]} :: 0 <= i < |s| - k - 1 ==>
      ReplaceChar(s[k + 1..], '-', ' ')[i] == if s[k + 1 + i] == '-' then ' ' else s[k + 1 + i]
  {
    var after := s[k + 1..];
    ReplaceCharSpec(after, '-', ' ');
    forall i | 0 <= i < |after|
      ensures ReplaceChar(after, '-', ' ')[i] == if s[k + 1 + i] == '-' then ' ' else s[k + 1 + i]
    {
      assert after[i] == s[k + 1 + i];
    }
  }

  /** The name after the first `_` of a name whose first `_` is at index 1. */
  lemma AfterUnderscoreAtOne(n: string)
    requires |n| >= 2 && n[0] != '_' && n[1] == '_'
    ensures AfterFirst(n, '_') == n[2..]
  {
    assert AfterFirst(n, '_') == AfterFirst(n[1..], '_');
    assert n[1..][0] == '_';
    assert n[1..][1..] == n[2..];
  }

  /** A name without `from` is left as it is. */
  lemma {:induction false} ReplaceCharAbsent(s: string, from: char, to: char)
    requires from !in s
    ensures ReplaceChar(s, from, to) == s
  {
    if s != [] {
      ReplaceCharAbsent(s[1..], from, to);
    }
  }

  /** A text that agrees with `s` except that each `-` of `s` is a space is
      what replacing the dashes gives. */
  lemma DashesBecomeSpaces(s: string, t: string)
    requires |t| == |s|
    requires forall i :: 0 <= i < |s| ==> t[i] == if s[i] == '-' then ' ' else s[i]
    ensures ReplaceChar(s, '-', ' ') == t
  {
    ReplaceCharSpec(s, '-', ' ');
  }

  /** `Software-Development` becomes `Software Development`. */
  lemma SoftwareDevelopmentDashes(s: string)
    requires s == "Software-Development"
    ensures ReplaceChar(s, '-', ' ') == "Software Development"
  {
    var t := "Software Development";
    forall i | 0 <= i < |s|
      ensures t[i] == if s[i] == '-' then ' ' else s[i]
    {
    }
    DashesBecomeSpaces(s, t);
  }

  /** `Data-Science-AI` becomes `Data Science AI`: every `-` becomes a space. */
  lemma DataScienceDashes(s: string)
    requires s == "Data-Science-AI"
    ensures ReplaceChar(s, '-', ' ') == "Data Science AI"
  {
    var t := "Data Science AI";
    forall i | 0 <= i < |s|
      ensures t[i] == if s[i] == '-' then ' ' else s[i]
    {
    }
    DashesBecomeSpaces(s, t);
  }

  /** `b_Software-Development` is the sector `Software Development`. */
  lemma SoftwareDevelopmentName(n: string)
    requires n == "b_Software-Development"
    ensures SectorName(n) == "Software Development"
  {
    AfterUnderscoreAtOne(n);
    SoftwareDevelopmentDashes(n[2..]);
  }

  /** `c_Data-Science-AI` is the sector `Data Science AI`: every `-` becomes a space. */
  lemma DataScienceName(n: string)
    requires n == "c_Data-Science-AI"
    ensures SectorName(n) == "Data Science AI"
  {
    AfterUnderscoreAtOne(n);
    DataScienceDashes(n[2..]);
  }

  /** Only the first `_` separates: later ones stay in the name. */
  lemma SplitsAtFirstOnly(n: string)
    requires n == "a_b_c"
    ensures SectorName(n) == "b_c"
  {
    AfterUnderscoreAtOne(n);
    ReplaceCharAbsent(n[2..], '-', ' ');
  }

  /** The sector map a listing yields, built entry by entry: a later
      directory with the same sector name replaces an earlier one. */
  function Sectors(listing: seq<Child>): (r: map<string, string>)
    ensures forall name :: name in r ==> '-' !in name && '_' in r[name]
  {
    if listing == [] then map[]
    else
      var m := Sectors(listing[..|listing| - 1]);
      var c := listing[|listing| - 1];
      if IsSectorDir(c) then m[SectorName(c.name) := c.name] else m
  }

  /** Builds the sector map: sector name to the directory name it came from. */
  method DiscoverSectors(listing: seq<Child>) returns (sectors: map<string, string>)
    ensures sectors == Sectors(listing)
  {
    sectors := map[];
    var i := 0;
    while i < |listing|
      invariant 0 <= i <= |listing|
      invariant sectors == Sectors(listing[..i])
    {
      assert listing[..i + 1][..i] == listing[..i];
      var p := listing[i];
      if IsSectorDir(p) {
        var name := SectorName(p.name);
        sectors := sectors[name := p.name];
      }
      i := i + 1;
    }
    assert listing[..|listing|] == listing;
  }

  /** Some sector directory of the listing has sector name `name`. */
  ghost predicate Names(listing: seq<Child>, name: string)
  {
    exists i :: 0 <= i < |listing| && IsSectorDir(listing[i]) && SectorName(listing[i].name) == name
  }

  /** Entry `i` is the last sector directory of the listing named `name`. */
  ghost predicate LastNaming(listing: seq<Child>, name: string, i: int)
  {
    && 0 <= i < |listing| && IsSectorDir(listing[i]) && SectorName(listing[i].name) == name
    && forall j :: i < j < |listing| ==> !(IsSectorDir(listing[j]) && SectorName(listing[j].name) == name)
  }

  /** The sector map has a key exactly for the sector names of the listing's
      sector directories. */
  lemma {:induction false} SectorsKeys(listing: seq<Child>, name: string)
    ensures name in Sectors(listing) <==> Names(listing, name)
  {
    if listing != [] {
      var pre := listing[..|listing| - 1];
      var c := listing[|listing| - 1];
      SectorsKeys(pre, name);
      if Names(pre, name) {
        var i :| 0 <= i < |pre| && IsSectorDir(pre[i]) && SectorName(pre[i].name) == name;
        assert listing[i] == pre[i];
      }
      if Names(listing, name) && !(IsSectorDir(c) && SectorName(c.name) == name) {
        var i :| 0 <= i < |listing| && IsSectorDir(listing[i]) && SectorName(listing[i].name) == name;
        assert i < |pre| && pre[i] == listing[i];
      }
    }
  }

  /** Each key maps to the last sector directory of the listing with that
      sector name: a later directory replaces an earlier one. */
  lemma {:induction false} SectorsLastWins(listing: seq<Child>, name: string)
    requires name in Sectors(listing)
    ensures exists i :: LastNaming(listing, name, i) && Sectors(listing)[name] == listing[i].name
  {
    var pre := listing[..|listing| - 1];
    var c := listing[|listing| - 1];
    if IsSectorDir(c) && SectorName(c.name) == name {
      assert LastNaming(listing, name, |listing| - 1);
    } else {
      SectorsLastWins(pre, name);
      var i :| LastNaming(pre, name, i) && Sectors(pre)[name] == pre[i].name;
      assert listing[i] == pre[i];
      forall j | i < j < |listing|
        ensures !(IsSectorDir(listing[j]) && SectorName(listing[j].name) == name)
      {
        if j < |pre| {
          assert listing[j] == pre[j];
        }
      }
      assert LastNaming(listing, name, i);
    }
  }
}
