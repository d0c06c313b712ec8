/** How plugin discovery turns the entry names of a plugin jar into the class names it
    inspects: keep entries ending in `.class`, turn `/` into `.`, delete every `.class`,
    and keep names inside the plugins package. */
module PluginDiscovery {
  import opened Wrappers

  const ClassSuffix := ".class"
  const PluginPackage := "br.edu.ifba.inf008.plugins"

  predicate StartsWith(s: string, prefix: string) {
    |prefix| <= |s| && s[..|prefix|] == prefix
  }

  predicate EndsWith(s: string, suffix: string) {
    |suffix| <= |s| && s[|s| - |suffix|..] == suffix
  }

  /** `pat` occurs in `s` at index `i`. */
  predicate OccursAt(s: string, pat: string, i: int) {
    0 <= i && i + |pat| <= |s| && s[i..i + |pat|] == pat
  }

  /** `s.replace(from, to)` for characters: every `from` becomes `to`. */
  function ReplaceChar(s: string, from: char, to: char): (r: string)
    ensures |r| == |s|
    ensures forall i :: 0 <= i < |s| ==> r[i] == if s[i] == from then to else s[i]
  {
    if s == [] then [] else [if s[0] == from then to else s[0]] + ReplaceChar(s[1..], from, to)
  }

  /** `s.replace(pat, "")`: scanning left to right, every non-overlapping occurrence of `pat`
      is deleted. */
  function RemoveAll(s: string, pat: string): (r: string)
    requires pat != []
    ensures |r| <= |s|
    decreases |s|
  {
    if |s| < |pat| then s
    else if s[..|pat|] == pat then RemoveAll(s[|pat|..], pat)
    else [s[0]] + RemoveAll(s[1..], pat)
  }

  /** The class name inspected for a jar entry, if the entry is kept. */
  function ClassNameOf(entry: string): (r: Option<string>)
    ensures r.Some? ==> EndsWith(entry, ClassSuffix) && StartsWith(r.value, PluginPackage)
    ensures r.Some? ==> '/' !in r.value
  {
    if !EndsWith(entry, ClassSuffix) then None
    else
      var name := RemoveAll(ReplaceChar(entry, '/', '.'), ClassSuffix);
      RemoveAllKeepsAbsentChar(ReplaceChar(entry, '/', '.'), ClassSuffix, '/');
      if StartsWith(name, PluginPackage) then Some(name) else None
  }

  lemma {:induction false} RemoveAllKeepsAbsentChar(s: string, pat: string, c: char)
    requires pat != [] && c !in s
    ensures c !in RemoveAll(s, pat)
    decreases |s|
  {
    if |s| < |pat| {
    } else if s[..|pat|] == pat {
      RemoveAllKeepsAbsentChar(s[|pat|..], pat, c);
    } else {
      RemoveAllKeepsAbsentChar(s[1..], pat, c);
    }
  }

  /** The class names inspected for a jar's entries, in entry order. */
  function ClassNames(entries: seq<string>): (r: seq<string>)
    ensures forall n :: n in r ==> exists e :: e in entries && ClassNameOf(e) == Some(n)
    ensures forall e :: e in entries && ClassNameOf(e).Some? ==> ClassNameOf(e).value in r
  {
    if entries == [] then []
    else
      (match ClassNameOf(entries[0]) case Some(n) => [n] case None => []) + ClassNames(entries[1..])
  }

  /** Deleting `.class` from a name ending in it gives back the stem, when the stem does not
      itself contain `.class`: no occurrence can straddle the join, since `.` starts the
      suffix and appears nowhere else in it. */
  lemma {:induction false} RemoveSuffix(q: string)
    requires forall i :: !OccursAt(q, ClassSuffix, i)
    ensures RemoveAll(q + ClassSuffix, ClassSuffix) == q
  {
    var s := q + ClassSuffix;
    if q == [] {
      assert s[|ClassSuffix|..] == [];
    } else {
      if |q| >= |ClassSuffix| {
        assert q[0..|ClassSuffix|] == s[..|ClassSuffix|];
        assert !OccursAt(q, ClassSuffix, 0);
      } else {
        assert s[..|ClassSuffix|][|q|] == s[|q|] == '.';
        assert ClassSuffix[|q|] != '.';
      }
      assert s[..|ClassSuffix|] != ClassSuffix;
      forall i
        ensures !OccursAt(q[1..], ClassSuffix, i)
      {
        if 0 <= i && i + |ClassSuffix| <= |q[1..]| {
          assert q[1..][i..i + |ClassSuffix|] == q[i + 1..i + 1 + |ClassSuffix|];
          assert !OccursAt(q, ClassSuffix, i + 1);
        }
      }
      RemoveSuffix(q[1..]);
      assert s[1..] == q[1..] + ClassSuffix;
      assert q == [q[0]] + q[1..];
    }
  }

  /** The usual case: a jar entry `path.class` inside the plugins package becomes the path
      with `/` turned into `.`. */
  lemma ClassEntryName(path: string)
    requires forall i :: !OccursAt(ReplaceChar(path, '/', '.'), ClassSuffix, i)
    requires StartsWith(ReplaceChar(path, '/', '.'), PluginPackage)
    ensures ClassNameOf(path + ClassSuffix) == Some(ReplaceChar(path, '/', '.'))
  {
    var entry := path + ClassSuffix;
    var q := ReplaceChar(path, '/', '.');
    assert entry[|entry| - |ClassSuffix|..] == ClassSuffix;
    assert EndsWith(entry, ClassSuffix);
    ReplaceCharAppend(path, ClassSuffix);
    RemoveSuffix(q);
    assert RemoveAll(ReplaceChar(entry, '/', '.'), ClassSuffix) == q;
  }

  /** Replacing characters in two joined strings replaces them in each; `.class` holds no `/`. */
  lemma ReplaceCharAppend(path: string, suffix: string)
    requires '/' !in suffix
    ensures ReplaceChar(path + suffix, '/', '.') == ReplaceChar(path, '/', '.') + suffix
  {
    var r := ReplaceChar(path + suffix, '/', '.');
    var t := ReplaceChar(path, '/', '.') + suffix;
    assert |r| == |t|;
    forall k | 0 <= k < |r| ensures r[k] == t[k] {
      if k < |path| {
        assert (path + suffix)[k] == path[k];
      } else {
        assert (path + suffix)[k] == suffix[k - |path|];
      }
    }
  }

}
