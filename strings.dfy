/**
 * The two `str` methods the script applies to attribute values and identifiers:
 * `lower()` (ASCII letters only) and `replace(old, new)`, with Python's
 * `sep.join(s.split(old))` as an independent reference for the latter.
 */
module Strings {
  import opened Wrappers

  // ---------------------------------------------------------------------------
  // Lower-casing

  function LowerChar(c: char): char {
    if 'A' <= c <= 'Z' then (c as int + 32) as char else c
  }

  /** `s.lower()`, restricted to the ASCII letters. */
  function Lower(s: string): (r: string)
    ensures |r| == |s|
    ensures forall i :: 0 <= i < |s| ==> r[i] == LowerChar(s[i])
  {
    if s == [] then [] else [LowerChar(s[0])] + Lower(s[1..])
  }

  predicate IsLowerText(t: string) {
    forall i :: 0 <= i < |t| ==> !('A' <= t[i] <= 'Z')
  }

  /** Comparing `s.lower()` with lower-case text is comparing case-insensitively:
      every character of `s` is the expected one, or its upper-case form. */
  lemma LowerEqualsIff(s: string, t: string)
    requires IsLowerText(t)
    ensures Lower(s) == t <==>
      |s| == |t| && forall i :: 0 <= i < |s| ==> s[i] == t[i] || ('A' <= s[i] <= 'Z' && LowerChar(s[i]) == t[i])
  {
    if |s| == |t| && forall i :: 0 <= i < |s| ==> s[i] == t[i] || ('A' <= s[i] <= 'Z' && LowerChar(s[i]) == t[i]) {
      assert forall i :: 0 <= i < |s| ==> Lower(s)[i] == t[i];
    }
  }

  // ---------------------------------------------------------------------------
  // Searching

  /** `pat` occurs in `s` starting at index `i`. */
  predicate OccursAt(s: string, pat: string, i: nat) {
    i + |pat| <= |s| && s[i..i + |pat|] == pat
  }

  /** Occurrences in `s` past its first character are the occurrences in `s[1..]`. */
  lemma OccursInTail(s: string, pat: string)
    requires s != []
    ensures forall j :: 0 < j <= |s| ==> (OccursAt(s, pat, j) <==> OccursAt(s[1..], pat, j - 1))
  {
    forall j | 0 < j <= |s| ensures OccursAt(s, pat, j) <==> OccursAt(s[1..], pat, j - 1) {
      if j + |pat| <= |s| {
        var here, there := s[j..j + |pat|], s[1..][j - 1..j - 1 + |pat|];
        forall t | 0 <= t < |pat| ensures here[t] == there[t] {
        }
        assert here == there;
      }
    }
  }

  /** `s.find(pat)`: scan from the left for an occurrence of `pat`. The result
      is the first index at which `pat` occurs, and nothing exactly when it
      occurs nowhere. */
  function Find(s: string, pat: string): (r: Option<nat>)
    ensures r.Some? ==> OccursAt(s, pat, r.value)
    ensures r.Some? ==> forall j :: 0 <= j < r.value ==> !OccursAt(s, pat, j)
    ensures r.None? <==> forall j :: 0 <= j <= |s| ==> !OccursAt(s, pat, j)
  {
    if OccursAt(s, pat, 0) then Some(0)
    else if s == [] then None
    else
      OccursInTail(s, pat);
      match Find(s[1..], pat)
      case None => None
      case Some(k) => Some(k + 1)
  }

  // ---------------------------------------------------------------------------
  // Replacing

  /** `s.replace(pat, rep)`: a left-to-right scan that replaces each occurrence of
      `pat` and resumes after it, so occurrences never overlap. */
  function Replace(s: string, pat: string, rep: string): string
    requires pat != []
    decreases |s|
  {
    if OccursAt(s, pat, 0) then rep + Replace(s[|pat|..], pat, rep)
    else if s == [] then []
    else [s[0]] + Replace(s[1..], pat, rep)
  }

  /** A prefix in which no occurrence of `pat` starts is copied unchanged. */
  lemma {:induction false} ReplaceCopiesPrefix(s: string, pat: string, rep: string, k: nat)
    requires pat != [] && k <= |s|
    requires forall j :: 0 <= j < k ==> !OccursAt(s, pat, j)
    ensures Replace(s, pat, rep) == s[..k] + Replace(s[k..], pat, rep)
  {
    if k > 0 {
      assert Replace(s, pat, rep) == [s[0]] + Replace(s[1..], pat, rep) by {
        assert !OccursAt(s, pat, 0);
      }
      OccursInTail(s, pat);
      forall j | 0 <= j < k - 1 ensures !OccursAt(s[1..], pat, j) {
        assert !OccursAt(s, pat, j + 1);
      }
      ReplaceCopiesPrefix(s[1..], pat, rep, k - 1);
      assert s[1..][k - 1..] == s[k..];
      assert s[..k] == [s[0]] + s[1..][..k - 1];
    }
  }

  /** Text in which `pat` does not occur is left unchanged. */
  lemma ReplaceNoOccurrence(s: string, pat: string, rep: string)
    requires pat != []
    requires forall j :: 0 <= j <= |s| ==> !OccursAt(s, pat, j)
    ensures Replace(s, pat, rep) == s
  {
    ReplaceCopiesPrefix(s, pat, rep, |s|);
    assert s[..|s|] == s;
  }

  /** Replacing with text of the same length keeps the length. */
  lemma {:induction false} ReplaceKeepsLength(s: string, pat: string, rep: string)
    requires pat != [] && |rep| == |pat|
    ensures |Replace(s, pat, rep)| == |s|
    decreases |s|
  {
    if OccursAt(s, pat, 0) {
      ReplaceKeepsLength(s[|pat|..], pat, rep);
    } else if s != [] {
      ReplaceKeepsLength(s[1..], pat, rep);
    }
  }

  /** Text with exactly one occurrence of `pat`, and none overlapping its left
      edge, has that one occurrence replaced and nothing else. */
  lemma ReplaceSingle(a: string, pat: string, b: string, rep: string)
    requires pat != []
    requires forall j :: 0 <= j < |a| ==> !OccursAt(a + pat, pat, j)
    requires forall j :: 0 <= j <= |b| ==> !OccursAt(b, pat, j)
    ensures Replace(a + pat + b, pat, rep) == a + rep + b
  {
    var s := a + pat + b;
    forall j | 0 <= j < |a| ensures !OccursAt(s, pat, j) {
      assert !OccursAt(a + pat, pat, j);
      assert s[j..j + |pat|] == (a + pat)[j..j + |pat|];
    }
    ReplaceCopiesPrefix(s, pat, rep, |a|);
    assert s[..|a|] == a;
    var t := s[|a|..];
    assert t == pat + b;
    assert OccursAt(t, pat, 0);
    assert t[|pat|..] == b;
    ReplaceNoOccurrence(b, pat, rep);
  }

  // ---------------------------------------------------------------------------
  // Reference: rep.join(s.split(pat))

  /** `s.split(sep)` for a non-empty separator. */
  function SplitOn(s: string, sep: string): (parts: seq<string>)
    requires sep != []
    ensures |parts| >= 1
    decreases |s|
  {
    var found := Find(s, sep);
    if found.None? then [s]
    else [s[..found.value]] + SplitOn(s[found.value + |sep|..], sep)
  }

  /** `sep.join(parts)`. */
  function JoinWith(parts: seq<string>, sep: string): string {
    if parts == [] then ""
    else if |parts| == 1 then parts[0]
    else parts[0] + sep + JoinWith(parts[1..], sep)
  }

  lemma JoinWithCons(part: string, rest: seq<string>, sep: string)
    requires rest != []
    ensures JoinWith([part] + rest, sep) == part + sep + JoinWith(rest, sep)
  {
    assert ([part] + rest)[1..] == rest;
  }

  /** Splitting on a separator and joining with it gives the text back. */
  lemma {:induction false} SplitOnJoinWith(s: string, sep: string)
    requires sep != []
    ensures JoinWith(SplitOn(s, sep), sep) == s
    decreases |s|
  {
    var found := Find(s, sep);
    if found.Some? {
      var i := found.value;
      var rest := s[i + |sep|..];
      JoinWithCons(s[..i], SplitOn(rest, sep), sep);
      SplitOnJoinWith(rest, sep);
      assert s[i..i + |sep|] == sep;
      assert s == s[..i] + s[i..i + |sep|] + rest;
    }
  }

  /** At the first occurrence, `replace` copies what precedes it, writes the
      replacement and carries on after the occurrence. */
  lemma ReplaceAtFirst(s: string, pat: string, rep: string, i: nat)
    requires pat != [] && OccursAt(s, pat, i)
    requires forall j :: 0 <= j < i ==> !OccursAt(s, pat, j)
    ensures Replace(s, pat, rep) == s[..i] + rep + Replace(s[i + |pat|..], pat, rep)
  {
    var t, rest := s[i..], s[i + |pat|..];
    assert OccursAt(t, pat, 0) by {
      assert t[..|pat|] == s[i..i + |pat|];
    }
    assert t[|pat|..] == rest;
    calc {
      Replace(s, pat, rep);
      { ReplaceCopiesPrefix(s, pat, rep, i); }
      s[..i] + Replace(t, pat, rep);
      s[..i] + (rep + Replace(rest, pat, rep));
      s[..i] + rep + Replace(rest, pat, rep);
    }
  }

  /** `s.replace(pat, rep) == rep.join(s.split(pat))`: the scan agrees with the
      split-and-join reading of replacement. */
  lemma {:induction false} ReplaceIsSplitJoin(s: string, pat: string, rep: string)
    requires pat != []
    ensures Replace(s, pat, rep) == JoinWith(SplitOn(s, pat), rep)
    decreases |s|
  {
    var found := Find(s, pat);
    if found.None? {
      ReplaceNoOccurrence(s, pat, rep);
    } else {
      var i := found.value;
      var rest := s[i + |pat|..];
      ReplaceAtFirst(s, pat, rep, i);
      ReplaceIsSplitJoin(rest, pat, rep);
      JoinWithCons(s[..i], SplitOn(rest, pat), rep);
    }
  }
}
