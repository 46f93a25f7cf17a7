/**
 * Whitespace normalisation as Python's `" ".join(text.split())` performs it:
 * the text is cut into maximal runs of non-whitespace characters ("words")
 * and the words are rejoined with single spaces.
 */
module Whitespace {
  import opened Strings

  /** The characters Python's `str.split()` (no separator) splits on: exactly the
      characters for which `str.isspace()` holds. */
  predicate IsSpace(c: char) {
    || ('\t' <= c <= '\r')                  // tab, line feed, vertical tab, form feed, carriage return
    || ('\U{1C}' <= c <= '\U{1F}')          // file, group, record and unit separators
    || c == ' '
    || c == '\U{85}'                        // next line
    || c == '\U{A0}'                        // no-break space
    || c == '\U{1680}'                      // Ogham space mark
    || ('\U{2000}' <= c <= '\U{200A}')      // en quad .. hair space
    || c == '\U{2028}' || c == '\U{2029}'   // line and paragraph separators
    || c == '\U{202F}' || c == '\U{205F}' || c == '\U{3000}'
  }

  /** A word as `str.split()` yields it: non-empty, with no whitespace in it. */
  predicate IsWord(w: string) {
    w != [] && forall i :: 0 <= i < |w| ==> !IsSpace(w[i])
  }

  predicate AllWords(ws: seq<string>) {
    forall i :: 0 <= i < |ws| ==> IsWord(ws[i])
  }

  predicate AllSpace(s: string) {
    forall i :: 0 <= i < |s| ==> IsSpace(s[i])
  }

  /** Length of the run of non-whitespace characters that starts `s`. */
  function WordLength(s: string): (n: nat)
    ensures n <= |s|
    ensures forall i :: 0 <= i < n ==> !IsSpace(s[i])
    ensures n < |s| ==> IsSpace(s[n])
  {
    if s == [] || IsSpace(s[0]) then 0 else 1 + WordLength(s[1..])
  }

  /** `s.split()`: the maximal whitespace-free runs of `s`, left to right. */
  function Words(s: string): (ws: seq<string>)
    ensures AllWords(ws)
    decreases |s|
  {
    if s == [] then []
    else if IsSpace(s[0]) then Words(s[1..])
    else
      var n := WordLength(s);
      [s[..n]] + Words(s[n..])
  }

  /** `" ".join(s.split())`. */
  function Normalize(s: string): string {
    JoinWith(Words(s), " ")
  }

  /** The shape of normalised text: the only whitespace is the plain space, it
      never starts or ends the text, and two spaces are never adjacent. */
  predicate IsNormal(s: string) {
    && (forall i :: 0 <= i < |s| && IsSpace(s[i]) ==> s[i] == ' ')
    && (|s| > 0 ==> s[0] != ' ' && s[|s| - 1] != ' ')
    && (forall i :: 0 < i < |s| && s[i] == ' ' ==> s[i - 1] != ' ')
  }

  // ---------------------------------------------------------------------------
  // Splitting

  lemma {:induction false} WordLengthOfWord(w: string, rest: string)
    requires forall i :: 0 <= i < |w| ==> !IsSpace(w[i])
    requires rest == [] || IsSpace(rest[0])
    ensures WordLength(w + rest) == |w|
  {
    if w != [] {
      assert (w + rest)[1..] == w[1..] + rest;
      WordLengthOfWord(w[1..], rest);
    }
  }

  /** Leading whitespace does not change the words. */
  lemma WordsSkipSpace(c: char, s: string)
    requires IsSpace(c)
    ensures Words([c] + s) == Words(s)
  {
    assert ([c] + s)[1..] == s;
  }

  /** Splitting a word followed by whitespace-led text yields that word first. */
  lemma WordsOfWordThen(w: string, rest: string)
    requires IsWord(w)
    requires rest == [] || IsSpace(rest[0])
    ensures Words(w + rest) == [w] + Words(rest)
  {
    WordLengthOfWord(w, rest);
    assert (w + rest)[..|w|] == w;
    assert (w + rest)[|w|..] == rest;
  }

  /** Round trip: splitting text joined from words gives back those words. */
  lemma {:induction false} WordsOfJoin(ws: seq<string>)
    requires AllWords(ws)
    ensures Words(JoinWith(ws, " ")) == ws
  {
    if ws == [] {
    } else if |ws| == 1 {
      WordsOfWordThen(ws[0], []);
      assert ws[0] + [] == ws[0];
    } else {
      var tail := JoinWith(ws[1..], " ");
      assert ws[0] + " " + tail == ws[0] + ([' '] + tail);
      WordsOfWordThen(ws[0], [' '] + tail);
      WordsSkipSpace(' ', tail);
      WordsOfJoin(ws[1..]);
      assert ws == [ws[0]] + ws[1..];
    }
  }

  /** A run of whitespace contributes no words. */
  lemma {:induction false} WordsAfterSpaces(sp: string, rest: string)
    requires AllSpace(sp)
    ensures Words(sp + rest) == Words(rest)
  {
    if sp != [] {
      assert AllSpace(sp[1..]) by {
        forall i | 0 <= i < |sp[1..]| ensures IsSpace(sp[1..][i]) {
          assert sp[1..][i] == sp[i + 1];
        }
      }
      calc {
        Words(sp + rest);
        { assert sp + rest == [sp[0]] + (sp[1..] + rest); }
        Words([sp[0]] + (sp[1..] + rest));
        { WordsSkipSpace(sp[0], sp[1..] + rest); }
        Words(sp[1..] + rest);
        { WordsAfterSpaces(sp[1..], rest); }
        Words(rest);
      }
    } else {
      assert sp + rest == rest;
    }
  }

  // ---------------------------------------------------------------------------
  // Joining

  /** Joined words start with the first word's first character and end with
      the last word's last character. */
  lemma {:induction false} JoinShape(ws: seq<string>)
    requires AllWords(ws)
    ensures ws != [] ==> JoinWith(ws, " ") != [] && JoinWith(ws, " ")[0] == ws[0][0]
    ensures ws != [] ==> JoinWith(ws, " ")[|JoinWith(ws, " ")| - 1] == ws[|ws| - 1][|ws[|ws| - 1]| - 1]
  {
    if |ws| > 1 {
      var tail := JoinWith(ws[1..], " ");
      JoinShape(ws[1..]);
      assert JoinWith(ws, " ") == ws[0] + " " + tail;
      assert ws[1..][|ws| - 2] == ws[|ws| - 1];
      assert tail != [];
      assert JoinWith(ws, " ")[|JoinWith(ws, " ")| - 1] == tail[|tail| - 1];
    }
  }

  /** Words joined by single spaces form normalised text. */
  lemma {:induction false} JoinIsNormal(ws: seq<string>)
    requires AllWords(ws)
    ensures IsNormal(JoinWith(ws, " "))
  {
    if |ws| > 1 {
      var w, tail := ws[0], JoinWith(ws[1..], " ");
      JoinIsNormal(ws[1..]);
      JoinShape(ws[1..]);
      var s := w + " " + tail;
      forall i | 0 <= i < |s| && IsSpace(s[i]) ensures s[i] == ' ' {
        if i > |w| { assert s[i] == tail[i - |w| - 1]; }
      }
      forall i | 0 < i < |s| && s[i] == ' ' ensures s[i - 1] != ' ' {
        if i > |w| + 1 {
          assert s[i] == tail[i - |w| - 1] && s[i - 1] == tail[i - |w| - 2];
        }
      }
    }
  }

  // ---------------------------------------------------------------------------
  // Properties of normalisation

  /** Normalised text has no leading or trailing whitespace, no whitespace other
      than single plain spaces. */
  lemma NormalizeIsNormal(s: string)
    ensures IsNormal(Normalize(s))
  {
    JoinIsNormal(Words(s));
  }

  /** Normalisation keeps the words of the text, in order. */
  lemma NormalizeKeepsWords(s: string)
    ensures Words(Normalize(s)) == Words(s)
  {
    WordsOfJoin(Words(s));
  }

  /** Normalising twice is normalising once. */
  lemma NormalizeIdempotent(s: string)
    ensures Normalize(Normalize(s)) == Normalize(s)
  {
    NormalizeKeepsWords(s);
  }

  /** A suffix of normalised text that starts after a space is normalised. */
  lemma NormalSuffix(s: string, k: nat)
    requires IsNormal(s) && 0 < k < |s| && s[k - 1] == ' '
    ensures IsNormal(s[k..])
  {
    var t := s[k..];
    forall i | 0 < i < |t| && t[i] == ' ' ensures t[i - 1] != ' ' {
      assert t[i] == s[k + i] && t[i - 1] == s[k + i - 1];
    }
    assert forall i :: 0 <= i < |t| ==> t[i] == s[k + i];
  }

  /** A word, a space and text that normalisation leaves alone (and that does
      not start with whitespace) is left alone too. */
  lemma NormalizeWordThenFixed(w: string, r: string)
    requires IsWord(w) && r != [] && !IsSpace(r[0]) && Normalize(r) == r
    ensures Normalize(w + " " + r) == w + " " + r
  {
    var rest := [' '] + r;
    assert w + " " + r == w + rest;
    WordsOfWordThen(w, rest);
    WordsSkipSpace(' ', r);
    assert Words(r) != [];
    calc {
      Normalize(w + rest);
      JoinWith([w] + Words(r), " ");
      { JoinWithCons(w, Words(r), " "); }
      w + " " + Normalize(r);
    }
  }

  /** Normalised text is left as it is. */
  lemma {:induction false} NormalIsFixed(s: string)
    requires IsNormal(s)
    ensures Normalize(s) == s
    decreases |s|
  {
    if s != [] {
      var n := WordLength(s);
      var w := s[..n];
      assert !IsSpace(s[0]);
      if n == |s| {
        assert Words(s) == [w] + Words(s[n..]);
        assert s[n..] == [];
        assert w == s;
      } else {
        var r := s[n + 1..];
        assert s[n] == ' ';
        assert s[n + 1] != ' ';
        NormalSuffix(s, n + 1);
        NormalIsFixed(r);
        assert s == w + " " + r;
        NormalizeWordThenFixed(w, r);
      }
    }
  }

  /** Exactly the normalised strings are fixed points of normalisation. */
  lemma NormalizeFixedPoints(s: string)
    ensures Normalize(s) == s <==> IsNormal(s)
  {
    if IsNormal(s) {
      NormalIsFixed(s);
    } else {
      NormalizeIsNormal(s);
    }
  }

  lemma {:induction false} WordsEmptyIff(s: string)
    ensures Words(s) == [] <==> AllSpace(s)
    decreases |s|
  {
    if s != [] {
      WordsEmptyIff(s[1..]);
      assert AllSpace(s) <==> IsSpace(s[0]) && AllSpace(s[1..]) by {
        assert forall i :: 0 < i < |s| ==> s[i] == s[1..][i - 1];
      }
    }
  }

  /** Normalisation gives the empty string exactly for all-whitespace text. */
  lemma NormalizeEmptyIff(s: string)
    ensures Normalize(s) == "" <==> AllSpace(s)
  {
    WordsEmptyIff(s);
    if Words(s) != [] {
      JoinShape(Words(s));
    }
  }

  /** A word followed only by whitespace splits into that word alone. */
  lemma WordsOfOneWord(w: string, trail: string)
    requires IsWord(w) && AllSpace(trail)
    ensures Words(w + trail) == [w]
  {
    WordsOfWordThen(w, trail);
    WordsAfterSpaces(trail, []);
    assert trail + [] == trail;
  }

  /** Two words amid runs of whitespace normalise to the two words joined by a
      single space, whatever the runs are. */
  lemma NormalizeTwoWords(lead: string, w1: string, gap: string, w2: string, trail: string)
    requires AllSpace(lead) && AllSpace(gap) && AllSpace(trail) && gap != []
    requires IsWord(w1) && IsWord(w2)
    ensures Normalize(lead + w1 + gap + w2 + trail) == w1 + " " + w2
  {
    var tail := w2 + trail;
    calc {
      Words(lead + w1 + gap + w2 + trail);
      { assert lead + w1 + gap + w2 + trail == lead + (w1 + (gap + tail)); }
      Words(lead + (w1 + (gap + tail)));
      { WordsAfterSpaces(lead, w1 + (gap + tail)); }
      Words(w1 + (gap + tail));
      { WordsOfWordThen(w1, gap + tail); }
      [w1] + Words(gap + tail);
      { WordsAfterSpaces(gap, tail); WordsOfOneWord(w2, trail); }
      [w1] + [w2];
    }
    JoinWithCons(w1, [w2], " ");
  }
}
