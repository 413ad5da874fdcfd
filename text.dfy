/**
 * The three Python string builtins the boundary-file parser relies on:
 * `str.strip()`, `str.split()` (no argument: split on runs of whitespace)
 * and `str.split(',')` (split on every occurrence of one separator).
 */
module Text {

  /** Python's `str.isspace()` for one character, which decides what
      `strip()` removes and where `split()` cuts. */
  predicate IsSpace(c: char) {
    c == ' ' || ('\t' <= c <= '\r') || ('\U{1C}' <= c <= '\U{1F}')
    || c == '\U{85}' || c == '\U{A0}' || c == '\U{1680}'
    || ('\U{2000}' <= c <= '\U{200A}') || c == '\U{2028}' || c == '\U{2029}'
    || c == '\U{202F}' || c == '\U{205F}' || c == '\U{3000}'
  }

  predicate AllSpace(s: string) {
    forall i :: 0 <= i < |s| ==> IsSpace(s[i])
  }

  predicate NoSpace(s: string) {
    forall i :: 0 <= i < |s| ==> !IsSpace(s[i])
  }

  /** Leading whitespace removed: what is dropped is whitespace and what
      remains is a suffix that does not start with whitespace. */
  function TrimLeft(s: string): (r: string)
    ensures |r| <= |s| && r == s[|s| - |r|..]
    ensures AllSpace(s[..|s| - |r|])
    ensures r == [] || !IsSpace(r[0])
  {
    if s != [] && IsSpace(s[0]) then
      var r := TrimLeft(s[1..]);
      assert s[..|s| - |r|] == [s[0]] + s[1..][..|s| - 1 - |r|];
      r
    else s
  }

  /** Trailing whitespace removed: what is dropped is whitespace and what
      remains is a prefix that does not end with whitespace. */
  function TrimRight(s: string): (r: string)
    ensures |r| <= |s| && r == s[..|r|]
    ensures AllSpace(s[|r|..])
    ensures r == [] || !IsSpace(r[|r| - 1])
  {
    if s != [] && IsSpace(s[|s| - 1]) then
      var r := TrimRight(s[..|s| - 1]);
      assert s[|r|..] == s[..|s| - 1][|r|..] + [s[|s| - 1]];
      r
    else s
  }

  /** `str.strip()`: `s` is the result with whitespace on both sides. */
  function Strip(s: string): (r: string)
    ensures SliceBetweenSpace(s, r)
    ensures r == [] || (!IsSpace(r[0]) && !IsSpace(r[|r| - 1]))
  {
    var t := TrimLeft(s);
    SpanBetweenSpace(s, t, TrimRight(t));
    TrimRight(t)
  }

  /** `r` is a slice of `s` with only whitespace before and after it. */
  ghost predicate SliceBetweenSpace(s: string, r: string) {
    exists i :: 0 <= i <= |s| - |r| && r == s[i..i + |r|] && AllSpace(s[..i]) && AllSpace(s[i + |r|..])
  }

  /** A prefix `r` of a suffix `t` of `s`, with whitespace before `t` and
      after `r`, is a slice of `s` surrounded by whitespace. */
  lemma SpanBetweenSpace(s: string, t: string, r: string)
    requires |t| <= |s| && t == s[|s| - |t|..] && AllSpace(s[..|s| - |t|])
    requires |r| <= |t| && r == t[..|r|] && AllSpace(t[|r|..])
    ensures SliceBetweenSpace(s, r)
  {
    var i := |s| - |t|;
    assert s[i..][..|r|] == s[i..i + |r|] && s[i..][|r|..] == s[i + |r|..];
    assert r == s[i..i + |r|] && AllSpace(s[..i]) && AllSpace(s[i + |r|..]);
  }

  /** The longest whitespace-free prefix of `s`. */
  function TakeWord(s: string): (r: string)
    ensures |r| <= |s| && r == s[..|r|] && NoSpace(r)
    ensures |r| == |s| || IsSpace(s[|r|])
  {
    if s == [] || IsSpace(s[0]) then [] else [s[0]] + TakeWord(s[1..])
  }

  /** `str.split()` with no argument: the maximal whitespace-free runs of
      `s`, in order; never an empty word. */
  function Words(s: string): (r: seq<string>)
    ensures forall i :: 0 <= i < |r| ==> r[i] != [] && NoSpace(r[i])
    decreases |s|
  {
    if s == [] then []
    else if IsSpace(s[0]) then Words(s[1..])
    else
      var w := TakeWord(s);
      [w] + Words(s[|w|..])
  }

  /** The words joined by single blanks, the inverse of `Words` on words. */
  function JoinWords(ws: seq<string>): string {
    if ws == [] then []
    else if |ws| == 1 then ws[0]
    else ws[0] + [' '] + JoinWords(ws[1..])
  }

  /** `str.split(sep)` for a one-character separator: at least one field,
      none of them holding the separator. */
  function SplitOn(s: string, sep: char): (r: seq<string>)
    ensures |r| >= 1
    ensures forall i :: 0 <= i < |r| ==> sep !in r[i]
  {
    if s == [] then [[]]
    else
      var rest := SplitOn(s[1..], sep);
      assert s == [s[0]] + s[1..];
      if s[0] == sep then [[]] + rest
      else [[s[0]] + rest[0]] + rest[1..]
  }

  /** `sep.join(fields)`. */
  function JoinOn(fields: seq<string>, sep: char): string {
    if fields == [] then []
    else if |fields| == 1 then fields[0]
    else fields[0] + [sep] + JoinOn(fields[1..], sep)
  }

  // ---------------------------------------------------------------------
  // Properties of split on whitespace

  /** The word list is empty exactly when the text is all whitespace
      (the empty text included). */
  lemma {:induction false} WordsEmptyIffAllSpace(s: string)
    ensures Words(s) == [] <==> AllSpace(s)
    decreases |s|
  {
    if s != [] {
      if IsSpace(s[0]) {
        WordsEmptyIffAllSpace(s[1..]);
        assert AllSpace(s[1..]) ==> AllSpace(s) by {
          if AllSpace(s[1..]) {
            forall i | 0 <= i < |s| ensures IsSpace(s[i]) {
              if i > 0 { assert s[i] == s[1..][i - 1]; }
            }
          }
        }
      }
    }
  }

  /** Whitespace in front of the text does not change its words. */
  lemma {:induction false} WordsLeadingSpace(sp: string, s: string)
    requires AllSpace(sp)
    ensures Words(sp + s) == Words(s)
    decreases |sp|
  {
    if sp != [] {
      var t := sp + s;
      assert t[0] == sp[0] && IsSpace(t[0]);
      assert t[1..] == sp[1..] + s;
      assert AllSpace(sp[1..]) by {
        forall i | 0 <= i < |sp[1..]| ensures IsSpace(sp[1..][i]) { assert sp[1..][i] == sp[i + 1]; }
      }
      WordsLeadingSpace(sp[1..], s);
      assert Words(t) == Words(t[1..]);
    } else {
      assert sp + s == s;
    }
  }

  lemma {:induction false} TakeWordBeforeSpace(a: string, c: char, b: string)
    requires IsSpace(c)
    ensures TakeWord(a + [c] + b) == TakeWord(a)
    decreases |a|
  {
    if a != [] && !IsSpace(a[0]) {
      assert (a + [c] + b)[1..] == a[1..] + [c] + b;
      TakeWordBeforeSpace(a[1..], c, b);
    }
  }

  /** A whitespace character always separates words: the words of
      `a + [c] + b` are those of `a` followed by those of `b`. */
  lemma {:induction false} WordsSplitAtSpace(a: string, c: char, b: string)
    requires IsSpace(c)
    ensures Words(a + [c] + b) == Words(a) + Words(b)
    decreases |a|
  {
    var s := a + [c] + b;
    if a == [] {
      assert s[1..] == b;
    } else if IsSpace(a[0]) {
      assert s[1..] == a[1..] + [c] + b;
      WordsSplitAtSpace(a[1..], c, b);
    } else {
      TakeWordBeforeSpace(a, c, b);
      var w := TakeWord(a);
      assert s[|w|..] == a[|w|..] + [c] + b;
      WordsSplitAtSpace(a[|w|..], c, b);
    }
  }

  /** A run of whitespace between two pieces of text separates their
      words, however long the run is. */
  lemma WordsSplitAtSpaceRun(a: string, sp: string, b: string)
    requires sp != [] && AllSpace(sp)
    ensures Words(a + sp + b) == Words(a) + Words(b)
  {
    assert a + sp + b == a + [sp[0]] + (sp[1..] + b);
    WordsSplitAtSpace(a, sp[0], sp[1..] + b);
    WordsLeadingSpace(sp[1..], b);
  }

  /** Whitespace after the text does not change its words. */
  lemma WordsTrailingSpace(s: string, sp: string)
    requires AllSpace(sp)
    ensures Words(s + sp) == Words(s)
  {
    if sp != [] {
      assert s + sp + [] == s + sp;
      WordsSplitAtSpaceRun(s, sp, []);
      assert Words([]) == [];
      assert Words(s) + [] == Words(s);
    } else {
      assert s + sp == s;
    }
  }

  lemma WordsOfTrimLeft(s: string)
    ensures Words(TrimLeft(s)) == Words(s)
  {
    var l := TrimLeft(s);
    var lead := s[..|s| - |l|];
    assert s == lead + l;
    WordsLeadingSpace(lead, l);
  }

  lemma WordsOfTrimRight(s: string)
    ensures Words(TrimRight(s)) == Words(s)
  {
    var r := TrimRight(s);
    var trail := s[|r|..];
    assert s == r + trail;
    WordsTrailingSpace(r, trail);
  }

  /** Stripping before splitting changes nothing. */
  lemma WordsOfStrip(s: string)
    ensures Words(Strip(s)) == Words(s)
  {
    WordsOfTrimLeft(s);
    WordsOfTrimRight(TrimLeft(s));
  }

  lemma WordOfWord(w: string)
    requires w != [] && NoSpace(w)
    ensures Words(w) == [w]
  {
    assert TakeWord(w) == w;
    assert w[|w|..] == [];
  }

  /** Round trip: words joined by single blanks split back into the same
      words. */
  lemma {:induction false} WordsOfJoinWords(ws: seq<string>)
    requires forall i :: 0 <= i < |ws| ==> ws[i] != [] && NoSpace(ws[i])
    ensures Words(JoinWords(ws)) == ws
    decreases |ws|
  {
    if ws == [] {
    } else if |ws| == 1 {
      WordOfWord(ws[0]);
    } else {
      WordOfWord(ws[0]);
      WordsSplitAtSpace(ws[0], ' ', JoinWords(ws[1..]));
      WordsOfJoinWords(ws[1..]);
      assert ws == [ws[0]] + ws[1..];
    }
  }

  // ---------------------------------------------------------------------
  // Properties of split on a separator

  lemma JoinOnCons(c: char, fields: seq<string>, sep: char)
    requires fields != []
    ensures JoinOn([[c] + fields[0]] + fields[1..], sep) == [c] + JoinOn(fields, sep)
  {
    var g := [[c] + fields[0]] + fields[1..];
    assert g[1..] == fields[1..];
  }

  /** One field more than there are separators. */
  lemma {:induction false} SplitOnCount(s: string, sep: char)
    ensures |SplitOn(s, sep)| == multiset(s)[sep] + 1
    decreases |s|
  {
    if s != [] {
      SplitOnCount(s[1..], sep);
      assert s == [s[0]] + s[1..];
      assert multiset(s) == multiset{s[0]} + multiset(s[1..]);
    }
  }

  /** Joining the fields with the separator gives back the text. */
  lemma {:induction false} JoinOnSplitOn(s: string, sep: char)
    ensures JoinOn(SplitOn(s, sep), sep) == s
    decreases |s|
  {
    if s != [] {
      var rest := SplitOn(s[1..], sep);
      JoinOnSplitOn(s[1..], sep);
      assert s == [s[0]] + s[1..];
      if s[0] == sep {
        var r := [[]] + rest;
        assert r[1..] == rest;
        assert JoinOn(r, sep) == [] + [sep] + JoinOn(rest, sep);
      } else {
        JoinOnCons(s[0], rest, sep);
      }
    }
  }

  /** Whitespace around the text does not change its words. */
  lemma WordsSurroundingSpace(pre: string, t: string, post: string)
    requires AllSpace(pre) && AllSpace(post)
    ensures Words(pre + t + post) == Words(t)
  {
    assert pre + t + post == pre + (t + post);
    WordsLeadingSpace(pre, t + post);
    WordsTrailingSpace(t, post);
  }

  lemma {:induction false} SplitOnNoSep(w: string, sep: char, tail: string)
    requires sep !in w
    ensures SplitOn(w + [sep] + tail, sep) == [w] + SplitOn(tail, sep)
    ensures w == [] || SplitOn(w, sep) == [w]
    decreases |w|
  {
    if w == [] {
      assert (w + [sep] + tail)[1..] == tail;
    } else {
      assert (w + [sep] + tail)[1..] == w[1..] + [sep] + tail;
      assert w[0] != sep;
      SplitOnNoSep(w[1..], sep, tail);
      assert [w[0]] + w[1..] == w;
      if w[1..] == [] {
        assert SplitOn(w[1..], sep) == [[]];
      }
    }
  }

  /** Round trip the other way: separator-free fields joined with the
      separator split back into the same fields. */
  lemma {:induction false} SplitOnJoinOn(fields: seq<string>, sep: char)
    requires |fields| >= 1
    requires forall i :: 0 <= i < |fields| ==> sep !in fields[i]
    ensures SplitOn(JoinOn(fields, sep), sep) == fields
    decreases |fields|
  {
    if |fields| == 1 {
      SplitOnNoSep(fields[0], sep, []);
    } else {
      SplitOnJoinOn(fields[1..], sep);
      SplitOnNoSep(fields[0], sep, JoinOn(fields[1..], sep));
      assert fields == [fields[0]] + fields[1..];
    }
  }
}
