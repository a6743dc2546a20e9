/**
 * The string functions behind the answer writer for list-valued fields:
 * `response.split('\n').map(r => r.trim()).filter(Boolean)`.
 */
module Lines {

  /** The characters that ECMAScript's `String.prototype.trim` removes:
      the WhiteSpace set (tab, vertical tab, form feed, space, no-break space,
      byte order mark and the Zs separators) and the LineTerminator set
      (line feed, carriage return, line and paragraph separators). */
  predicate IsSpace(c: char) {
    || c == '\t' || c == '\n' || c == '\U{B}' || c == '\U{C}' || c == '\r'
    || c == ' ' || c == '\U{A0}' || c == '\U{1680}'
    || ('\U{2000}' <= c <= '\U{200A}')
    || c == '\U{2028}' || c == '\U{2029}' || c == '\U{202F}' || c == '\U{205F}'
    || c == '\U{3000}' || c == '\U{FEFF}'
  }

  predicate AllSpace(s: string) {
    forall i :: 0 <= i < |s| ==> IsSpace(s[i])
  }

  /** No whitespace at either end. */
  predicate IsTrimmed(s: string) {
    s == [] || (!IsSpace(s[0]) && !IsSpace(s[|s| - 1]))
  }

  /** `s` is `r` with whitespace (possibly none) added on both sides. */
  ghost predicate StripsTo(s: string, r: string) {
    exists p, q :: AllSpace(p) && AllSpace(q) && s == p + r + q
  }

  /** Drops the leading whitespace. */
  function TrimStart(s: string): (r: string)
    ensures |r| <= |s| && r == s[|s| - |r|..]
    ensures forall i :: 0 <= i < |s| - |r| ==> IsSpace(s[i])
    ensures r == [] || !IsSpace(r[0])
  {
    if |s| > 0 && IsSpace(s[0]) then
      var r := TrimStart(s[1..]);
      assert forall i :: 1 <= i < |s| - |r| ==> s[i] == s[1..][i - 1];
      r
    else s
  }

  /** Drops the trailing whitespace. */
  function TrimEnd(s: string): (r: string)
    ensures |r| <= |s| && r == s[..|r|]
    ensures forall i :: |r| <= i < |s| ==> IsSpace(s[i])
    ensures r == [] || !IsSpace(r[|r| - 1])
  {
    if |s| > 0 && IsSpace(s[|s| - 1]) then
      var r := TrimEnd(s[..|s| - 1]);
      assert forall i :: |r| <= i < |s| - 1 ==> s[i] == s[..|s| - 1][i];
      r
    else s
  }

  /** `String.prototype.trim`. */
  function Trim(s: string): (r: string)
    ensures IsTrimmed(r)
    ensures IsTrimmed(s) ==> r == s
  {
    TrimEnd(TrimStart(s))
  }

  /** Trimming removes whitespace, and only whitespace, from the two ends:
      the result is the longest infix of `s` that starts and ends with a
      non-whitespace character, or the empty string. */
  lemma TrimStrips(s: string)
    ensures StripsTo(s, Trim(s)) && IsTrimmed(Trim(s))
  {
    var t := TrimStart(s);
    var p := s[..|s| - |t|];
    LeadingSpace(s);
    var r := TrimEnd(t);
    TrailingSpace(t);
    StripsInTwoSteps(s, p, t, r, t[|r|..]);
  }

  /** Whitespace removed in two steps, first in front, then behind. */
  lemma StripsInTwoSteps(s: string, p: string, t: string, r: string, q: string)
    requires AllSpace(p) && AllSpace(q) && s == p + t && t == r + q
    ensures StripsTo(s, r)
  {
    assert s == p + r + q;
  }

  /** `TrimStart` removes a prefix made of whitespace only. */
  lemma LeadingSpace(s: string)
    ensures var a := |s| - |TrimStart(s)|;
      AllSpace(s[..a]) && s == s[..a] + TrimStart(s)
  {
    var a := |s| - |TrimStart(s)|;
    forall i | 0 <= i < a ensures IsSpace(s[..a][i]) {
      assert s[..a][i] == s[i];
    }
  }

  /** `TrimEnd` removes a suffix made of whitespace only. */
  lemma TrailingSpace(t: string)
    ensures var r := TrimEnd(t);
      AllSpace(t[|r|..]) && t == r + t[|r|..]
  {
    var r := TrimEnd(t);
    var q := t[|r|..];
    forall j | 0 <= j < |q| ensures IsSpace(q[j]) {
      assert q[j] == t[|r| + j];
    }
  }

  /** `s.split('\n')`: the pieces between line feeds, in order; an empty
      string gives one empty piece and a final line feed gives a final empty piece. */
  function Split(s: string): (r: seq<string>)
    ensures |r| >= 1
    ensures forall i :: 0 <= i < |r| ==> '\n' !in r[i]
  {
    if s == [] then [""]
    else
      var rest := Split(s[1..]);
      if s[0] == '\n' then [""] + rest
      else [[s[0]] + rest[0]] + rest[1..]
  }

  /** `xs.join('\n')`, the inverse of `Split`. */
  function Join(xs: seq<string>): string
    requires |xs| >= 1
  {
    if |xs| == 1 then xs[0] else xs[0] + "\n" + Join(xs[1..])
  }

  /** Splitting and joining again gives back the original text. */
  lemma {:induction false} JoinSplit(s: string)
    ensures Join(Split(s)) == s
  {
    if s != [] {
      var rest := Split(s[1..]);
      JoinSplit(s[1..]);
      if s[0] == '\n' {
        assert Split(s) == [""] + rest;
        assert ([""] + rest)[1..] == rest;
        assert s == "" + "\n" + s[1..];
      } else {
        var r := [[s[0]] + rest[0]] + rest[1..];
        assert Split(s) == r;
        if |rest| == 1 {
          assert s == [s[0]] + s[1..];
        } else {
          assert r[1..] == rest[1..];
          assert Join(rest) == rest[0] + "\n" + Join(rest[1..]);
          assert s == [s[0]] + s[1..];
        }
      }
    }
  }

  /** Splitting text that begins with a line-feed-free `a` glues `a` to the first piece. */
  lemma {:induction false} SplitPrefix(a: string, rest: string)
    requires '\n' !in a
    ensures Split(a + rest) == [a + Split(rest)[0]] + Split(rest)[1..]
  {
    if a != [] {
      assert (a + rest)[1..] == a[1..] + rest;
      assert (a + rest)[0] == a[0];
      SplitPrefix(a[1..], rest);
      assert [a[0]] + (a[1..] + Split(rest)[0]) == a + Split(rest)[0];
    } else {
      assert a + rest == rest;
      var r := Split(rest);
      assert a + r[0] == r[0];
      assert r == [r[0]] + r[1..];
    }
  }

  /** Joining pieces that hold no line feed and splitting again gives back the pieces. */
  lemma {:induction false} SplitJoin(xs: seq<string>)
    requires |xs| >= 1
    requires forall i :: 0 <= i < |xs| ==> '\n' !in xs[i]
    ensures Split(Join(xs)) == xs
  {
    if |xs| == 1 {
      SplitPrefix(xs[0], "");
      assert xs[0] + "" == xs[0];
    } else {
      var tail := Join(xs[1..]);
      SplitJoin(xs[1..]);
      SplitPrefix(xs[0], "\n" + tail);
      assert ("\n" + tail)[1..] == tail;
      assert Split("\n" + tail) == [""] + Split(tail);
      assert xs[0] + "" == xs[0];
      assert Join(xs) == xs[0] + ("\n" + tail);
      assert xs == [xs[0]] + xs[1..];
    }
  }

  /** `r` keeps some of the elements of `xs`, in their order. */
  ghost predicate Subsequence<T>(r: seq<T>, xs: seq<T>)
    decreases |xs|
  {
    if r == [] then true
    else if xs == [] then false
    else (r[0] == xs[0] && Subsequence(r[1..], xs[1..])) || Subsequence(r, xs[1..])
  }

  /** `filter(Boolean)` on strings: drops the empty strings, keeps the others in order. */
  function NonEmpty(xs: seq<string>): (r: seq<string>)
    ensures forall i :: 0 <= i < |r| ==> r[i] != [] && r[i] in xs
    ensures Subsequence(r, xs)
    ensures (forall i :: 0 <= i < |xs| ==> xs[i] != []) ==> r == xs
  {
    if xs == [] then []
    else
      var rest := NonEmpty(xs[1..]);
      assert forall x :: x in xs[1..] ==> x in xs;
      assert forall x :: x in xs ==> x == xs[0] || x in xs[1..];
      if xs[0] == [] then rest else [xs[0]] + rest
  }

  /** Filtering drops nothing but empty strings. */
  lemma {:induction false} NonEmptyKeepsAll(xs: seq<string>, x: string)
    requires x in xs && x != []
    ensures x in NonEmpty(xs)
  {
    if xs[0] != x {
      assert x in xs[1..];
      NonEmptyKeepsAll(xs[1..], x);
    }
  }

  /** Filtering keeps every non-empty string as often as it occurs and
      drops every empty one. */
  lemma {:induction false} NonEmptyMultiset(xs: seq<string>)
    ensures multiset(NonEmpty(xs)) == multiset(xs)[[] := 0]
  {
    if xs != [] {
      NonEmptyMultiset(xs[1..]);
      assert xs == [xs[0]] + xs[1..];
      assert multiset(xs) == multiset{xs[0]} + multiset(xs[1..]);
    }
  }

  /** `xs.map(x => x.trim())`. */
  function TrimAll(xs: seq<string>): (r: seq<string>)
    ensures |r| == |xs|
    ensures forall i :: 0 <= i < |r| ==> r[i] == Trim(xs[i])
  {
    if xs == [] then [] else [Trim(xs[0])] + TrimAll(xs[1..])
  }

  /** Every line of `s`, trimmed. */
  function TrimmedLines(s: string): seq<string> {
    TrimAll(Split(s))
  }

  /** The value stored for a list-valued field: the lines of the answer,
      each trimmed, with the blank ones dropped. */
  function CleanLines(s: string): (r: seq<string>)
    ensures forall i :: 0 <= i < |r| ==> r[i] != [] && IsTrimmed(r[i])
  {
    NonEmpty(TrimmedLines(s))
  }

  /** Every stored line is non-empty, trimmed and free of line feeds, and
      the stored lines are the non-blank trimmed lines of the answer, in
      their original order. */
  lemma CleanLinesShape(s: string)
    ensures var r := CleanLines(s);
      && (forall i :: 0 <= i < |r| ==> r[i] != [] && IsTrimmed(r[i]) && '\n' !in r[i])
      && Subsequence(r, TrimmedLines(s))
      && (forall x :: x in TrimmedLines(s) && x != [] ==> x in r)
      && multiset(r) == multiset(TrimmedLines(s))[[] := 0]
  {
    NonEmptyMultiset(TrimmedLines(s));
    var t := TrimmedLines(s);
    forall i | 0 <= i < |t| ensures '\n' !in t[i] {
      TrimInfix(Split(s)[i], t[i]);
    }
    forall x | x in t && x != [] ensures x in CleanLines(s) {
      NonEmptyKeepsAll(t, x);
    }
  }

  /** A character of a trimmed piece is a character of the piece. */
  lemma TrimInfix(s: string, r: string)
    requires r == Trim(s)
    ensures forall c :: c in r ==> c in s
  {
    var t := TrimStart(s);
    var a := |s| - |t|;
    forall c | c in r ensures c in s {
      var j :| 0 <= j < |r| && r[j] == c;
      assert t[j] == c;
      assert s[a + j] == c;
    }
  }

  /** On tidy input (no blank line, no whitespace around any line) the stored
      value is exactly the lines of the answer. */
  lemma CleanLinesOfTidyText(s: string)
    requires forall i :: 0 <= i < |Split(s)| ==> Split(s)[i] != [] && IsTrimmed(Split(s)[i])
    ensures CleanLines(s) == Split(s)
  {
    var t := TrimmedLines(s);
    assert t == Split(s);
  }

  /** Tidy lines joined by line feeds come back unchanged. */
  lemma CleanLinesOfJoin(xs: seq<string>)
    requires |xs| >= 1
    requires forall i :: 0 <= i < |xs| ==> xs[i] != [] && IsTrimmed(xs[i]) && '\n' !in xs[i]
    ensures CleanLines(Join(xs)) == xs
  {
    SplitJoin(xs);
    CleanLinesOfTidyText(Join(xs));
  }

  /** The lines of the worked example, blank ones and whitespace included. */
  lemma SplitExample()
    ensures Split("a\n\nb \n") == ["a", "", "b ", ""]
  {
    assert Split("") == [""];
    assert "\n"[1..] == "";
    assert Split("\n") == ["", ""];
    assert " \n"[1..] == "\n";
    assert [' '] + "" == " " && ["", ""][1..] == [""];
    assert Split(" \n") == [" ", ""];
    assert "b \n"[1..] == " \n";
    assert ['b'] + " " == "b " && [" ", ""][1..] == [""];
    assert Split("b \n") == ["b ", ""];
    assert "\nb \n"[1..] == "b \n";
    assert Split("\nb \n") == ["", "b ", ""];
    assert "\n\nb \n"[1..] == "\nb \n";
    assert Split("\n\nb \n") == ["", "", "b ", ""];
    assert "a\n\nb \n"[1..] == "\n\nb \n";
    assert ['a'] + "" == "a" && ["", "", "b ", ""][1..] == ["", "b ", ""];
  }

  /** The worked example: a blank line is dropped and trailing whitespace is trimmed. */
  lemma CleanLinesExample()
    ensures CleanLines("a\n\nb \n") == ["a", "b"]
  {
    SplitExample();
    TrimAllExample();
    NonEmptyExample();
  }

  lemma TrimAllExample()
    ensures TrimAll(["a", "", "b ", ""]) == ["a", "", "b", ""]
  {
    TrimExample();
    TrimAllFour("a", "", "b ", "");
  }

  lemma TrimAllFour(a: string, b: string, c: string, d: string)
    ensures TrimAll([a, b, c, d]) == [Trim(a), Trim(b), Trim(c), Trim(d)]
  {
  }

  lemma NonEmptyExample()
    ensures NonEmpty(["a", "", "b", ""]) == ["a", "b"]
  {
    assert NonEmpty([]) == [];
    assert NonEmpty([""]) == [];
    assert NonEmpty(["b", ""]) == ["b"];
    assert NonEmpty(["", "b", ""]) == ["b"];
  }

  lemma TrimExample()
    ensures Trim("a") == "a" && Trim("") == "" && Trim("b ") == "b"
  {
    assert IsTrimmed("a");
    TrimTrailingSpace();
  }

  lemma TrimTrailingSpace()
    ensures Trim("b ") == "b"
  {
    assert !IsSpace('b') && IsSpace(' ');
    assert TrimStart("b ") == "b ";
    assert "b "[..1] == "b";
    assert TrimEnd("b ") == TrimEnd("b");
    assert IsTrimmed("b");
  }
}
