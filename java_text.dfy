/** The two java.lang.String operations the line breaker relies on:
    `split(" ")` and `trim()`. Both are library code; they are modelled here
    as functions with the semantics the Java platform documents for them. */
module JavaText {

  /** `String.trim()` removes every leading and trailing character whose code
      point is at most U+0020: the space, but also tab, newline and the other
      control characters. */
  predicate Blank(c: char) {
    c <= ' '
  }

  /** Joins `parts` with `sep` between neighbours (no separator before the
      first part or after the last). */
  function Join(parts: seq<string>, sep: string): string
    decreases |parts|
  {
    if |parts| == 0 then ""
    else if |parts| == 1 then parts[0]
    else Join(parts[..|parts| - 1], sep) + sep + parts[|parts| - 1]
  }

  /** The pieces of `s` between its space characters, empty pieces included:
      a string with n spaces has n + 1 pieces. */
  function Pieces(s: string): (ps: seq<string>)
    ensures |ps| >= 1
    ensures forall k :: 0 <= k < |ps| ==> ' ' !in ps[k]
    decreases |s|
  {
    if s == [] then [""]
    else
      var prev := Pieces(s[..|s| - 1]);
      var c := s[|s| - 1];
      if c == ' ' then prev + [""]
      else prev[..|prev| - 1] + [prev[|prev| - 1] + [c]]
  }

  /** Removes the empty strings at the end of `ps`, as `split` does when it is
      called without a limit. */
  function DropTrailingEmpty(ps: seq<string>): (r: seq<string>)
    ensures |r| <= |ps| && r == ps[..|r|]
    ensures r != [] ==> r[|r| - 1] != []
    ensures forall k :: |r| <= k < |ps| ==> ps[k] == []
    decreases |ps|
  {
    if |ps| > 0 && ps[|ps| - 1] == [] then DropTrailingEmpty(ps[..|ps| - 1]) else ps
  }

  /** `s.split(" ")`: the pieces between spaces with the trailing empty pieces
      dropped; a string that holds no space at all, the empty string included,
      gives the one-element array holding that string. */
  function Split(s: string): seq<string> {
    if ' ' !in s then [s] else DropTrailingEmpty(Pieces(s))
  }

  /** No word holds a space; a text without spaces is its own only word; and
      when the text does hold a space, the last word is never empty, since
      trailing empty pieces are dropped. */
  lemma SplitWords(s: string)
    ensures var words := Split(s);
      (forall k :: 0 <= k < |words| ==> ' ' !in words[k])
      && (' ' !in s ==> words == [s])
      && (' ' in s && words != [] ==> words[|words| - 1] != [])
  {
  }

  /** `s` without its trailing space characters (only ' ', nothing else). */
  function StripTrailingSpaces(s: string): (r: string)
    ensures |r| <= |s| && r == s[..|r|]
    ensures r == [] || r[|r| - 1] != ' '
    ensures forall k :: |r| <= k < |s| ==> s[k] == ' '
    decreases |s|
  {
    if s != [] && s[|s| - 1] == ' ' then
      var r := StripTrailingSpaces(s[..|s| - 1]);
      assert s[..|s| - 1][..|r|] == s[..|r|];
      r
    else s
  }

  /** The number of blank characters at the front of `s`. */
  function LeadingBlanks(s: string): (n: nat)
    ensures n <= |s|
    ensures forall k :: 0 <= k < n ==> Blank(s[k])
    ensures n < |s| ==> !Blank(s[n])
    decreases |s|
  {
    if s != [] && Blank(s[0]) then 1 + LeadingBlanks(s[1..]) else 0
  }

  /** The number of blank characters at the back of `s`. */
  function TrailingBlanks(s: string): (n: nat)
    ensures n <= |s|
    ensures forall k :: |s| - n <= k < |s| ==> Blank(s[k])
    ensures n < |s| ==> !Blank(s[|s| - 1 - n])
    decreases |s|
  {
    if s != [] && Blank(s[|s| - 1]) then 1 + TrailingBlanks(s[..|s| - 1]) else 0
  }

  /** `r` is the slice of `s` starting at `a`, and every character of `s`
      outside that slice is blank. */
  ghost predicate TrimmedAt(s: string, r: string, a: int) {
    0 <= a <= |s| - |r| && r == s[a..a + |r|]
    && (forall k :: 0 <= k < a ==> Blank(s[k]))
    && (forall k :: a + |r| <= k < |s| ==> Blank(s[k]))
  }

  /** `s.trim()`: the longest slice of `s` that neither starts nor ends with a
      blank character, reached by dropping only blank characters at both ends. */
  function Trim(s: string): string {
    var front := LeadingBlanks(s);
    if front == |s| then "" else s[front..|s| - TrailingBlanks(s)]
  }

  /** The trim is a slice of the string with only blanks outside it, and it
      neither starts nor ends with a blank. */
  lemma TrimIsSlice(s: string)
    ensures var r := Trim(s);
      |r| <= |s|
      && (r == [] || (!Blank(r[0]) && !Blank(r[|r| - 1])))
      && exists a :: TrimmedAt(s, r, a)
  {
    var front := LeadingBlanks(s);
    if front == |s| {
      assert TrimmedAt(s, "", |s|);
    } else {
      assert TrimmedAt(s, Trim(s), front);
    }
  }

  /** A string that neither starts nor ends with a blank is its own trim: the
      blanks inside it, runs of spaces included, are kept. */
  lemma TrimKeepsInterior(s: string)
    requires s == [] || (!Blank(s[0]) && !Blank(s[|s| - 1]))
    ensures Trim(s) == s
  {
    if s != [] {
      assert LeadingBlanks(s) == 0;
      assert TrailingBlanks(s) == 0;
    }
  }

  /** Adding blanks at the end of a string does not change its trim. */
  lemma {:induction false} TrimIgnoresTrailingBlank(s: string, c: char)
    requires Blank(c)
    ensures Trim(s + [c]) == Trim(s)
  {
    var t := s + [c];
    assert t[..|t| - 1] == s;
    assert TrailingBlanks(t) == 1 + TrailingBlanks(s);
    if LeadingBlanks(s) == |s| {
      LeadingAllBlank(s, c);
    } else {
      LeadingPrefix(s, c);
    }
  }

  lemma {:induction false} LeadingAllBlank(s: string, c: char)
    requires Blank(c) && LeadingBlanks(s) == |s|
    ensures LeadingBlanks(s + [c]) == |s| + 1
    decreases |s|
  {
    if s != [] {
      assert (s + [c])[1..] == s[1..] + [c];
      LeadingAllBlank(s[1..], c);
    }
  }

  lemma {:induction false} LeadingPrefix(s: string, c: char)
    requires LeadingBlanks(s) < |s|
    ensures LeadingBlanks(s + [c]) == LeadingBlanks(s)
    decreases |s|
  {
    if Blank(s[0]) {
      assert (s + [c])[1..] == s[1..] + [c];
      LeadingPrefix(s[1..], c);
    }
  }

  /** Appending a part appends the separator and that part. */
  lemma JoinSnoc(ps: seq<string>, w: string, sep: string)
    requires ps != []
    ensures Join(ps + [w], sep) == Join(ps, sep) + sep + w
  {
    assert (ps + [w])[..|ps|] == ps;
  }

  lemma JoinExtendLast(ps: seq<string>, c: char, sep: string)
    requires ps != []
    ensures Join(ps[..|ps| - 1] + [ps[|ps| - 1] + [c]], sep) == Join(ps, sep) + [c]
  {
    var init := ps[..|ps| - 1];
    if |ps| > 1 {
      JoinSnoc(init, ps[|ps| - 1] + [c], sep);
      assert ps == init + [ps[|ps| - 1]];
      JoinSnoc(init, ps[|ps| - 1], sep);
    }
  }

  /** Joining the pieces with single spaces gives back the string they were
      cut from: nothing but the spaces is lost, and every other character
      (a newline included) stays inside its piece. */
  lemma {:induction false} JoinPieces(s: string)
    ensures Join(Pieces(s), " ") == s
    decreases |s|
  {
    if s != [] {
      var init := s[..|s| - 1];
      var prev := Pieces(init);
      JoinPieces(init);
      var c := s[|s| - 1];
      assert s == init + [c];
      if c == ' ' {
        JoinSnoc(prev, "", " ");
      } else {
        JoinExtendLast(prev, c, " ");
      }
    }
  }

  lemma StripAppendSpace(j: string)
    ensures StripTrailingSpaces(j + " ") == StripTrailingSpaces(j)
  {
    assert (j + " ")[..|j|] == j;
  }

  lemma {:induction false} JoinDropTrailingEmpty(ps: seq<string>)
    requires ps != [] && ps[|ps| - 1] == []
    requires forall k :: 0 <= k < |ps| ==> ' ' !in ps[k]
    ensures Join(DropTrailingEmpty(ps), " ") == StripTrailingSpaces(Join(ps, " "))
    decreases |ps|
  {
    if |ps| > 1 {
      var init := ps[..|ps| - 1];
      DropOneEmpty(init);
      assert ps == init + [""];
      if init[|init| - 1] == [] {
        JoinDropTrailingEmpty(init);
      } else {
        JoinKeepsNonEmptyLast(init);
      }
    }
  }

  /** An empty last piece adds one trailing space to the join, which the
      stripping removes, and is dropped by `split`. */
  lemma DropOneEmpty(init: seq<string>)
    requires init != []
    ensures StripTrailingSpaces(Join(init + [""], " ")) == StripTrailingSpaces(Join(init, " "))
    ensures DropTrailingEmpty(init + [""]) == DropTrailingEmpty(init)
  {
    JoinSnoc(init, "", " ");
    assert Join(init, " ") + " " + "" == Join(init, " ") + " ";
    StripAppendSpace(Join(init, " "));
    assert (init + [""])[..|init|] == init;
  }

  /** When the last piece is not empty, neither the dropping nor the
      stripping changes anything. */
  lemma JoinKeepsNonEmptyLast(ps: seq<string>)
    requires ps != [] && ps[|ps| - 1] != [] && ' ' !in ps[|ps| - 1]
    ensures DropTrailingEmpty(ps) == ps
    ensures StripTrailingSpaces(Join(ps, " ")) == Join(ps, " ")
  {
    JoinEndsWithLast(ps);
  }

  lemma {:induction false} JoinEndsWithLast(ps: seq<string>)
    requires ps != [] && ps[|ps| - 1] != []
    ensures Join(ps, " ") != [] && Join(ps, " ")[|Join(ps, " ")| - 1] == ps[|ps| - 1][|ps[|ps| - 1]| - 1]
  {
  }

  /** Splitting and then joining with single spaces gives back the text
      without its trailing spaces: the words are exactly the text's
      space-separated pieces, in order, and only the trailing empty ones
      are lost. */
  lemma SplitRoundTrip(s: string)
    ensures Join(Split(s), " ") == StripTrailingSpaces(s)
  {
    if ' ' !in s {
      if s != [] { assert s[|s| - 1] != ' '; }
    } else {
      var ps := Pieces(s);
      JoinPieces(s);
      if ps[|ps| - 1] == [] {
        JoinDropTrailingEmpty(ps);
      } else {
        JoinEndsWithLast(ps);
      }
    }
  }

  /** A character of a join that is not part of the separator comes from
      one of the parts. */
  lemma {:induction false} JoinMember(ps: seq<string>, sep: string, c: char)
    requires c in Join(ps, sep) && c !in sep
    ensures exists j :: 0 <= j < |ps| && c in ps[j]
    decreases |ps|
  {
    if |ps| > 1 {
      var init, last := ps[..|ps| - 1], ps[|ps| - 1];
      var i :| 0 <= i < |Join(ps, sep)| && Join(ps, sep)[i] == c;
      if i < |Join(init, sep)| {
        assert c in Join(init, sep);
        JoinMember(init, sep, c);
        var j :| 0 <= j < |init| && c in init[j];
        assert ps[j] == init[j];
      } else if i >= |Join(init, sep)| + |sep| {
        assert c == last[i - |Join(init, sep)| - |sep|];
      }
    }
  }

  /** Only the space separates words: every other character of the text, a
      newline or a tab included, ends up inside one of the words. */
  lemma CharStaysInWord(s: string, k: nat)
    requires k < |s| && s[k] != ' '
    ensures exists j :: 0 <= j < |Split(s)| && s[k] in Split(s)[j]
  {
    SplitRoundTrip(s);
    var r := StripTrailingSpaces(s);
    assert k < |r|;
    assert r[k] == s[k];
    JoinMember(Split(s), " ", s[k]);
  }

  predicate AllSpaces(s: string) {
    forall k :: 0 <= k < |s| ==> s[k] == ' '
  }

  lemma StripAllSpaces(s: string)
    requires AllSpaces(s)
    ensures StripTrailingSpaces(s) == []
  {
  }

  /** `split` returns no word at all exactly when the text is non-empty and
      made of spaces only; the empty text gives one (empty) word. */
  lemma SplitEmptyIff(s: string)
    ensures Split(s) == [] <==> s != [] && AllSpaces(s)
  {
    var w := Split(s);
    SplitRoundTrip(s);
    SplitWords(s);
    if s != [] && AllSpaces(s) {
      assert s[0] == ' ';
      StripAllSpaces(s);
      assert Join(w, " ") == [];
      assert w != [] ==> |Join(w, " ")| > 0 by {
        if w != [] { JoinEndsWithLast(w); }
      }
    } else if s != [] {
      var k :| 0 <= k < |s| && s[k] != ' ';
      assert k < |StripTrailingSpaces(s)|;
    }
  }
}
