/** Wrapping is not stable under re-wrapping its own output: the lines,
    joined with single spaces, can wrap to fewer lines than the text they
    came from. A concrete text shows it. */
module Rewrap {
  import opened JavaText
  import opened LineBreaker

  /** The metric that gives every character width one. */
  function CharCount(s: string): real {
    |s| as real
  }

  lemma PiecesOfA()
    ensures Pieces("a") == ["a"] && Pieces("a ") == ["a", ""]
  {
    assert "a"[..0] == "";
    assert Pieces("") == [""];
    assert [""][0] + ['a'] == "a";
    assert [""][..0] == [];
    assert "a "[..1] == "a";
  }

  // The lemmas below take their literal inputs as parameters, so that the
  // functions applied to them are unfolded only where the literal is needed.

  lemma SplitDoubleSpace(text: string)
    requires text == "a  b"
    ensures Split(text) == ["a", "", "b"]
  {
    PiecesOfA();
    assert "a  "[..2] == "a ";
    assert Pieces("a  ") == ["a", "", ""];
    var prev := ["a", "", ""];
    assert prev[2] + ['b'] == "b" && prev[..2] == ["a", ""];
    assert "a  b"[..3] == "a  ";
    assert Pieces("a  b") == ["a", "", "b"];
  }

  lemma SplitSingleSpace(text: string)
    requires text == "a b"
    ensures Split(text) == ["a", "b"]
  {
    PiecesOfA();
    var prev := ["a", ""];
    assert prev[1] + ['b'] == "b" && prev[..1] == ["a"];
    assert "a b"[..2] == "a ";
    assert Pieces("a b") == ["a", "b"];
  }

  lemma GroupsDoubleSpace(words: seq<string>)
    requires words == ["a", "", "b"]
    ensures Groups(words, CharCount, 4) == [["a", ""], ["b"]]
  {
    assert words[..2] == ["a", ""] && words[..1] == ["a"] && words[..0] == [];
    assert Buffer(["a"]) == "a ";
    assert Buffer(["a", ""]) == "a  ";
    assert Scan(words[..1], CharCount, 4) == Progress([], ["a"]);
    assert Scan(words[..2], CharCount, 4) == Progress([], ["a", ""]);
    assert Scan(words, CharCount, 4) == Progress([["a", ""]], ["b"]);
  }

  lemma GroupsSingleSpace(words: seq<string>)
    requires words == ["a", "b"]
    ensures Groups(words, CharCount, 4) == [["a", "b"]]
  {
    assert words[..1] == ["a"] && words[..0] == [];
    assert Buffer(["a"]) == "a ";
    assert Scan(words[..1], CharCount, 4) == Progress([], ["a"]);
    assert Scan(words, CharCount, 4) == Progress([], ["a", "b"]);
  }

  lemma TrimOfBuffer(buffer: string, line: string)
    requires (buffer == "a  " && line == "a") || (buffer == "b " && line == "b")
      || (buffer == "a b " && line == "a b")
    ensures Trim(buffer) == line
  {
    if buffer == "a  " {
      assert "a  "[..2] == "a " && "a "[..1] == "a";
      assert Trim("a  ") == "a";
    } else if buffer == "b " {
      assert "b "[..1] == "b";
      assert Trim("b ") == "b";
    } else {
      assert "a b "[..3] == "a b";
      assert Trim("a b ") == "a b";
    }
  }

  lemma BufferOfPair(g: seq<string>, w: string)
    requires |g| == 2 && g[0] == "a" && g[1] == w
    ensures Buffer(g) == "a " + w + " "
  {
    assert g == ["a"] + [w];
    BufferSnoc(["a"], w);
    BufferSingle("a");
  }

  lemma LineTextsOfTwo(g: seq<string>, h: seq<string>)
    ensures LineTexts([g, h]) == [Trim(Buffer(g)), Trim(Buffer(h))]
  {
  }

  lemma LinesDoubleSpace(gs: seq<seq<string>>)
    requires gs == [["a", ""], ["b"]]
    ensures LineTexts(gs) == ["a", "b"]
  {
    var g, h := gs[0], gs[1];
    LineTextsOfTwo(g, h);
    BufferOfPair(g, "");
    assert "a " + "" + " " == "a  ";
    TrimOfBuffer(Buffer(g), "a");
    BufferSingle("b");
    TrimOfBuffer(Buffer(h), "b");
  }

  lemma LinesSingleSpace(gs: seq<seq<string>>)
    requires gs == [["a", "b"]]
    ensures LineTexts(gs) == ["a b"]
  {
    var lines := LineTexts(gs);
    BufferOfPair(gs[0], "b");
    assert "a " + "b" + " " == "a b ";
    TrimOfBuffer(Buffer(gs[0]), "a b");
    assert |lines| == 1 && lines[0] == "a b";
  }

  lemma JoinTwo(lines: seq<string>)
    requires lines == ["a", "b"]
    ensures Join(lines, " ") == "a b"
  {
    assert lines[..1] == ["a"];
  }

  /** Joining the lines with spaces and wrapping again need not give the same
      lines, even under a growing metric that every word fits: an empty word
      from a double space takes width in the buffer, but the trim removes it
      from the line. With one unit per character and a width of 4, `"a  b"`
      wraps to `"a"` and `"b"`, while their join `"a b"` fits on one line. */
  lemma RewrapCanMerge(text: string)
    requires text == "a  b"
    ensures Split(text) == ["a", "", "b"]
    ensures forall w :: w in Split(text) ==> CharCount(w) <= 4 as real
    ensures Wrap(text, CharCount, 4) == ["a", "b"]
    ensures Wrap(Join(Wrap(text, CharCount, 4), " "), CharCount, 4) == ["a b"]
  {
    var words := Split(text);
    SplitDoubleSpace(text);
    forall w | w in words
      ensures CharCount(w) <= 4 as real
    {
      assert |w| <= 1;
    }
    var gs := Groups(words, CharCount, 4);
    GroupsDoubleSpace(words);
    LinesDoubleSpace(gs);
    var lines := Wrap(text, CharCount, 4);
    assert lines == LineTexts(gs);
    var joined := Join(lines, " ");
    JoinTwo(lines);
    var words' := Split(joined);
    SplitSingleSpace(joined);
    var gs' := Groups(words', CharCount, 4);
    GroupsSingleSpace(words');
    LinesSingleSpace(gs');
    assert Wrap(joined, CharCount, 4) == LineTexts(gs');
  }

  // ---------------------------------------------------------------------
  // When re-wrapping is stable

  /** A word that is not empty and holds no blank character. */
  predicate Solid(w: string) {
    w != [] && forall k :: 0 <= k < |w| ==> !Blank(w[k])
  }

  /** Every word of the sequence is solid. */
  predicate SolidWords(ws: seq<string>) {
    forall k :: 0 <= k < |ws| ==> Solid(ws[k])
  }

  /** Every group is non-empty and holds only solid words. */
  predicate SolidGroups(gs: seq<seq<string>>) {
    forall i :: 0 <= i < |gs| ==> gs[i] != [] && SolidWords(gs[i])
  }

  lemma {:induction false} PiecesNoSpace(w: string)
    requires ' ' !in w
    ensures Pieces(w) == [w]
    decreases |w|
  {
    if w != [] {
      PiecesNoSpace(w[..|w| - 1]);
      assert w == w[..|w| - 1] + [w[|w| - 1]];
    }
  }

  /** A space followed by a word without spaces adds that word as one more
      piece. */
  lemma {:induction false} PiecesAppendWord(s: string, w: string)
    requires ' ' !in w
    ensures Pieces(s + " " + w) == Pieces(s) + [w]
    decreases |w|
  {
    if w == [] {
      assert s + " " + w == s + " ";
      assert (s + " ")[..|s|] == s;
    } else {
      var w' := w[..|w| - 1];
      PiecesAppendWord(s, w');
      var t := s + " " + w;
      assert t[..|t| - 1] == s + " " + w';
      assert t[|t| - 1] == w[|w| - 1];
      var prev := Pieces(s) + [w'];
      assert prev[..|prev| - 1] == Pieces(s);
      assert w == w' + [w[|w| - 1]];
    }
  }

  lemma {:induction false} PiecesOfJoin(ws: seq<string>)
    requires ws != [] && forall k :: 0 <= k < |ws| ==> ' ' !in ws[k]
    ensures Pieces(Join(ws, " ")) == ws
    decreases |ws|
  {
    if |ws| == 1 {
      PiecesNoSpace(ws[0]);
    } else {
      var init := ws[..|ws| - 1];
      PiecesOfJoin(init);
      PiecesAppendWord(Join(init, " "), ws[|ws| - 1]);
      assert ws == init + [ws[|ws| - 1]];
    }
  }

  /** Splitting words that were joined with single spaces gives them back,
      when none is empty and none holds a space. */
  lemma SplitOfJoin(ws: seq<string>)
    requires ws != [] && SolidWords(ws)
    ensures Split(Join(ws, " ")) == ws
  {
    var j := Join(ws, " ");
    forall k | 0 <= k < |ws|
      ensures ' ' !in ws[k]
    {
      assert Solid(ws[k]);
    }
    PiecesOfJoin(ws);
    if ' ' !in j {
      PiecesNoSpace(j);
    } else {
      assert ws[|ws| - 1] != [];
    }
  }

  lemma {:induction false} JoinConcat(a: seq<string>, b: seq<string>, sep: string)
    requires a != [] && b != []
    ensures Join(a + b, sep) == Join(a, sep) + sep + Join(b, sep)
    decreases |b|
  {
    if |b| == 1 {
      JoinSnoc(a, b[0], sep);
    } else {
      var b', x := b[..|b| - 1], b[|b| - 1];
      JoinConcat(a, b', sep);
      assert a + b == (a + b') + [x];
      JoinSnoc(a + b', x, sep);
    }
  }

  lemma {:induction false} JoinStartsWithFirst(ps: seq<string>)
    requires ps != [] && ps[0] != []
    ensures Join(ps, " ") != [] && Join(ps, " ")[0] == ps[0][0]
    decreases |ps|
  {
    if |ps| > 1 {
      JoinStartsWithFirst(ps[..|ps| - 1]);
    }
  }

  /** The line of a group of solid words is exactly those words joined by
      single spaces: the trim removes only the buffer's trailing space. */
  lemma LineOfGroup(g: seq<string>)
    requires g != [] && SolidWords(g)
    ensures Trim(Buffer(g)) == Join(g, " ")
  {
    var j := Join(g, " ");
    BufferIsJoin(g);
    TrimIgnoresTrailingBlank(j, ' ');
    assert Solid(g[0]) && Solid(g[|g| - 1]);
    JoinStartsWithFirst(g);
    JoinEndsWithLast(g);
    TrimKeepsInterior(j);
  }

  /** Dropping the last group keeps the groups solid. */
  lemma SolidGroupsInit(gs: seq<seq<string>>)
    requires gs != [] && SolidGroups(gs)
    ensures SolidGroups(gs[..|gs| - 1])
    ensures gs[|gs| - 1] != [] && SolidWords(gs[|gs| - 1])
  {
    var init := gs[..|gs| - 1];
    forall i | 0 <= i < |init|
      ensures init[i] != [] && SolidWords(init[i])
    {
      assert init[i] == gs[i];
    }
  }

  /** Joining the lines of solid groups gives the joined words. */
  lemma {:induction false} JoinOfLines(init: seq<seq<string>>, g: seq<string>)
    requires SolidGroups(init)
    requires g != [] && SolidWords(g)
    ensures Join(LineTexts(init + [g]), " ") == Join(Flatten(init + [g]), " ")
    decreases |init|
  {
    LineTextsSnoc(init, g);
    FlattenSnoc(init, g);
    LineOfGroup(g);
    if init == [] {
      assert LineTexts(init + [g]) == [Join(g, " ")];
      assert Flatten(init + [g]) == g;
    } else {
      SolidGroupsInit(init);
      var front, last := init[..|init| - 1], init[|init| - 1];
      assert init == front + [last];
      JoinOfLines(front, last);
      JoinSnoc(LineTexts(init), Join(g, " "), " ");
      FlattenNonEmpty(init);
      JoinConcat(Flatten(init), g, " ");
    }
  }

  /** When every word is non-empty and free of blanks, and the first word
      fits on its own (so there is no empty first line), joining the lines
      with single spaces and wrapping again gives the same lines. */
  lemma RewrapStable(text: string, measure: string -> real, maxWidth: int)
    requires forall w :: w in Split(text) ==> Solid(w)
    requires Split(text) != [] && Fits(measure, maxWidth, Split(text)[0] + " ")
    ensures Wrap(Join(Wrap(text, measure, maxWidth), " "), measure, maxWidth) == Wrap(text, measure, maxWidth)
  {
    var words := Split(text);
    var gs := Groups(words, measure, maxWidth);
    GroupsAreGreedy(words, measure, maxWidth);
    FirstWordQuirk(words, measure, maxWidth);
    FlattenMembers(gs);
    forall i | 0 <= i < |gs|
      ensures gs[i] != [] && SolidWords(gs[i])
    {
      forall k | 0 <= k < |gs[i]|
        ensures Solid(gs[i][k])
      {
        assert gs[i][k] in words;
      }
    }
    SolidGroupsInit(gs);
    assert gs == gs[..|gs| - 1] + [gs[|gs| - 1]];
    JoinOfLines(gs[..|gs| - 1], gs[|gs| - 1]);
    forall k | 0 <= k < |words|
      ensures Solid(words[k])
    {
      assert words[k] in words;
    }
    SplitOfJoin(words);
    assert Wrap(text, measure, maxWidth) == LineTexts(gs);
  }
}
