/** The greedy word wrapper `breakTextIntoLines` of the watermark code.

    The address is cut into words with `split(" ")`; a StringBuilder `line`
    collects words, each followed by one space, as long as the font metric
    says the candidate `line + word + " "` is at most `maxWidth` wide; when a
    word does not fit, the trimmed buffer is emitted and the buffer restarts
    with that word. After the last word a non-empty buffer is emitted.

    The font metric (`Paint.measureText`) is a parameter `measure` about
    which nothing is assumed; the lemmas that need it to grow with its
    argument say so in their preconditions. */
module LineBreaker {
  import opened JavaText

  /** The width test of the source: the candidate's measured width is at most
      `maxWidth` (an `int` that Java widens to `float`). */
  predicate Fits(measure: string -> real, maxWidth: int, candidate: string) {
    measure(candidate) <= maxWidth as real
  }

  /** What the StringBuilder holds after each word of `g` was appended
      together with one trailing space. */
  function Buffer(g: seq<string>): string
    decreases |g|
  {
    if g == [] then "" else Buffer(g[..|g| - 1]) + g[|g| - 1] + " "
  }

  /** The words of the groups, in order. */
  function Flatten(gs: seq<seq<string>>): seq<string>
    decreases |gs|
  {
    if gs == [] then [] else Flatten(gs[..|gs| - 1]) + gs[|gs| - 1]
  }

  /** The state of the loop: the groups of words already emitted as lines and
      the words held in the buffer. */
  datatype Progress = Progress(done: seq<seq<string>>, current: seq<string>)

  /** One iteration of the loop: the word joins the buffer when the
      candidate fits, and otherwise the buffer is emitted and restarts with
      the word. */
  function Step(p: Progress, w: string, measure: string -> real, maxWidth: int): Progress {
    if Fits(measure, maxWidth, Buffer(p.current) + w + " ") then Progress(p.done, p.current + [w])
    else Progress(p.done + [p.current], [w])
  }

  /** The loop state after the given words have been processed, one width
      test per word. */
  function Scan(words: seq<string>, measure: string -> real, maxWidth: int): Progress
    decreases |words|
  {
    if words == [] then Progress([], [])
    else Step(Scan(words[..|words| - 1], measure, maxWidth), words[|words| - 1], measure, maxWidth)
  }

  /** The number of width tests that failed while the given words were
      processed, one test per word. */
  function FailedTests(words: seq<string>, measure: string -> real, maxWidth: int): nat
    decreases |words|
  {
    if words == [] then 0
    else
      var ws, x := words[..|words| - 1], words[|words| - 1];
      var failed := !Fits(measure, maxWidth, Buffer(Scan(ws, measure, maxWidth).current) + x + " ");
      FailedTests(ws, measure, maxWidth) + (if failed then 1 else 0)
  }

  /** The words of each emitted line: the groups the loop emitted, then the
      final buffer when it is not empty. */
  function Groups(words: seq<string>, measure: string -> real, maxWidth: int): seq<seq<string>>
  {
    var p := Scan(words, measure, maxWidth);
    if |Buffer(p.current)| > 0 then p.done + [p.current] else p.done
  }

  /** The text of each emitted line: the trimmed buffer that held its words. */
  function LineTexts(gs: seq<seq<string>>): seq<string> {
    seq(|gs|, i requires 0 <= i < |gs| => Trim(Buffer(gs[i])))
  }

  lemma LineTextsSnoc(gs: seq<seq<string>>, g: seq<string>)
    ensures LineTexts(gs + [g]) == LineTexts(gs) + [Trim(Buffer(g))]
  {
    assert (gs + [g])[..|gs|] == gs;
  }

  /** `breakTextIntoLines(text, paint, maxWidth)` as a value: the text of each
      group of the greedy layout of the words of `text`. */
  function Wrap(text: string, measure: string -> real, maxWidth: int): seq<string>
  {
    LineTexts(Groups(Split(text), measure, maxWidth))
  }

  /** Every emitted line is trimmed: it neither starts nor ends with a blank
      character. */
  lemma LinesAreTrimmed(text: string, measure: string -> real, maxWidth: int)
    ensures var lines := Wrap(text, measure, maxWidth);
      |lines| == |Groups(Split(text), measure, maxWidth)|
      && forall i :: 0 <= i < |lines| ==>
        lines[i] == [] || (!Blank(lines[i][0]) && !Blank(lines[i][|lines[i]| - 1]))
  {
    var gs := Groups(Split(text), measure, maxWidth);
    forall i | 0 <= i < |gs| {
      TrimIsSlice(Buffer(gs[i]));
    }
  }

  /** The greedy layout, stated independently of the loop:
      - the groups hold the words, each exactly once and in order;
      - the last group is not empty, and only the first may be;
      - every word placed after another word in its group passed the width
        test when it was added (so did the first word of the first group);
      - the first word of every later group failed the width test against
        the group before it, which is why a new line was started. */
  predicate IsGreedyLayout(words: seq<string>, gs: seq<seq<string>>, measure: string -> real, maxWidth: int) {
    Flatten(gs) == words
    && (gs != [] ==> gs[|gs| - 1] != [])
    && PrefixesFit(gs, measure, maxWidth)
    && BreaksForced(gs, measure, maxWidth)
  }

  predicate PrefixesFit(gs: seq<seq<string>>, measure: string -> real, maxWidth: int) {
    forall i, k :: 0 <= i < |gs| && 1 <= k <= |gs[i]| && (i == 0 || 2 <= k) ==>
      Fits(measure, maxWidth, Buffer(gs[i][..k]))
  }

  predicate BreaksForced(gs: seq<seq<string>>, measure: string -> real, maxWidth: int) {
    forall i :: 0 < i < |gs| ==>
      gs[i] != [] && !Fits(measure, maxWidth, Buffer(gs[i - 1]) + gs[i][0] + " ")
  }

  // ---------------------------------------------------------------------
  // Small facts about the buffer and the groups

  lemma BufferSingle(w: string)
    ensures Buffer([w]) == w + " "
  {
    assert [w][..0] == [];
  }

  lemma BufferSnoc(g: seq<string>, w: string)
    ensures Buffer(g + [w]) == Buffer(g) + w + " "
  {
    assert (g + [w])[..|g|] == g;
  }

  lemma {:induction false} BufferConcat(a: seq<string>, b: seq<string>)
    ensures Buffer(a + b) == Buffer(a) + Buffer(b)
    decreases |b|
  {
    if b == [] {
      assert a + b == a;
    } else {
      var b' := b[..|b| - 1];
      assert (a + b)[..|a + b| - 1] == a + b';
      BufferConcat(a, b');
    }
  }

  /** The buffer of a non-empty group is its words joined by single spaces,
      plus the one trailing space. */
  lemma {:induction false} BufferIsJoin(g: seq<string>)
    requires g != []
    ensures Buffer(g) == Join(g, " ") + " "
    decreases |g|
  {
    if |g| == 1 {
      BufferSingle(g[0]);
    } else {
      BufferIsJoin(g[..|g| - 1]);
    }
  }

  lemma FlattenSnoc(gs: seq<seq<string>>, g: seq<string>)
    ensures Flatten(gs + [g]) == Flatten(gs) + g
  {
    assert (gs + [g])[..|gs|] == gs;
  }

  lemma FlattenNonEmpty(gs: seq<seq<string>>)
    ensures gs != [] && gs[|gs| - 1] != [] ==> |Flatten(gs)| > 0
  {
  }

  lemma ScanCurrent(words: seq<string>, measure: string -> real, maxWidth: int)
    ensures words != [] ==> Scan(words, measure, maxWidth).current != []
    ensures Scan(words, measure, maxWidth).current != [] <==> |Buffer(Scan(words, measure, maxWidth).current)| > 0
  {
  }

  lemma ScanSnoc(words: seq<string>, x: string, measure: string -> real, maxWidth: int)
    ensures Scan(words + [x], measure, maxWidth) == Step(Scan(words, measure, maxWidth), x, measure, maxWidth)
  {
    assert (words + [x])[..|words|] == words;
  }

  lemma GroupsEmptyIff(words: seq<string>, measure: string -> real, maxWidth: int)
    ensures Groups(words, measure, maxWidth) == [] <==> words == []
  {
    ScanCurrent(words, measure, maxWidth);
  }

  /** For a non-empty word list the final buffer is never empty, so it is
      always emitted as the last line. */
  lemma GroupsOfNonEmpty(words: seq<string>, measure: string -> real, maxWidth: int)
    requires words != []
    ensures Groups(words, measure, maxWidth)
      == Scan(words, measure, maxWidth).done + [Scan(words, measure, maxWidth).current]
  {
    ScanCurrent(words, measure, maxWidth);
  }

  // ---------------------------------------------------------------------
  // The loop's result is the greedy layout, and the only one

  lemma PrefixesFitExtendLast(done: seq<seq<string>>, cur: seq<string>, x: string, measure: string -> real, maxWidth: int)
    requires cur != []
    requires PrefixesFit(done + [cur], measure, maxWidth)
    requires Fits(measure, maxWidth, Buffer(cur) + x + " ")
    ensures PrefixesFit(done + [cur + [x]], measure, maxWidth)
  {
    var gs, gs' := done + [cur], done + [cur + [x]];
    forall i, k | 0 <= i < |gs'| && 1 <= k <= |gs'[i]| && (i == 0 || 2 <= k)
      ensures Fits(measure, maxWidth, Buffer(gs'[i][..k]))
    {
      if i < |done| {
        assert gs'[i] == gs[i];
      } else if k <= |cur| {
        assert gs'[i][..k] == gs[i][..k];
      } else {
        assert gs'[i][..k] == cur + [x];
        assert (cur + [x])[..|cur|] == cur;
      }
    }
  }

  lemma PrefixesFitAppend(gs: seq<seq<string>>, x: string, measure: string -> real, maxWidth: int)
    requires gs != []
    requires PrefixesFit(gs, measure, maxWidth)
    ensures PrefixesFit(gs + [[x]], measure, maxWidth)
  {
    var gs' := gs + [[x]];
    forall i, k | 0 <= i < |gs'| && 1 <= k <= |gs'[i]| && (i == 0 || 2 <= k)
      ensures Fits(measure, maxWidth, Buffer(gs'[i][..k]))
    {
      assert i < |gs|;
      assert gs'[i] == gs[i];
    }
  }

  lemma BreaksForcedExtendLast(done: seq<seq<string>>, cur: seq<string>, x: string, measure: string -> real, maxWidth: int)
    requires cur != []
    requires BreaksForced(done + [cur], measure, maxWidth)
    ensures BreaksForced(done + [cur + [x]], measure, maxWidth)
  {
    var gs, gs' := done + [cur], done + [cur + [x]];
    forall i | 0 < i < |gs'|
      ensures gs'[i] != [] && !Fits(measure, maxWidth, Buffer(gs'[i - 1]) + gs'[i][0] + " ")
    {
      assert gs'[i - 1] == gs[i - 1];
      assert gs'[i][0] == gs[i][0];
    }
  }

  lemma BreaksForcedAppend(gs: seq<seq<string>>, x: string, measure: string -> real, maxWidth: int)
    requires gs != []
    requires BreaksForced(gs, measure, maxWidth)
    requires !Fits(measure, maxWidth, Buffer(gs[|gs| - 1]) + x + " ")
    ensures BreaksForced(gs + [[x]], measure, maxWidth)
  {
    var gs' := gs + [[x]];
    forall i | 0 < i < |gs'|
      ensures gs'[i] != [] && !Fits(measure, maxWidth, Buffer(gs'[i - 1]) + gs'[i][0] + " ")
    {
      assert gs'[i - 1] == gs[i - 1];
      if i < |gs| {
        assert gs'[i] == gs[i];
      }
    }
  }

  /** A word that passes the width test joins the last group. */
  lemma ExtendLast(words: seq<string>, done: seq<seq<string>>, cur: seq<string>, x: string, measure: string -> real, maxWidth: int)
    requires cur != []
    requires IsGreedyLayout(words, done + [cur], measure, maxWidth)
    requires Fits(measure, maxWidth, Buffer(cur) + x + " ")
    ensures IsGreedyLayout(words + [x], done + [cur + [x]], measure, maxWidth)
  {
    FlattenSnoc(done, cur);
    FlattenSnoc(done, cur + [x]);
    PrefixesFitExtendLast(done, cur, x, measure, maxWidth);
    BreaksForcedExtendLast(done, cur, x, measure, maxWidth);
  }

  /** A word that fails the width test starts a new group. */
  lemma StartGroup(words: seq<string>, gs: seq<seq<string>>, x: string, measure: string -> real, maxWidth: int)
    requires gs != []
    requires IsGreedyLayout(words, gs, measure, maxWidth)
    requires !Fits(measure, maxWidth, Buffer(gs[|gs| - 1]) + x + " ")
    ensures IsGreedyLayout(words + [x], gs + [[x]], measure, maxWidth)
  {
    FlattenSnoc(gs, [x]);
    PrefixesFitAppend(gs, x, measure, maxWidth);
    BreaksForcedAppend(gs, x, measure, maxWidth);
  }

  /** The layouts of a single word: alone on the first line when it fits,
      after an empty first line when it does not. */
  lemma OneWord(x: string, measure: string -> real, maxWidth: int)
    ensures Fits(measure, maxWidth, x + " ") ==> IsGreedyLayout([x], [[x]], measure, maxWidth)
    ensures !Fits(measure, maxWidth, x + " ") ==> IsGreedyLayout([x], [[], [x]], measure, maxWidth)
  {
    BufferSingle(x);
    assert [x][..1] == [x];
    FlattenSnoc([], [x]);
    FlattenSnoc([], []);
    FlattenSnoc([[]], [x]);
    assert Buffer([]) + x + " " == x + " ";
  }

  /** The lines the loop emits form a greedy layout of the words. */
  lemma {:induction false} GroupsAreGreedy(words: seq<string>, measure: string -> real, maxWidth: int)
    ensures IsGreedyLayout(words, Groups(words, measure, maxWidth), measure, maxWidth)
    decreases |words|
  {
    if words != [] {
      var ws, x := words[..|words| - 1], words[|words| - 1];
      assert words == ws + [x];
      var p := Scan(ws, measure, maxWidth);
      GroupsOfNonEmpty(words, measure, maxWidth);
      if ws == [] {
        OneWord(x, measure, maxWidth);
        assert Buffer(p.current) + x + " " == x + " ";
        if Fits(measure, maxWidth, x + " ") {
          assert Groups(words, measure, maxWidth) == [[x]];
        } else {
          assert Groups(words, measure, maxWidth) == [[], [x]];
        }
      } else {
        GroupsAreGreedy(ws, measure, maxWidth);
        GroupsOfNonEmpty(ws, measure, maxWidth);
        if Fits(measure, maxWidth, Buffer(p.current) + x + " ") {
          ExtendLast(ws, p.done, p.current, x, measure, maxWidth);
        } else {
          StartGroup(ws, p.done + [p.current], x, measure, maxWidth);
        }
      }
    }
  }

  lemma SnocInjective(a: seq<seq<string>>, b: seq<string>, c: seq<seq<string>>, d: seq<string>)
    requires a + [b] == c + [d]
    ensures a == c && b == d
  {
    assert |a| == |c|;
    assert a == (a + [b])[..|a|];
    assert c == (c + [d])[..|c|];
  }

  lemma PrefixesFitShorten(gs: seq<seq<string>>, measure: string -> real, maxWidth: int)
    requires gs != [] && |gs[|gs| - 1]| >= 2
    requires PrefixesFit(gs, measure, maxWidth)
    ensures var L := gs[|gs| - 1];
      PrefixesFit(gs[..|gs| - 1] + [L[..|L| - 1]], measure, maxWidth)
  {
    var L := gs[|gs| - 1];
    var gs' := gs[..|gs| - 1] + [L[..|L| - 1]];
    forall i, k | 0 <= i < |gs'| && 1 <= k <= |gs'[i]| && (i == 0 || 2 <= k)
      ensures Fits(measure, maxWidth, Buffer(gs'[i][..k]))
    {
      if i < |gs| - 1 {
        assert gs'[i] == gs[i];
      } else {
        assert gs'[i][..k] == gs[i][..k];
      }
    }
  }

  lemma BreaksForcedShorten(gs: seq<seq<string>>, measure: string -> real, maxWidth: int)
    requires gs != [] && |gs[|gs| - 1]| >= 2
    requires BreaksForced(gs, measure, maxWidth)
    ensures var L := gs[|gs| - 1];
      BreaksForced(gs[..|gs| - 1] + [L[..|L| - 1]], measure, maxWidth)
  {
    var L := gs[|gs| - 1];
    var gs' := gs[..|gs| - 1] + [L[..|L| - 1]];
    forall i | 0 < i < |gs'|
      ensures gs'[i] != [] && !Fits(measure, maxWidth, Buffer(gs'[i - 1]) + gs'[i][0] + " ")
    {
      assert gs'[i - 1] == gs[i - 1];
      assert gs'[i][0] == gs[i][0];
    }
  }

  /** Dropping the last word of a layout whose last group holds two or more
      words leaves a greedy layout of the shorter word list; that word had
      passed the width test. */
  lemma ShortenLast(words: seq<string>, init: seq<seq<string>>, L: seq<string>, measure: string -> real, maxWidth: int)
    requires IsGreedyLayout(words, init + [L], measure, maxWidth)
    requires |L| >= 2
    ensures words != [] && L == L[..|L| - 1] + [words[|words| - 1]]
    ensures IsGreedyLayout(words[..|words| - 1], init + [L[..|L| - 1]], measure, maxWidth)
    ensures Fits(measure, maxWidth, Buffer(L[..|L| - 1] + [words[|words| - 1]]))
  {
    var gs := init + [L];
    var L' := L[..|L| - 1];
    assert gs[..|gs| - 1] == init && gs[|gs| - 1] == L;
    assert L == L' + [L[|L| - 1]];
    FlattenSnoc(init, L);
    FlattenSnoc(init, L');
    assert words == (Flatten(init) + L') + [L[|L| - 1]];
    PrefixesFitShorten(gs, measure, maxWidth);
    BreaksForcedShorten(gs, measure, maxWidth);
    assert L[..|L|] == L;
  }

  /** Dropping a last group that holds a single word leaves a greedy layout
      of the shorter word list, when what remains is not the lone empty first
      group; that word had failed the width test against the group before. */
  lemma DropLast(words: seq<string>, init: seq<seq<string>>, x: string, measure: string -> real, maxWidth: int)
    requires IsGreedyLayout(words, init + [[x]], measure, maxWidth)
    requires init != [] && init[|init| - 1] != []
    ensures words != [] && x == words[|words| - 1]
    ensures IsGreedyLayout(words[..|words| - 1], init, measure, maxWidth)
    ensures !Fits(measure, maxWidth, Buffer(init[|init| - 1]) + x + " ")
  {
    var gs := init + [[x]];
    assert gs[..|gs| - 1] == init && gs[|gs| - 1] == [x];
    FlattenSnoc(init, [x]);
    assert words[..|words| - 1] == Flatten(init);
    forall i, k | 0 <= i < |init| && 1 <= k <= |init[i]| && (i == 0 || 2 <= k)
      ensures Fits(measure, maxWidth, Buffer(init[i][..k]))
    {
      assert init[i] == gs[i];
    }
    forall i | 0 < i < |init|
      ensures init[i] != [] && !Fits(measure, maxWidth, Buffer(init[i - 1]) + init[i][0] + " ")
    {
      assert init[i - 1] == gs[i - 1] && init[i] == gs[i];
    }
    assert gs[|init|][0] == x;
  }

  /** A word that fits joins the last group of the loop's layout. */
  lemma JoinsLastGroup(ws: seq<string>, x: string, init: seq<seq<string>>, cur: seq<string>, measure: string -> real, maxWidth: int)
    requires Groups(ws, measure, maxWidth) == init + [cur]
    requires Fits(measure, maxWidth, Buffer(cur + [x]))
    ensures Groups(ws + [x], measure, maxWidth) == init + [cur + [x]]
  {
    GroupsEmptyIff(ws, measure, maxWidth);
    GroupsOfNonEmpty(ws, measure, maxWidth);
    GroupsOfNonEmpty(ws + [x], measure, maxWidth);
    ScanSnoc(ws, x, measure, maxWidth);
    var p := Scan(ws, measure, maxWidth);
    SnocInjective(p.done, p.current, init, cur);
    BufferSnoc(cur, x);
  }

  lemma {:induction false} LongLastCase(words: seq<string>, init: seq<seq<string>>, L: seq<string>, measure: string -> real, maxWidth: int)
    requires IsGreedyLayout(words, init + [L], measure, maxWidth)
    requires |L| >= 2
    ensures init + [L] == Groups(words, measure, maxWidth)
    decreases |words|, 0
  {
    ShortenLast(words, init, L, measure, maxWidth);
    var ws := words[..|words| - 1];
    GreedyLayoutIsUnique(ws, init + [L[..|L| - 1]], measure, maxWidth);
    JoinsLastGroup(ws, words[|words| - 1], init, L[..|L| - 1], measure, maxWidth);
    assert words == ws + [words[|words| - 1]];
  }

  /** A word that does not fit starts a new group of the loop's layout. */
  lemma StartsNewGroup(ws: seq<string>, x: string, init: seq<seq<string>>, measure: string -> real, maxWidth: int)
    requires Groups(ws, measure, maxWidth) == init && init != []
    requires !Fits(measure, maxWidth, Buffer(init[|init| - 1]) + x + " ")
    ensures Groups(ws + [x], measure, maxWidth) == init + [[x]]
  {
    GroupsEmptyIff(ws, measure, maxWidth);
    GroupsOfNonEmpty(ws, measure, maxWidth);
    GroupsOfNonEmpty(ws + [x], measure, maxWidth);
    ScanSnoc(ws, x, measure, maxWidth);
  }

  lemma {:induction false} SingleLastCase(words: seq<string>, init: seq<seq<string>>, x: string, measure: string -> real, maxWidth: int)
    requires IsGreedyLayout(words, init + [[x]], measure, maxWidth)
    requires init != [] && init[|init| - 1] != []
    ensures init + [[x]] == Groups(words, measure, maxWidth)
    decreases |words|, 0
  {
    DropLast(words, init, x, measure, maxWidth);
    var ws := words[..|words| - 1];
    GreedyLayoutIsUnique(ws, init, measure, maxWidth);
    StartsNewGroup(ws, x, init, measure, maxWidth);
    assert words == ws + [x];
  }

  lemma GroupsOfOneWord(x: string, measure: string -> real, maxWidth: int)
    ensures Groups([x], measure, maxWidth)
      == if Fits(measure, maxWidth, x + " ") then [[x]] else [[], [x]]
  {
    assert [x][..0] == [];
    var p := Scan([x], measure, maxWidth);
    assert Scan([], measure, maxWidth) == Progress([], []);
    assert Buffer([]) + x + " " == x + " ";
    BufferSingle(x);
    if Fits(measure, maxWidth, x + " ") {
      assert p == Progress([], [x]);
    } else {
      assert p == Progress([[]], [x]);
    }
  }

  lemma OneWordCase(words: seq<string>, gs: seq<seq<string>>, measure: string -> real, maxWidth: int)
    requires IsGreedyLayout(words, gs, measure, maxWidth)
    requires |gs| == 1 || (|gs| == 2 && gs[0] == [])
    requires |gs[|gs| - 1]| == 1
    ensures gs == Groups(words, measure, maxWidth)
  {
    var x := gs[|gs| - 1][0];
    assert gs[|gs| - 1] == [x];
    BufferSingle(x);
    if |gs| == 1 {
      FlattenSnoc([], [x]);
      assert gs == [] + [[x]];
      assert gs[0][..1] == [x];
    } else {
      FlattenSnoc([], []);
      FlattenSnoc([[]], [x]);
      assert gs == [[]] + [[x]];
      assert Buffer(gs[0]) + gs[1][0] + " " == x + " ";
    }
    GroupsOfOneWord(x, measure, maxWidth);
  }

  /** The greedy layout is unique: any grouping of the words that satisfies
      IsGreedyLayout is the one the loop produces. */
  lemma {:induction false} GreedyLayoutIsUnique(words: seq<string>, gs: seq<seq<string>>, measure: string -> real, maxWidth: int)
    requires IsGreedyLayout(words, gs, measure, maxWidth)
    ensures gs == Groups(words, measure, maxWidth)
    decreases |words|, 1
  {
    FlattenNonEmpty(gs);
    if words == [] {
      ScanCurrent(words, measure, maxWidth);
      assert gs == [];
      assert Scan(words, measure, maxWidth) == Progress([], []);
    } else if |gs[|gs| - 1]| >= 2 {
      assert gs == gs[..|gs| - 1] + [gs[|gs| - 1]];
      LongLastCase(words, gs[..|gs| - 1], gs[|gs| - 1], measure, maxWidth);
    } else if |gs| == 1 || gs[|gs| - 2] == [] {
      OneWordCase(words, gs, measure, maxWidth);
    } else {
      var x := gs[|gs| - 1][0];
      assert gs[|gs| - 1] == [x];
      assert gs == gs[..|gs| - 1] + [[x]];
      SingleLastCase(words, gs[..|gs| - 1], x, measure, maxWidth);
    }
  }

  // ---------------------------------------------------------------------
  // Properties of the wrapper's result

  /** No words, no lines; otherwise at least one line. In particular a text
      made of spaces only wraps to no line at all, while the empty text gives
      one (empty) word and so at least one line: one `""`, or two when even
      `" "` fails the width test (the quirk below). */
  lemma NoLinesIff(text: string, measure: string -> real, maxWidth: int)
    ensures Wrap(text, measure, maxWidth) == [] <==> text != [] && AllSpaces(text)
  {
    SplitEmptyIff(text);
    var words := Split(text);
    ScanCurrent(words, measure, maxWidth);
  }

  /** Every failed width test emits exactly one line during the loop, and
      nothing else does. */
  lemma {:induction false} EmittedCount(words: seq<string>, measure: string -> real, maxWidth: int)
    ensures |Scan(words, measure, maxWidth).done| == FailedTests(words, measure, maxWidth)
    decreases |words|
  {
    if words != [] {
      EmittedCount(words[..|words| - 1], measure, maxWidth);
    }
  }

  /** The number of lines is the number of failed width tests, plus one for
      the final flush whenever the split gives at least one word. */
  lemma LineCount(text: string, measure: string -> real, maxWidth: int)
    ensures |Wrap(text, measure, maxWidth)|
      == FailedTests(Split(text), measure, maxWidth) + (if Split(text) == [] then 0 else 1)
  {
    var words := Split(text);
    EmittedCount(words, measure, maxWidth);
    ScanCurrent(words, measure, maxWidth);
  }

  /** First-word quirk: the first line holds no word exactly when the very
      first word fails the width test on its own; the still-empty buffer is
      then emitted, trimmed, as an empty first line, and the word follows on
      the next one. */
  lemma FirstWordQuirk(words: seq<string>, measure: string -> real, maxWidth: int)
    requires words != []
    ensures var gs := Groups(words, measure, maxWidth);
      gs != []
      && (gs[0] == [] <==> !Fits(measure, maxWidth, words[0] + " "))
      && (gs[0] == [] ==> |gs| >= 2 && gs[1] != [] && gs[1][0] == words[0] && LineTexts(gs)[0] == "")
  {
    var gs := Groups(words, measure, maxWidth);
    GroupsAreGreedy(words, measure, maxWidth);
    FlattenNonEmpty(gs);
    BufferSingle(words[0]);
    FlattenHead(gs);
    if gs[0] != [] {
      assert gs[0][..1] == [gs[0][0]];
    }
  }

  /** The first word of the flattened groups lies in the first non-empty one
      of the first two groups. */
  lemma {:induction false} FlattenHead(gs: seq<seq<string>>)
    requires gs != [] && gs[|gs| - 1] != []
    requires forall i :: 0 < i < |gs| ==> gs[i] != []
    ensures |Flatten(gs)| > 0
    ensures gs[0] != [] ==> Flatten(gs)[0] == gs[0][0]
    ensures gs[0] == [] ==> |gs| >= 2 && Flatten(gs)[0] == gs[1][0]
    decreases |gs|
  {
    if |gs| > 1 {
      var init := gs[..|gs| - 1];
      if |init| >= 2 || init[0] != [] {
        FlattenHead(init);
      } else {
        assert init == [[]];
        FlattenSnoc([], []);
      }
    }
  }

  /** Each line is its words joined by single spaces, then trimmed: the
      space runs that empty words leave between other words stay inside the
      line. */
  lemma LineIsJoinedWords(text: string, measure: string -> real, maxWidth: int, i: nat)
    requires i < |Wrap(text, measure, maxWidth)|
    ensures var g := Groups(Split(text), measure, maxWidth)[i];
      Wrap(text, measure, maxWidth)[i] == Trim(Join(g, " "))
  {
    var g := Groups(Split(text), measure, maxWidth)[i];
    if g != [] {
      BufferIsJoin(g);
      TrimIgnoresTrailingBlank(Join(g, " "), ' ');
    }
  }

  /** A font metric that never shrinks when text is added on either side. */
  ghost predicate Monotone(measure: string -> real) {
    forall s: string, t: string :: measure(s) <= measure(s + t) && measure(t) <= measure(s + t)
  }

  lemma InnerWordFits(g: seq<string>, k: nat, measure: string -> real, maxWidth: int, j: nat)
    requires Monotone(measure)
    requires k < j <= |g|
    requires Fits(measure, maxWidth, Buffer(g[..j]))
    ensures Fits(measure, maxWidth, g[k] + " ")
  {
    assert g[..j] == g[..k] + [g[k]] + g[k + 1..j];
    BufferConcat(g[..k] + [g[k]], g[k + 1..j]);
    BufferConcat(g[..k], [g[k]]);
    BufferSingle(g[k]);
    var a, w, b := Buffer(g[..k]), g[k] + " ", Buffer(g[k + 1..j]);
    assert Buffer(g[..j]) == (a + w) + b;
    assert measure(w) <= measure(a + w);
    assert measure(a + w) <= measure((a + w) + b);
  }

  /** Under a metric that grows with its argument, a word that does not fit
      by itself shares its line with no other word: the line is that word,
      unsplit, with only the trim applied to its ends. */
  lemma OversizedWordAlone(words: seq<string>, measure: string -> real, maxWidth: int)
    requires Monotone(measure)
    ensures var gs := Groups(words, measure, maxWidth);
      forall i, k :: 0 <= i < |gs| && 0 <= k < |gs[i]| ==>
        !Fits(measure, maxWidth, gs[i][k] + " ") ==> gs[i] == [gs[i][k]]
  {
    var gs := Groups(words, measure, maxWidth);
    GroupsAreGreedy(words, measure, maxWidth);
    forall i, k | 0 <= i < |gs| && 0 <= k < |gs[i]|
      ensures !Fits(measure, maxWidth, gs[i][k] + " ") ==> gs[i] == [gs[i][k]]
    {
      var g := gs[i];
      if |g| >= 2 {
        var j := if k + 1 >= 2 then k + 1 else 2;
        InnerWordFits(g, k, measure, maxWidth, j);
      } else {
        assert g == [g[0]];
      }
    }
  }

  lemma TrimMeasure(s: string, measure: string -> real)
    requires Monotone(measure)
    ensures measure(Trim(s)) <= measure(s)
  {
    var r := Trim(s);
    TrimIsSlice(s);
    var a :| TrimmedAt(s, r, a);
    var front, back := s[..a], s[a + |r|..];
    assert s == front + (r + back);
    assert measure(r) <= measure(r + back);
    assert measure(r + back) <= measure(front + (r + back));
  }

  /** Under a growing metric each line of a greedy layout is at most
      `maxWidth` wide when every word is. The empty first line is measured
      against the first word; a line holding one word that was started by a
      failed test is that word, trimmed; any other line passed its width
      test with its trailing space still on. */
  lemma LineFits(words: seq<string>, gs: seq<seq<string>>, i: nat, measure: string -> real, maxWidth: int)
    requires Monotone(measure)
    requires IsGreedyLayout(words, gs, measure, maxWidth)
    requires i < |gs|
    requires forall k :: 0 <= k < |gs[i]| ==> gs[i][k] in words
    requires forall w :: w in words ==> measure(w) <= maxWidth as real
    ensures measure(Trim(Buffer(gs[i]))) <= maxWidth as real
  {
    var g := gs[i];
    if g == [] {
      FlattenNonEmpty(gs);
      var w := words[0];
      assert w in words;
      assert Trim(Buffer(g)) == "";
      assert measure("") <= measure("" + w);
      assert "" + w == w;
    } else if i == 0 || |g| >= 2 {
      assert g[..|g|] == g;
      TrimMeasure(Buffer(g), measure);
    } else {
      var w := g[0];
      assert g == [w];
      BufferSingle(w);
      TrimIgnoresTrailingBlank(w, ' ');
      TrimMeasure(w, measure);
    }
  }

  /** Every line of a greedy layout fits when every word does. */
  lemma LayoutLinesFit(words: seq<string>, gs: seq<seq<string>>, measure: string -> real, maxWidth: int)
    requires Monotone(measure)
    requires IsGreedyLayout(words, gs, measure, maxWidth)
    requires forall w :: w in words ==> measure(w) <= maxWidth as real
    ensures forall i :: 0 <= i < |gs| ==> measure(Trim(Buffer(gs[i]))) <= maxWidth as real
  {
    FlattenMembers(gs);
    forall i | 0 <= i < |gs|
      ensures measure(Trim(Buffer(gs[i]))) <= maxWidth as real
    {
      LineFits(words, gs, i, measure, maxWidth);
    }
  }

  /** With a metric that grows with its argument, when every word is at most
      `maxWidth` wide every emitted line is too. */
  lemma LinesFitWhenWordsFit(text: string, measure: string -> real, maxWidth: int)
    requires Monotone(measure)
    requires forall w :: w in Split(text) ==> measure(w) <= maxWidth as real
    ensures var lines := Wrap(text, measure, maxWidth);
      forall i :: 0 <= i < |lines| ==> measure(lines[i]) <= maxWidth as real
  {
    var words := Split(text);
    var gs := Groups(words, measure, maxWidth);
    GroupsAreGreedy(words, measure, maxWidth);
    LayoutLinesFit(words, gs, measure, maxWidth);
    assert Wrap(text, measure, maxWidth) == LineTexts(gs);
  }

  /** Every word of every group is one of the flattened words. */
  lemma {:induction false} FlattenMembers(gs: seq<seq<string>>)
    ensures forall i, k :: 0 <= i < |gs| && 0 <= k < |gs[i]| ==> gs[i][k] in Flatten(gs)
    decreases |gs|
  {
    if gs != [] {
      var init := gs[..|gs| - 1];
      FlattenMembers(init);
      forall i, k | 0 <= i < |gs| && 0 <= k < |gs[i]|
        ensures gs[i][k] in Flatten(gs)
      {
        if i < |init| {
          assert gs[i] == init[i];
        } else {
          assert gs[i][k] == Flatten(gs)[|Flatten(init)| + k];
        }
      }
    }
  }

  // ---------------------------------------------------------------------
  // The source's loop

  /** What one iteration does to the emitted lines and to the buffer. */
  lemma StepEffect(state: Progress, words: seq<string>, i: nat, measure: string -> real, maxWidth: int)
    requires i < |words| && state == Scan(words[..i], measure, maxWidth)
    ensures var next := Step(state, words[i], measure, maxWidth);
      var candidate := Buffer(state.current) + words[i] + " ";
      next == Scan(words[..i + 1], measure, maxWidth)
      && FailedTests(words[..i + 1], measure, maxWidth)
        == FailedTests(words[..i], measure, maxWidth) + (if Fits(measure, maxWidth, candidate) then 0 else 1)
      && (Fits(measure, maxWidth, candidate) ==>
            LineTexts(next.done) == LineTexts(state.done) && Buffer(next.current) == candidate)
      && (!Fits(measure, maxWidth, candidate) ==>
            LineTexts(next.done) == LineTexts(state.done) + [Trim(Buffer(state.current))]
            && Buffer(next.current) == words[i] + " ")
  {
    assert words[..i + 1] == words[..i] + [words[i]];
    assert words[..i + 1][..i] == words[..i];
    ScanSnoc(words[..i], words[i], measure, maxWidth);
    LineTextsSnoc(state.done, state.current);
    BufferSnoc(state.current, words[i]);
    BufferSingle(words[i]);
  }

  /** After the last word: the final buffer is emitted exactly when it is not
      empty, and that happens exactly when there was a word. */
  lemma FinalFlush(words: seq<string>, measure: string -> real, maxWidth: int)
    ensures var state := Scan(words, measure, maxWidth);
      (|Buffer(state.current)| > 0 <==> words != [])
      && LineTexts(Groups(words, measure, maxWidth))
        == LineTexts(state.done) + (if |Buffer(state.current)| > 0 then [Trim(Buffer(state.current))] else [])
  {
    var state := Scan(words, measure, maxWidth);
    ScanCurrent(words, measure, maxWidth);
    LineTextsSnoc(state.done, state.current);
  }

  /** `breakTextIntoLines(text, paint, maxWidth)`. The ghost `failures`
      counts the width tests that failed in the loop; the number of lines is
      that count, plus one for the final flush, which always happens when
      there is at least one word because every iteration leaves the buffer
      non-empty. */
  method BreakTextIntoLines(text: string, measure: string -> real, maxWidth: int)
    returns (lines: seq<string>, ghost failures: nat)
    ensures lines == Wrap(text, measure, maxWidth)
    ensures failures == FailedTests(Split(text), measure, maxWidth)
    ensures |lines| == failures + (if Split(text) == [] then 0 else 1)
  {
    lines := [];
    failures := 0;
    var words := Split(text);
    var line := "";
    ghost var state := Progress([], []);
    for i := 0 to |words|
      invariant state == Scan(words[..i], measure, maxWidth)
      invariant lines == LineTexts(state.done)
      invariant line == Buffer(state.current)
      invariant failures == FailedTests(words[..i], measure, maxWidth)
      invariant |lines| == failures
      invariant i > 0 ==> |line| > 0
    {
      var word := words[i];
      StepEffect(state, words, i, measure, maxWidth);
      var test := line + word + " ";
      if measure(test) <= maxWidth as real {
        line := line + word + " ";
      } else {
        lines := lines + [Trim(line)];
        line := word + " ";
        failures := failures + 1;
      }
      state := Step(state, word, measure, maxWidth);
    }
    assert words[..|words|] == words;
    FinalFlush(words, measure, maxWidth);
    if |line| > 0 {
      lines := lines + [Trim(line)];
    }
  }
}
