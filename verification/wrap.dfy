/**
 The greedy line breaker inside `txt_wrap`.

 The word loop is modelled twice. `Scan` follows the loop as written: it
 carries the finished `lines` and the `current` line as strings and tests
 `current + " " + w` against the width limit. `Groups` runs the same greedy
 rule on sequences of words, so that each line keeps its words; it is the
 model the properties are proved on, and `WrapLinesAreGroups` shows that the
 two agree on every word list `split()` can produce. `GreedyBreaking` is an
 independent description of a greedy breaking, and `Groups` is its one and
 only solution.
 */
module Wrap {
  import opened Split

  /** The rendered width of a string in the chosen font and size. */
  type Width = string -> real

  /** The candidate line `current + " " + w`. */
  function Glue(a: string, b: string): string {
    a + " " + b
  }

  function Last<T>(s: seq<T>): T
    requires s != []
  {
    s[|s| - 1]
  }

  function AllButLast<T>(s: seq<T>): seq<T>
    requires s != []
  {
    s[..|s| - 1]
  }

  // ---------------------------------------------------------------------
  // The loop as written, on strings.
  // ---------------------------------------------------------------------

  datatype WrapState = WrapState(lines: seq<string>, current: string)

  const Start := WrapState([], "")

  /** One pass of the `for w in words` body. */
  function Step(st: WrapState, w: string, width: Width, maxW: real): WrapState {
    var test := st.current + (if st.current != "" then " " else "") + w;
    if width(test) > maxW then
      WrapState(if st.current != "" then st.lines + [st.current] else st.lines, w)
    else
      WrapState(st.lines, test)
  }

  /** The loop state after the body has run on every word of `words`. */
  function Scan(words: seq<string>, width: Width, maxW: real): WrapState
    decreases |words|
  {
    if words == [] then Start
    else Step(Scan(AllButLast(words), width, maxW), Last(words), width, maxW)
  }

  /** The trailing `if current: lines.append(current)`. */
  function Flush(st: WrapState): seq<string> {
    if st.current != "" then st.lines + [st.current] else st.lines
  }

  /** The lines `txt_wrap` draws for the given words. The `if current:` guards
      keep empty lines out, and only empty words can leave no line at all. */
  function WrapLines(words: seq<string>, width: Width, maxW: real): (lines: seq<string>)
    ensures forall i :: 0 <= i < |lines| ==> lines[i] != ""
    ensures lines == [] <==> forall i :: 0 <= i < |words| ==> words[i] == ""
  {
    ScanLinesNonEmpty(words, width, maxW);
    ScanBlank(words, width, maxW);
    Flush(Scan(words, width, maxW))
  }

  // ---------------------------------------------------------------------
  // The same greedy rule on groups of words.
  // ---------------------------------------------------------------------

  /** Add one word: start a new group when the last group plus the word is too wide. */
  function Grow(gs: seq<seq<string>>, w: string, width: Width, maxW: real): seq<seq<string>> {
    if gs == [] then [[w]]
    else if width(Glue(Join(Last(gs), " "), w)) > maxW then gs + [[w]]
    else AllButLast(gs) + [Last(gs) + [w]]
  }

  function Groups(words: seq<string>, width: Width, maxW: real): seq<seq<string>>
    decreases |words|
  {
    if words == [] then [] else Grow(Groups(AllButLast(words), width, maxW), Last(words), width, maxW)
  }

  function Flatten(gs: seq<seq<string>>): seq<string> {
    if gs == [] then [] else Flatten(AllButLast(gs)) + Last(gs)
  }

  /** Each group rendered as one line. */
  function JoinEach(gs: seq<seq<string>>): (lines: seq<string>)
    ensures |lines| == |gs|
  {
    seq(|gs|, i requires 0 <= i < |gs| => Join(gs[i], " "))
  }

  // ---------------------------------------------------------------------
  // What a greedy breaking is, independently of how it is computed.
  // ---------------------------------------------------------------------

  /** The groups are non-empty and hold exactly `words`, in order. */
  predicate Covers(gs: seq<seq<string>>, words: seq<string>) {
    && (forall i :: 0 <= i < |gs| ==> gs[i] != [])
    && Flatten(gs) == words
  }

  /** Every time a word joined the group, the grown line still fitted. */
  predicate FitsAsItGrows(g: seq<string>, width: Width, maxW: real) {
    forall j :: 2 <= j <= |g| ==> width(Join(g[..j], " ")) <= maxW
  }

  /** No group could have taken the first word of the next one. */
  predicate BreaksForced(gs: seq<seq<string>>, width: Width, maxW: real)
    requires forall i :: 0 <= i < |gs| ==> gs[i] != []
  {
    forall i :: 0 <= i < |gs| - 1 ==> width(Glue(Join(gs[i], " "), gs[i + 1][0])) > maxW
  }

  predicate GreedyBreaking(words: seq<string>, gs: seq<seq<string>>, width: Width, maxW: real) {
    && Covers(gs, words)
    && (forall i :: 0 <= i < |gs| ==> FitsAsItGrows(gs[i], width, maxW))
    && BreaksForced(gs, width, maxW)
  }

  // ---------------------------------------------------------------------
  // Lemmas.
  // ---------------------------------------------------------------------

  lemma FlattenSnoc(gs: seq<seq<string>>, g: seq<string>)
    ensures Flatten(gs + [g]) == Flatten(gs) + g
  {
    assert AllButLast(gs + [g]) == gs;
  }

  /** Starting a new group with `w` keeps the breaking greedy when the break is forced. */
  lemma GreedyNewGroup(pre: seq<string>, gs: seq<seq<string>>, w: string, width: Width, maxW: real)
    requires GreedyBreaking(pre, gs, width, maxW)
    requires gs == [] || width(Glue(Join(Last(gs), " "), w)) > maxW
    ensures GreedyBreaking(pre + [w], gs + [[w]], width, maxW)
  {
    var r := gs + [[w]];
    FlattenSnoc(gs, [w]);
    assert Covers(r, pre + [w]);
    assert forall i :: 0 <= i < |gs| ==> r[i] == gs[i];
    assert forall i :: 0 <= i < |r| ==> FitsAsItGrows(r[i], width, maxW);
    assert BreaksForced(r, width, maxW);
  }

  /** A line that fitted as it grew, and still fits with `w` glued on, fits as it grows with `w`. */
  lemma FitsAfterExtend(L: seq<string>, w: string, width: Width, maxW: real)
    requires L != [] && FitsAsItGrows(L, width, maxW)
    requires width(Glue(Join(L, " "), w)) <= maxW
    ensures FitsAsItGrows(L + [w], width, maxW)
  {
    JoinSnoc(L, w, " ");
    forall j | 2 <= j <= |L + [w]|
      ensures width(Join((L + [w])[..j], " ")) <= maxW
    {
      if j <= |L| {
        assert (L + [w])[..j] == L[..j];
      } else {
        assert (L + [w])[..j] == L + [w];
      }
    }
  }

  /** Appending `w` to the last group keeps the breaking greedy when the grown line fits. */
  lemma GreedyExtendGroup(pre: seq<string>, gs: seq<seq<string>>, w: string, width: Width, maxW: real)
    requires GreedyBreaking(pre, gs, width, maxW)
    requires gs != [] && width(Glue(Join(Last(gs), " "), w)) <= maxW
    ensures GreedyBreaking(pre + [w], AllButLast(gs) + [Last(gs) + [w]], width, maxW)
  {
    var front, L := AllButLast(gs), Last(gs);
    var r := front + [L + [w]];
    assert gs == front + [L];
    FlattenSnoc(front, L);
    FlattenSnoc(front, L + [w]);
    assert Covers(r, pre + [w]);
    assert FitsAsItGrows(gs[|gs| - 1], width, maxW);
    FitsAfterExtend(L, w, width, maxW);
    assert forall i :: 0 <= i < |front| ==> r[i] == gs[i];
    assert forall i :: 0 <= i < |r| ==> FitsAsItGrows(r[i], width, maxW);
    assert r[|gs| - 1][0] == L[0];
    assert BreaksForced(r, width, maxW);
  }

  /** `Groups` is a greedy breaking of its words, whatever the width function. */
  lemma {:induction false} GroupsAreGreedy(words: seq<string>, width: Width, maxW: real)
    ensures GreedyBreaking(words, Groups(words, width, maxW), width, maxW)
    decreases |words|
  {
    if words != [] {
      var pre, w := AllButLast(words), Last(words);
      assert words == pre + [w];
      var gs := Groups(pre, width, maxW);
      GroupsAreGreedy(pre, width, maxW);
      if gs == [] || width(Glue(Join(Last(gs), " "), w)) > maxW {
        GreedyNewGroup(pre, gs, w, width, maxW);
        assert gs == [] ==> [[w]] == gs + [[w]];
      } else {
        GreedyExtendGroup(pre, gs, w, width, maxW);
      }
    }
  }

  lemma FlattenEmpty(gs: seq<seq<string>>)
    requires forall i :: 0 <= i < |gs| ==> gs[i] != []
    requires gs != []
    ensures Flatten(gs) != []
  {
    assert |Flatten(gs)| >= |Last(gs)| > 0;
  }

  /** Removing a last group of one word leaves a greedy breaking of the shorter list. */
  lemma GreedyDropGroup(words: seq<string>, gs: seq<seq<string>>, width: Width, maxW: real)
    requires GreedyBreaking(words, gs, width, maxW)
    requires gs != [] && |Last(gs)| == 1
    ensures words != [] && Last(gs) == [Last(words)]
    ensures GreedyBreaking(AllButLast(words), AllButLast(gs), width, maxW)
  {
    var front, L := AllButLast(gs), Last(gs);
    assert gs == front + [L];
    FlattenSnoc(front, L);
    assert words == Flatten(front) + L;
    assert Covers(front, AllButLast(words));
    assert forall i :: 0 <= i < |front| ==> front[i] == gs[i];
    assert forall i :: 0 <= i < |front| ==> FitsAsItGrows(front[i], width, maxW);
    assert BreaksForced(front, width, maxW);
  }

  /** Removing the last word from a last group of two or more leaves a greedy breaking. */
  lemma GreedyShrinkGroup(words: seq<string>, gs: seq<seq<string>>, width: Width, maxW: real)
    requires GreedyBreaking(words, gs, width, maxW)
    requires gs != [] && |Last(gs)| >= 2
    ensures words != [] && Last(Last(gs)) == Last(words)
    ensures GreedyBreaking(AllButLast(words), AllButLast(gs) + [AllButLast(Last(gs))], width, maxW)
  {
    var front, L := AllButLast(gs), Last(gs);
    var L' := AllButLast(L);
    var r := front + [L'];
    assert gs == front + [L];
    assert L == L' + [Last(L)];
    FlattenSnoc(front, L);
    FlattenSnoc(front, L');
    assert words == Flatten(front) + L' + [Last(L)];
    assert Covers(r, AllButLast(words));
    forall j | 2 <= j <= |L'|
      ensures width(Join(L'[..j], " ")) <= maxW
    {
      assert L'[..j] == L[..j];
      assert FitsAsItGrows(gs[|gs| - 1], width, maxW);
    }
    assert forall i :: 0 <= i < |front| ==> r[i] == gs[i];
    assert forall i :: 0 <= i < |r| ==> FitsAsItGrows(r[i], width, maxW);
    assert r[|front|][0] == L[0];
    assert BreaksForced(r, width, maxW);
  }

  /** The last step of the uniqueness proof when the last group is one word. */
  lemma GrowNewGroupMatches(words: seq<string>, gs: seq<seq<string>>, width: Width, maxW: real)
    requires GreedyBreaking(words, gs, width, maxW)
    requires gs != [] && words != [] && Last(gs) == [Last(words)]
    requires AllButLast(gs) == Groups(AllButLast(words), width, maxW)
    ensures gs == Groups(words, width, maxW)
  {
    var front, w := AllButLast(gs), Last(words);
    assert gs == front + [[w]];
    if front != [] {
      assert BreaksForced(gs, width, maxW);
      assert gs[|gs| - 2] == Last(front);
      assert gs[|gs| - 1][0] == w;
    }
  }

  /** The last step of the uniqueness proof when the last group has two or more words. */
  lemma GrowExtendMatches(words: seq<string>, gs: seq<seq<string>>, width: Width, maxW: real)
    requires GreedyBreaking(words, gs, width, maxW)
    requires gs != [] && |Last(gs)| >= 2 && words != [] && Last(Last(gs)) == Last(words)
    requires AllButLast(gs) + [AllButLast(Last(gs))] == Groups(AllButLast(words), width, maxW)
    ensures gs == Groups(words, width, maxW)
  {
    var front, L, w := AllButLast(gs), Last(gs), Last(words);
    var L' := AllButLast(L);
    var gs' := front + [L'];
    assert L == L' + [w];
    assert gs == front + [L];
    assert L[..|L|] == L;
    assert FitsAsItGrows(gs[|gs| - 1], width, maxW);
    JoinSnoc(L', w, " ");
    assert AllButLast(gs') == front && Last(gs') == L';
  }

  /** Any greedy breaking of `words` is the one `Groups` computes. */
  lemma {:induction false} GreedyIsUnique(words: seq<string>, gs: seq<seq<string>>, width: Width, maxW: real)
    requires GreedyBreaking(words, gs, width, maxW)
    ensures gs == Groups(words, width, maxW)
    decreases |words|
  {
    if gs == [] {
      assert words == [];
    } else if |Last(gs)| == 1 {
      GreedyDropGroup(words, gs, width, maxW);
      GreedyIsUnique(AllButLast(words), AllButLast(gs), width, maxW);
      GrowNewGroupMatches(words, gs, width, maxW);
    } else {
      GreedyShrinkGroup(words, gs, width, maxW);
      GreedyIsUnique(AllButLast(words), AllButLast(gs) + [AllButLast(Last(gs))], width, maxW);
      GrowExtendMatches(words, gs, width, maxW);
    }
  }

  // ---------------------------------------------------------------------
  // The loop as written computes the groups, each joined by spaces.
  // ---------------------------------------------------------------------

  predicate NoEmptyWord(words: seq<string>) {
    forall i :: 0 <= i < |words| ==> words[i] != ""
  }

  /** The loop state that stands for a list of groups: all but the last are
      finished lines, the last is the line being filled. */
  function Abstract(gs: seq<seq<string>>): WrapState {
    if gs == [] then Start else WrapState(JoinEach(AllButLast(gs)), Join(Last(gs), " "))
  }

  lemma {:induction false} InFlatten(gs: seq<seq<string>>, i: nat, j: nat)
    requires i < |gs| && j < |gs[i]|
    ensures gs[i][j] in Flatten(gs)
    decreases |gs|
  {
    var front := AllButLast(gs);
    assert Flatten(gs) == Flatten(front) + Last(gs);
    if i < |front| {
      assert front[i] == gs[i];
      InFlatten(front, i, j);
    }
  }

  lemma JoinEachSnoc(gs: seq<seq<string>>, g: seq<string>)
    ensures JoinEach(gs + [g]) == JoinEach(gs) + [Join(g, " ")]
  {
  }

  /** One loop pass on the strings mirrors `Grow` on the groups. */
  lemma StepMatchesGrow(gs: seq<seq<string>>, w: string, width: Width, maxW: real)
    requires gs != [] ==> Last(gs) != [] && Last(gs)[0] != ""
    ensures Step(Abstract(gs), w, width, maxW) == Abstract(Grow(gs, w, width, maxW))
  {
    if gs == [] {
      assert "" + "" + w == w;
    } else {
      var front, L := AllButLast(gs), Last(gs);
      JoinNonEmpty(L, " ");
      assert gs == front + [L];
      JoinEachSnoc(front, L);
      if width(Glue(Join(L, " "), w)) <= maxW {
        JoinSnoc(L, w, " ");
        assert AllButLast(front + [L + [w]]) == front;
      } else {
        assert AllButLast(gs + [[w]]) == gs;
      }
    }
  }

  lemma {:induction false} ScanIsAbstractGroups(words: seq<string>, width: Width, maxW: real)
    requires NoEmptyWord(words)
    ensures Scan(words, width, maxW) == Abstract(Groups(words, width, maxW))
    decreases |words|
  {
    if words != [] {
      var pre := AllButLast(words);
      assert NoEmptyWord(pre) by {
        assert forall i :: 0 <= i < |pre| ==> pre[i] == words[i];
      }
      ScanIsAbstractGroups(pre, width, maxW);
      var gs := Groups(pre, width, maxW);
      if gs != [] {
        GroupsAreGreedy(pre, width, maxW);
        InFlatten(gs, |gs| - 1, 0);
      }
      StepMatchesGrow(gs, Last(words), width, maxW);
    }
  }

  /** On words without empty strings, the loop emits exactly the groups, each
      joined by single spaces. */
  lemma WrapLinesAreGroups(words: seq<string>, width: Width, maxW: real)
    requires NoEmptyWord(words)
    ensures WrapLines(words, width, maxW) == JoinEach(Groups(words, width, maxW))
  {
    ScanIsAbstractGroups(words, width, maxW);
    var gs := Groups(words, width, maxW);
    if gs != [] {
      GroupsAreGreedy(words, width, maxW);
      InFlatten(gs, |gs| - 1, 0);
      JoinNonEmpty(Last(gs), " ");
      assert gs == AllButLast(gs) + [Last(gs)];
      JoinEachSnoc(AllButLast(gs), Last(gs));
    }
  }

  lemma {:induction false} JoinEachFlatten(gs: seq<seq<string>>)
    requires forall i :: 0 <= i < |gs| ==> gs[i] != []
    ensures Join(JoinEach(gs), " ") == Join(Flatten(gs), " ")
    decreases |gs|
  {
    if gs != [] {
      var front, L := AllButLast(gs), Last(gs);
      assert gs == front + [L];
      JoinEachSnoc(front, L);
      FlattenSnoc(front, L);
      if front == [] {
        assert Flatten(gs) == L;
      } else {
        JoinEachFlatten(front);
        JoinSnoc(JoinEach(front), Join(L, " "), " ");
        FlattenEmpty(front);
        JoinAppend(Flatten(front), L, " ");
      }
    }
  }

  /** Content preservation: the lines, joined by single spaces, are the words
      joined by single spaces; no word is lost, repeated, reordered or changed. */
  lemma WrapKeepsWords(words: seq<string>, width: Width, maxW: real)
    requires NoEmptyWord(words)
    ensures Join(WrapLines(words, width, maxW), " ") == Join(words, " ")
    ensures AllWords(words) ==> Words(Join(WrapLines(words, width, maxW), " ")) == words
  {
    WrapLinesAreGroups(words, width, maxW);
    GroupsAreGreedy(words, width, maxW);
    JoinEachFlatten(Groups(words, width, maxW));
    if AllWords(words) {
      WordsOfJoin(words);
    }
  }

  lemma StepKeepsLinesNonEmpty(st: WrapState, w: string, width: Width, maxW: real)
    requires forall i :: 0 <= i < |st.lines| ==> st.lines[i] != ""
    ensures forall i :: 0 <= i < |Step(st, w, width, maxW).lines| ==> Step(st, w, width, maxW).lines[i] != ""
  {
  }

  lemma StepBlank(st: WrapState, w: string, width: Width, maxW: real)
    ensures (Step(st, w, width, maxW).lines == [] && Step(st, w, width, maxW).current == "")
            <==> (st.lines == [] && st.current == "" && w == "")
  {
    if st.current == "" {
      assert "" + "" + w == w;
    }
  }

  lemma {:induction false} ScanLinesNonEmpty(words: seq<string>, width: Width, maxW: real)
    ensures forall i :: 0 <= i < |Scan(words, width, maxW).lines| ==> Scan(words, width, maxW).lines[i] != ""
    decreases |words|
  {
    if words != [] {
      ScanLinesNonEmpty(AllButLast(words), width, maxW);
      StepKeepsLinesNonEmpty(Scan(AllButLast(words), width, maxW), Last(words), width, maxW);
    }
  }

  lemma {:induction false} ScanBlank(words: seq<string>, width: Width, maxW: real)
    ensures (Scan(words, width, maxW).lines == [] && Scan(words, width, maxW).current == "")
            <==> forall i :: 0 <= i < |words| ==> words[i] == ""
    decreases |words|
  {
    if words != [] {
      var pre := AllButLast(words);
      ScanBlank(pre, width, maxW);
      StepBlank(Scan(pre, width, maxW), Last(words), width, maxW);
      assert forall i :: 0 <= i < |pre| ==> pre[i] == words[i];
      assert words == pre + [Last(words)];
    }
  }

  /** No line is empty, and there are no lines exactly when every word is
      empty (in particular when there are no words). */
  lemma WrapLinesNonEmpty(words: seq<string>, width: Width, maxW: real)
    ensures forall i :: 0 <= i < |WrapLines(words, width, maxW)| ==> WrapLines(words, width, maxW)[i] != ""
    ensures WrapLines(words, width, maxW) == [] <==> forall i :: 0 <= i < |words| ==> words[i] == ""
  {
    ScanLinesNonEmpty(words, width, maxW);
    ScanBlank(words, width, maxW);
  }

  lemma GroupSplitsBack(gs: seq<seq<string>>, i: nat)
    requires i < |gs| && AllWords(Flatten(gs))
    ensures Words(Join(gs[i], " ")) == gs[i]
  {
    forall j | 0 <= j < |gs[i]| ensures IsWord(gs[i][j]) {
      InFlatten(gs, i, j);
    }
    WordsOfJoin(gs[i]);
  }

  /** On `split()` output, each line splits back into its own group of words. */
  lemma LinesSplitBack(words: seq<string>, width: Width, maxW: real)
    requires AllWords(words)
    ensures var lines, gs := WrapLines(words, width, maxW), Groups(words, width, maxW);
      && |lines| == |gs|
      && forall i :: 0 <= i < |gs| ==> lines[i] == Join(gs[i], " ") && Words(lines[i]) == gs[i]
  {
    var lines, gs := WrapLines(words, width, maxW), Groups(words, width, maxW);
    WrapLinesAreGroups(words, width, maxW);
    GroupsAreGreedy(words, width, maxW);
    forall i | 0 <= i < |gs|
      ensures Words(lines[i]) == gs[i]
    {
      GroupSplitsBack(gs, i);
    }
  }

  /** A line of two or more words fits; only a line holding a single input word
      can be wider than `maxW`. */
  lemma WrapLinesFit(words: seq<string>, width: Width, maxW: real)
    requires AllWords(words)
    ensures var lines := WrapLines(words, width, maxW);
      forall i :: 0 <= i < |lines| && |Words(lines[i])| >= 2 ==> width(lines[i]) <= maxW
    ensures var lines := WrapLines(words, width, maxW);
      forall i :: 0 <= i < |lines| && width(lines[i]) > maxW ==> Words(lines[i]) == [lines[i]] && lines[i] in words
  {
    var lines, gs := WrapLines(words, width, maxW), Groups(words, width, maxW);
    LinesSplitBack(words, width, maxW);
    GroupsAreGreedy(words, width, maxW);
    forall i | 0 <= i < |lines|
      ensures |Words(lines[i])| >= 2 ==> width(lines[i]) <= maxW
      ensures width(lines[i]) > maxW ==> Words(lines[i]) == [lines[i]] && lines[i] in words
    {
      var g := gs[i];
      assert g[..|g|] == g;
      assert FitsAsItGrows(g, width, maxW);
      if |g| == 1 {
        InFlatten(gs, i, 0);
      }
    }
  }

  /** Adding the first word of `next` to `prev` would make `prev` too wide. */
  predicate ClosedBefore(prev: string, next: string, width: Width, maxW: real) {
    Words(next) != [] && width(Glue(prev, Words(next)[0])) > maxW
  }

  /** Greedy maximality: each line but the last was closed only because adding
      the first word of the next line would have made it too wide. */
  lemma WrapBreaksForced(words: seq<string>, width: Width, maxW: real)
    requires AllWords(words)
    ensures var lines := WrapLines(words, width, maxW);
      forall i :: 0 <= i < |lines| - 1 ==> ClosedBefore(lines[i], lines[i + 1], width, maxW)
  {
    LinesSplitBack(words, width, maxW);
    GroupsAreGreedy(words, width, maxW);
  }

  /** The width function never shrinks when text is glued on either side. */
  ghost predicate Widening(width: Width) {
    forall a, b :: width(Glue(a, b)) >= width(a) && width(Glue(a, b)) >= width(b)
  }

  /** With a width that grows with the text, a word too wide for `maxW` sits
      alone on its own line: it is a line by itself, and no line of two or more
      words holds a word wider than `maxW`, whichever occurrence it is. */
  lemma OversizedWordAlone(words: seq<string>, width: Width, maxW: real)
    requires AllWords(words)
    requires Widening(width)
    ensures forall k :: 0 <= k < |words| && width(words[k]) > maxW ==> words[k] in WrapLines(words, width, maxW)
    ensures var lines := WrapLines(words, width, maxW);
      forall i, j :: 0 <= i < |lines| && |Words(lines[i])| >= 2 && 0 <= j < |Words(lines[i])| ==>
        width(Words(lines[i])[j]) <= maxW
  {
    var lines, gs := WrapLines(words, width, maxW), Groups(words, width, maxW);
    LinesSplitBack(words, width, maxW);
    GroupsAreGreedy(words, width, maxW);
    forall i, j | 0 <= i < |lines| && |Words(lines[i])| >= 2 && 0 <= j < |Words(lines[i])|
      ensures width(Words(lines[i])[j]) <= maxW
    {
      GroupedWordFits(gs[i], j, width, maxW);
    }
    forall k | 0 <= k < |words| && width(words[k]) > maxW
      ensures words[k] in lines
    {
      WideWordOnItsLine(words, k, width, maxW);
    }
  }

  lemma WideWordOnItsLine(words: seq<string>, k: nat, width: Width, maxW: real)
    requires AllWords(words)
    requires Widening(width)
    requires k < |words| && width(words[k]) > maxW
    ensures words[k] in WrapLines(words, width, maxW)
  {
    var gs := Groups(words, width, maxW);
    LinesSplitBack(words, width, maxW);
    GroupsAreGreedy(words, width, maxW);
    var i, j := Locate(gs, k);
    if |gs[i]| >= 2 {
      GroupedWordFits(gs[i], j, width, maxW);
    }
    assert gs[i] == [words[k]];
    assert WrapLines(words, width, maxW)[i] == words[k];
  }

  /** With a widening width, every word of a group of two or more that fitted
      as it grew fits on its own. */
  lemma GroupedWordFits(g: seq<string>, j: nat, width: Width, maxW: real)
    requires Widening(width)
    requires FitsAsItGrows(g, width, maxW)
    requires j < |g| && |g| >= 2
    ensures width(g[j]) <= maxW
  {
    if j == 0 {
      assert g[..2] == [g[0]] + [g[1]];
      JoinSnoc([g[0]], g[1], " ");
      assert width(Join(g[..2], " ")) <= maxW;
      assert width(Glue(g[0], g[1])) >= width(g[0]);
    } else {
      assert g[..j + 1] == g[..j] + [g[j]];
      JoinSnoc(g[..j], g[j], " ");
      assert width(Join(g[..j + 1], " ")) <= maxW;
      assert width(Glue(Join(g[..j], " "), g[j])) >= width(g[j]);
    }
  }

  /** Finds the group and position of the `k`-th word. */
  lemma {:induction false} Locate(gs: seq<seq<string>>, k: nat) returns (i: nat, j: nat)
    requires k < |Flatten(gs)|
    ensures i < |gs| && j < |gs[i]| && gs[i][j] == Flatten(gs)[k]
    decreases |gs|
  {
    var front := AllButLast(gs);
    var n := |Flatten(front)|;
    assert Flatten(gs) == Flatten(front) + Last(gs);
    if k < n {
      i, j := Locate(front, k);
      assert front[i] == gs[i];
    } else {
      i, j := |gs| - 1, k - n;
    }
  }
}
