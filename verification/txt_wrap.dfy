/**
 `txt_wrap`: split the text into words, break them into lines greedily, draw
 each line one `line_h` below the previous one and return the y below the last.
 */
module TextWrap {
  import opened Optional
  import opened Split
  import opened Wrap
  import opened Page

  /** `c.stringWidth(_, font, size)` as a width function on strings. */
  function Measure(metrics: Metrics, font: Font, size: real): Width {
    s => metrics(s, font, size)
  }

  /** The texts of a list of draw calls, in order. */
  function Texts(draws: seq<DrawString>): (ts: seq<string>)
    ensures |ts| == |draws|
  {
    seq(|draws|, i requires 0 <= i < |draws| => draws[i].text)
  }

  /** The `for w in words` loop and the final flush of `current`. */
  method BreakLines(words: seq<string>, width: Width, maxW: real) returns (lines: seq<string>)
    ensures lines == WrapLines(words, width, maxW)
  {
    var st := Start;
    var i := 0;
    while i < |words|
      invariant 0 <= i <= |words|
      invariant st == Scan(words[..i], width, maxW)
    {
      assert AllButLast(words[..i + 1]) == words[..i];
      st := Step(st, words[i], width, maxW);
      i := i + 1;
    }
    assert words[..|words|] == words;
    lines := Flush(st);
  }

  /** The top of the `i`-th line: `i` line heights below `y`. */
  function LineTop(y: real, i: nat, lineH: real): real {
    y + i as real * lineH
  }

  /** The drawing loop: each line at `x`, one `lineH` lower than the previous. */
  method DrawLines(x: real, y: real, lines: seq<string>, font: Font, size: real, lineH: real)
    returns (draws: seq<DrawString>, yEnd: real)
    ensures Texts(draws) == lines
    ensures forall i :: 0 <= i < |draws| ==>
      draws[i] == DrawString(x, FromTop(LineTop(y, i, lineH) + 0.35 * size), lines[i], font, size)
    ensures yEnd == LineTop(y, |lines|, lineH)
  {
    draws := [];
    yEnd := y;
    var k := 0;
    while k < |lines|
      invariant 0 <= k <= |lines|
      invariant |draws| == k
      invariant forall j :: 0 <= j < k ==>
        draws[j] == DrawString(x, FromTop(LineTop(y, j, lineH) + 0.35 * size), lines[j], font, size)
      invariant yEnd == LineTop(y, k, lineH)
    {
      draws := draws + [DrawString(x, Baseline(yEnd, size), lines[k], font, size)];
      yEnd := yEnd + lineH;
      k := k + 1;
    }
  }

  /** What the breaking of `text.split()` keeps, for any width function. */
  lemma WrapTextFacts(text: string, width: Width, maxW: real)
    ensures Join(WrapLines(Words(text), width, maxW), " ") == Join(Words(text), " ")
    ensures WrapLines(Words(text), width, maxW) == [] <==> AllSpace(text)
  {
    var words := Words(text);
    assert NoEmptyWord(words);
    WrapKeepsWords(words, width, maxW);
    WrapLinesNonEmpty(words, width, maxW);
  }

  method TxtWrap(x: real, y: real, text: string, size: real, bold: bool,
                 lineH: Option<real>, maxW: Option<real>, metrics: Metrics)
    returns (draws: seq<DrawString>, yEnd: real)
    // the lines are the greedy breaking of `text.split()` under the default or given width
    ensures Texts(draws) == WrapLines(Words(text), Measure(metrics, FontFor(bold), size),
                                      if maxW.None? then PW - 2.0 * M else maxW.value)
    // one line every `line_h`, starting at `y`; `line_h` defaults to `size * 1.4`
    ensures var lh := if lineH.None? then size * 1.4 else lineH.value;
      && (forall i :: 0 <= i < |draws| ==> draws[i].y == FromTop(LineTop(y, i, lh) + 0.35 * size))
      && yEnd == LineTop(y, |draws|, lh)
    ensures forall i :: 0 <= i < |draws| ==> draws[i].x == x && draws[i].font == FontFor(bold) && draws[i].size == size
    // all words drawn, in order, none altered
    ensures Join(Texts(draws), " ") == Join(Words(text), " ")
    // nothing drawn, and y unchanged, exactly for empty or all-whitespace text
    ensures draws == [] <==> AllSpace(text)
    ensures AllSpace(text) ==> yEnd == y
  {
    var lh := if lineH.None? then size * 1.4 else lineH.value;
    var font := FontFor(bold);
    var width := Measure(metrics, font, size);
    var mw := if maxW.None? then PW - 2.0 * M else maxW.value;
    var words := Words(text);
    var lines := BreakLines(words, width, mw);
    draws, yEnd := DrawLines(x, y, lines, font, size, lh);
    assert |draws| == |lines|;
    WrapTextFacts(text, width, mw);
    assert lines == [] <==> AllSpace(text);
  }
}
