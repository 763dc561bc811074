# Carousel text layout, modelled in Dafny

The carousel builders `examples/metronome/build_carousel.py` and
`examples/chair_balancing_act/build_carousel.py` draw LinkedIn carousel pages
with reportlab. Both define the same drawing helpers with identical code;
only docstrings, comments and line numbers differ between the two copies.
This project models those helpers:

- `txt_wrap`: split the text into words, fill lines greedily, draw each line
  one `line_h` below the last, and return the y below the last line
  (modules `Split`, `Wrap`, `TextWrap`);
- `txt`: one line, left-, centre- or right-aligned in a box of width `max_w`;
- `card`, `card_flat`, `bar`, `bg`, `accent_strip`, `circle_num`: boxes given by
  their top-left corner measured from the page top, turned into reportlab's
  bottom-origin rectangles with `PH - y - h`;
- `footer`: the `page/total` label, right-aligned on the right margin
  (module `Page`, with `Decimal` for `str(n)`).

The text measurement `c.stringWidth(text, font, size)` is a parameter,
`metrics: (string, Font, real) -> real`. Nothing is assumed about it, so every
line-breaking result holds for any font. There are two exceptions,
`Wrap.OversizedWordAlone` and `Wrap.GroupedWordFits`. Both need the width to
grow when text is glued on. A drawing call is modelled as the record it would emit: `DrawString` for
`drawString`, `Shape` for `rect`, `roundRect` and `circle`. Coordinates are
Dafny `real`s, and a millimetre is 72/25.4 points, as reportlab defines it.

The word loop is modelled as written: `Wrap.Scan`/`Wrap.WrapLines` keep
`lines` and `current` as strings, test `current + " " + w`, and use the same
`if current:` guards. `Wrap.Groups` applies the same rule to lists of words.
`Wrap.GreedyBreaking` describes a greedy breaking without computing one. It
says the groups hold the words in order. It says every line still fitted each
time a word joined it. And it says every break was forced, because the next
word would not have fitted. `Groups` is proved to be the one and only
breaking with these properties. The loop as written is proved to emit exactly
`Groups`, each group joined by single spaces, for every word list that
`split()` can return.

`txt` and `txt_wrap` treat a missing `max_w` differently. `txt` tests Python
truthiness, so `max_w=0` also falls back to left alignment. `txt_wrap` tests
`is None`, so `max_w=0` is used as a width of zero, which puts every word on
its own line. The model keeps both behaviours. In the chair file, `PW` and
`PH` are first set from pixel sizes and then immediately reassigned to
190 mm and 237.5 mm. The model uses the values that stay in effect.

## Model

| member | source | states |
|---|---|---|
| `Split.Words` | examples/metronome/build_carousel.py:88 | `text.split()` yields only non-empty, whitespace-free words, and yields none exactly when the text is empty or all whitespace |
| `Split.WordsKeepText` | examples/metronome/build_carousel.py:88 | splitting keeps every non-whitespace character of the text, in order, and adds none |
| `Split.WordsOfJoin` | examples/metronome/build_carousel.py:88 | splitting words that were joined by single spaces gives back exactly those words |
| `Wrap.WrapLines` | examples/metronome/build_carousel.py:89-100 | the `for w in words` loop with its `if current:` guards and final flush never emits an empty line, and emits no line exactly when every word is empty |
| `Wrap.GroupsAreGreedy` | examples/metronome/build_carousel.py:91-98 | the greedy grouping covers the words in order with non-empty lines, every line fitted each time it grew, and every break was forced; this holds for any width function |
| `Wrap.GreedyIsUnique` | examples/metronome/build_carousel.py:91-100 | any breaking that covers the words, fits as it grows and breaks only when forced equals the one the loop computes |
| `Wrap.WrapLinesAreGroups` | examples/metronome/build_carousel.py:88-100 | on words without empty strings, the loop as written (string `current`, `if current:` guards, final flush) emits each greedy group joined by single spaces |
| `Wrap.WrapKeepsWords` | examples/metronome/build_carousel.py:88-100 | the output lines joined by single spaces equal the input words joined by single spaces, and splitting them again gives the input words: no word is lost, repeated, reordered or altered |
| `Wrap.WrapLinesNonEmpty` | examples/metronome/build_carousel.py:88-100 | no output line is empty, and there are no lines exactly when every word is empty, for any word list |
| `Wrap.WrapLinesFit` | examples/metronome/build_carousel.py:91-98 | a line of two or more words has width at most `max_w`; a line wider than `max_w` is a single input word |
| `Wrap.WrapBreaksForced` | examples/metronome/build_carousel.py:92-96 | greedy maximality: for each line but the last, that line plus `" "` plus the next line's first word is wider than `max_w` |
| `Wrap.OversizedWordAlone` | examples/chair_balancing_act/build_carousel.py:89-96 | when gluing text on never narrows it, every word wider than `max_w` appears as a line on its own, and no line of two or more words holds a word wider than `max_w`, so every occurrence of such a word sits alone |
| `Wrap.GroupedWordFits` | examples/chair_balancing_act/build_carousel.py:89-96 | when the width widens with glued text, each word of a line of two or more words fits within `max_w` by itself |
| `TextWrap.BreakLines` | examples/chair_balancing_act/build_carousel.py:86-98 | the `for w in words` loop with its final flush computes exactly `Wrap.WrapLines` |
| `TextWrap.DrawLines` | examples/chair_balancing_act/build_carousel.py:99-102 | line i is drawn at x with its baseline i line heights plus `0.35 * size` below y, and the returned y is y plus (number of lines × `line_h`) |
| `TextWrap.WrapTextFacts` | examples/chair_balancing_act/build_carousel.py:86-98 | for any text, the wrapped lines rejoin to the split words, and whitespace-only text gives no lines |
| `TextWrap.TxtWrap` | examples/metronome/build_carousel.py:79-104 | draws the greedy lines of `text.split()`, with `max_w` defaulting to `PW - 2*M` and `line_h` to `size * 1.4`; it returns y plus (number of lines × `line_h`) and draws nothing, leaving y unchanged, exactly when the text is empty or all whitespace |
| `Page.Txt` | examples/metronome/build_carousel.py:63-76 | centred text has equal gaps to both edges of `[x, x + max_w]`; right-aligned text ends at `x + max_w`; with `max_w` missing or zero, or any other alignment, the text starts at x; the baseline is `0.35 * size` below y |
| `Page.Card` | examples/metronome/build_carousel.py:52-55 | the rounded rectangle (radius 3 mm) has its top edge y below the page top and its bottom edge y + h below it |
| `Page.CardFlat` | examples/metronome/build_carousel.py:58-60 | the flat rectangle has its top edge y below the page top and its bottom edge y + h below it |
| `Page.Bar` | examples/metronome/build_carousel.py:107-109 | a bar is placed exactly like a flat card: top edge y below the page top, bottom edge y + h below it |
| `Page.Background` | examples/metronome/build_carousel.py:42-44 | the background is a flat card with its corner at the page's top-left, covering the whole page |
| `Page.AccentStrip` | examples/metronome/build_carousel.py:47-49 | the accent strip is a full-width 2 mm bar whose top edge is the page's top edge |
| `Page.CircleNum` | examples/chair_balancing_act/build_carousel.py:110-117 | the 4 mm disc's bounding square has its top-left corner at (x, y) from the page top; the number is centred horizontally on the disc, with its baseline 4 points below the centre |
| `Page.Footer` | examples/chair_balancing_act/build_carousel.py:121-126 | the label `page/total` in 8 pt Helvetica ends exactly at the right margin `PW - M`, 4 mm above the page bottom |
| `Page.PageLabel` | examples/chair_balancing_act/build_carousel.py:124 | the label `f"{page}/{total}"` holds exactly one `/`, right after the page number |
| `Page.PageLabelRoundTrip` | examples/chair_balancing_act/build_carousel.py:124 | the footer label `f"{page}/{total}"` reads back as the page number and page count it was built from |
| `Decimal.IntToDecimalRoundTrip` | examples/metronome/build_carousel.py:125 | `str(n)` of any integer reads back as n and is made only of digits and a minus sign |
| `Decimal.IntToDecimal` | examples/metronome/build_carousel.py:125 | `str(n)` is non-empty, starts with `-` exactly when n is negative, and is digits everywhere else |
| `Decimal.NatToDecimal` | examples/metronome/build_carousel.py:125 | the decimal form of a non-negative integer is a non-empty digit string with no leading zero |

## Left out

- Canvas state and colours: `setFillColor`, `setFont`, the `fill`/`stroke` flags and `HexColor` are side effects on reportlab's canvas, and the model does not record them. The font and size of each `drawString` are kept.
- `c.stringWidth` font metrics: a parameter of the model, with no Helvetica glyph widths.
- Floating point: coordinates are exact reals. IEEE rounding of `size * 1.4`, `size * 0.35` and the millimetre conversion is not modelled.
- The python-pptx half of the metronome builder (`pptx_bg`, `pptx_rect`, `pptx_rounded_rect`, `pptx_text`, `pptx_add_para`, `pptx_footer`): these only place shapes through library calls, and python-pptx does its own wrapping.
- Default arguments: every parameter of `Page.Txt` and `TextWrap.TxtWrap` must be given. The constant defaults are not modelled: `size=11` in `txt_wrap`, and `size=14`, `bold=False` and `align="left"` in `txt`. The `None` defaults of `line_h` and `max_w` are modelled. Every call in the builders passes `size`.
- The page bodies of both builders: hard-coded slide text, colours, images and per-item offsets.
- Wrap.OversizedWordAlone: proved only for width functions that never shrink when text is glued on. For an arbitrary width function the property does not hold, because a line plus a wide word can measure narrower than the word alone.
- Split.Words: covers Python's whitespace set for `str.split()`. It does not model the `sep` and `maxsplit` arguments, which the builders never pass.
