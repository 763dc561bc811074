/**
 The page and the small drawing helpers of the carousel builders.

 The helpers take positions measured down from the TOP of the page, while
 reportlab's canvas measures up from the BOTTOM. Every helper converts with
 `FromTop`. Drawing calls are modelled as the records they would emit:
 `DrawString` for `drawString`, `Shape` for `rect`, `roundRect` and `circle`.
 Colours and the fill/stroke state are not modelled.
 */
module Page {
  import opened Optional
  import opened Decimal

  /** reportlab's millimetre, in points (72 points to the inch). */
  const MM: real := 72.0 / 25.4

  /** Page width and height: 190 mm by 237.5 mm, a 4:5 portrait page. */
  const PW: real := 190.0 * MM
  const PH: real := 237.5 * MM

  /** The standard margin. */
  const M: real := 10.0 * MM

  datatype Font = Helvetica | HelveticaBold

  /** `"Helvetica-Bold" if bold else "Helvetica"`. */
  function FontFor(bold: bool): Font {
    if bold then HelveticaBold else Helvetica
  }

  /** `c.stringWidth(text, font, size)`: the font metrics are not modelled. */
  type Metrics = (string, Font, real) -> real

  /** One `drawString` call: `text` with its left end at `x` and its baseline at `y`,
      both in reportlab's bottom-origin coordinates. */
  datatype DrawString = DrawString(x: real, y: real, text: string, font: Font, size: real)

  /** One filled `rect`, `roundRect` or `circle`, in bottom-origin coordinates. */
  datatype Shape =
    | Rect(x: real, y: real, w: real, h: real)
    | RoundRect(x: real, y: real, w: real, h: real, radius: real)
    | Circle(cx: real, cy: real, r: real)

  /** The canvas y of a point `depth` below the top of the page. */
  function FromTop(depth: real): real {
    PH - depth
  }

  /** A box whose top-left corner is `(x, y)` measured from the page top. */
  predicate SpansFromTop(s: Shape, x: real, y: real, w: real, h: real)
    requires !s.Circle?
  {
    && s.x == x && s.w == w && s.h == h
    && s.y + s.h == FromTop(y)
    && s.y == FromTop(y + h)
  }

  function FlatBox(x: real, y: real, w: real, h: real): (r: Shape)
    ensures r.Rect? && SpansFromTop(r, x, y, w, h)
  {
    Rect(x, PH - y - h, w, h)
  }

  /** `card`: a rounded card with corner radius 3 mm, top edge `y` below the page top. */
  function Card(x: real, y: real, w: real, h: real): (r: Shape)
    ensures r.RoundRect? && r.radius == 3.0 * MM
    ensures SpansFromTop(r, x, y, w, h)
  {
    RoundRect(x, PH - y - h, w, h, 3.0 * MM)
  }

  /** `card_flat`: the same box with square corners. */
  function CardFlat(x: real, y: real, w: real, h: real): (r: Shape)
    ensures r.Rect? && SpansFromTop(r, x, y, w, h)
  {
    FlatBox(x, y, w, h)
  }

  /** `bar`: a filled box placed like `card_flat`. */
  function Bar(x: real, y: real, w: real, h: real): (r: Shape)
    ensures r.Rect? && SpansFromTop(r, x, y, w, h)
    ensures r == CardFlat(x, y, w, h)
  {
    FlatBox(x, y, w, h)
  }

  /** `bg`: the background covers the whole page. */
  function Background(): (r: Shape)
    ensures r == CardFlat(0.0, 0.0, PW, PH)
    ensures r.x == 0.0 && r.y == 0.0
  {
    Rect(0.0, 0.0, PW, PH)
  }

  /** `accent_strip`: a full-width band 2 mm tall along the top edge. */
  function AccentStrip(): (r: Shape)
    ensures r == Bar(0.0, 0.0, PW, 2.0 * MM)
    ensures r.y + r.h == PH
  {
    Rect(0.0, PH - 2.0 * MM, PW, 2.0 * MM)
  }

  /** The baseline of text whose nominal top is `y` below the page top. */
  function Baseline(y: real, size: real): real {
    PH - y - size * 0.35
  }

  /** Python truthiness of `max_w`: `None` and `0` are false. */
  predicate Truthy(maxW: Option<real>) {
    maxW.Some? && maxW.value != 0.0
  }

  /** `txt`: one line of text, left-aligned at `x`, or centred or right-aligned
      in the box `[x, x + max_w]` when `max_w` is given and non-zero. Any other
      `align` value falls back to left alignment. */
  function Txt(x: real, y: real, text: string, size: real, bold: bool, align: string,
               maxW: Option<real>, metrics: Metrics): (d: DrawString)
    ensures d.text == text && d.font == FontFor(bold) && d.size == size
    ensures d.y == FromTop(y + 0.35 * size)
    ensures var tw := metrics(text, FontFor(bold), size);
      align == "center" && Truthy(maxW) ==> d.x - x == (x + maxW.value) - (d.x + tw)
    ensures var tw := metrics(text, FontFor(bold), size);
      align == "right" && Truthy(maxW) ==> d.x + tw == x + maxW.value
    ensures !(Truthy(maxW) && (align == "center" || align == "right")) ==> d.x == x
  {
    var font := FontFor(bold);
    var ry := Baseline(y, size);
    if align == "center" && Truthy(maxW) then
      var tw := metrics(text, font, size);
      DrawString(x + (maxW.value - tw) / 2.0, ry, text, font, size)
    else if align == "right" && Truthy(maxW) then
      var tw := metrics(text, font, size);
      DrawString(x + maxW.value - tw, ry, text, font, size)
    else
      DrawString(x, ry, text, font, size)
  }

  /** The footer label `f"{page}/{total}"`: the only `/` in it follows the page number. */
  function PageLabel(page: int, total: int): (s: string)
    ensures var k := |IntToDecimal(page)|;
      && k < |s| && s[k] == '/'
      && forall i :: 0 <= i < |s| && i != k ==> s[i] != '/'
  {
    var a, b := IntToDecimal(page), IntToDecimal(total);
    var s := a + "/" + b;
    assert forall i :: 0 <= i < |a| ==> s[i] == a[i];
    assert forall i :: |a| < i < |s| ==> s[i] == b[i - |a| - 1];
    s
  }

  /** Index of the first `/` in `s`, if any. */
  function FindSlash(s: string): (r: Option<nat>)
    ensures r.Some? ==> r.value < |s| && s[r.value] == '/'
    ensures r.Some? ==> forall i :: 0 <= i < r.value ==> s[i] != '/'
    ensures r.None? ==> forall i :: 0 <= i < |s| ==> s[i] != '/'
  {
    if s == [] then None
    else if s[0] == '/' then Some(0)
    else match FindSlash(s[1..])
      case None => None
      case Some(k) => Some(k + 1)
  }

  /** Reads a footer label back into its page number and page count. */
  function ParsePageLabel(s: string): Option<(int, int)> {
    match FindSlash(s)
    case None => None
    case Some(k) =>
      match (ParseInt(s[..k]), ParseInt(s[k + 1..]))
      case (Some(p), Some(t)) => Some((p, t))
      case _ => None
  }

  /** The label determines the page number and page count it was built from. */
  lemma PageLabelRoundTrip(page: int, total: int)
    ensures ParsePageLabel(PageLabel(page, total)) == Some((page, total))
  {
    var a, b := IntToDecimal(page), IntToDecimal(total);
    IntToDecimalRoundTrip(page);
    IntToDecimalRoundTrip(total);
    var s := a + "/" + b;
    assert s[|a|] == '/';
    assert forall i :: 0 <= i < |a| ==> s[i] == a[i];
    assert FindSlash(s) == Some(|a|);
    assert s[..|a|] == a;
    assert s[|a| + 1..] == b;
  }

  /** `footer`: the label `page/total` in 8 pt Helvetica, its right end on the
      right margin and its baseline 4 mm above the page bottom. */
  function Footer(page: int, total: int, metrics: Metrics): (d: DrawString)
    ensures d.text == PageLabel(page, total) && d.font == Helvetica && d.size == 8.0
    ensures d.x + metrics(d.text, Helvetica, 8.0) == PW - M
    ensures d.y == 4.0 * MM
  {
    var caption := PageLabel(page, total);
    var tw := metrics(caption, Helvetica, 8.0);
    DrawString(PW - M - tw, 4.0 * MM, caption, Helvetica, 8.0)
  }

  /** A numbered disc: the circle and its label. */
  datatype Badge = Badge(disc: Shape, caption: DrawString)

  /** `circle_num`: a disc of radius 4 mm whose bounding square has its top-left
      corner at `(x, y)` below the page top, with `str(num)` in 12 pt bold
      centred horizontally on it, its baseline 4 points below the centre. */
  function CircleNum(x: real, y: real, num: int, metrics: Metrics): (b: Badge)
    ensures b.disc.Circle? && b.disc.r == 4.0 * MM
    ensures b.disc.cx - b.disc.r == x && b.disc.cy + b.disc.r == FromTop(y)
    ensures b.caption.text == IntToDecimal(num) && b.caption.font == HelveticaBold && b.caption.size == 12.0
    ensures b.caption.x + metrics(b.caption.text, HelveticaBold, 12.0) / 2.0 == b.disc.cx
    ensures b.caption.y == b.disc.cy - 4.0
  {
    var r := 4.0 * MM;
    var caption := IntToDecimal(num);
    var tw := metrics(caption, HelveticaBold, 12.0);
    Badge(Circle(x + r, PH - y - r, r), DrawString(x + r - tw / 2.0, PH - y - r - 4.0, caption, HelveticaBold, 12.0))
  }
}
