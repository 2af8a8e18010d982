/** Text layout: draw_text (glyphs drawn pixel by pixel), draw_text_fast
    (glyphs streamed with a background) and scroll_text (streamed glyphs,
    with the display scrolled a text row at a time once the text runs off
    the bottom).  The font is get_ch as a function from characters to
    glyphs. */
module Text {
  import opened Results
  import opened Bus
  import opened Display
  import opened Glyphs
  import opened Color
  import opened Bits
  import opened Panel

  /** font.get_ch */
  type Font = char -> Glyph

  predicate FontOk(font: Font)
  {
    forall ch :: WellFormed(font(ch))
  }

  /** Where one glyph is drawn. */
  datatype Placement = Placement(g: Glyph, x: int, y: int)

  datatype Cursor = Cursor(x: int, y: int)

  /** The two bound tests of a layout loop (does the glyph run past the
      right edge, does the row run past the bottom) compare with `>`, or
      with `>=` when inclusive.  A fast loop draws a space once and then
      again if a second one fits; the slow loop skips a space's width and
      then draws it. */
  datatype Rule = Rule(fast: bool, inclusive: bool)

  /** draw_text */
  function SlowRule(): Rule { Rule(false, false) }

  /** draw_text_fast with the `>` tests of draw_text. */
  function FastRule(): Rule { Rule(true, false) }

  /** draw_text_fast as written: `>=` in both tests. */
  function FastRuleAsWritten(): Rule { Rule(true, true) }

  predicate Beyond(a: int, limit: int, inclusive: bool)
  {
    if inclusive then a >= limit else a > limit
  }

  /** A tab is drawn as a space. */
  function Drawn(ch: char): char
  {
    if ch == '\t' then ' ' else ch
  }

  /** One pass of the loop: the cursor after it, the glyphs it draws, and
      whether it hit the bottom (break). */
  datatype Stepped = Stepped(cur: Cursor, placed: seq<Placement>, stop: bool)

  function TextStep(rule: Rule, font: Font, w: int, h: int, xs: int, cur: Cursor, ch: char): (r: Stepped)
    ensures forall p :: p in r.placed ==> !Beyond(p.y + p.g.height, h, rule.inclusive)
    ensures forall p :: p in r.placed ==> p.g == font(Drawn(ch))
  {
    if ch == '\n' then Stepped(Cursor(w, cur.y), [], false)
    else
      var c := Drawn(ch);
      var g := font(c);
      var x0 := if !rule.fast && c == ' ' then cur.x + g.width else cur.x;
      var wrap := Beyond(x0 + g.width, w, rule.inclusive);
      var x := if wrap then xs else x0;
      var y := if wrap then cur.y + g.height else cur.y;
      if Beyond(y + g.height, h, rule.inclusive) then Stepped(Cursor(x, y), [], true)
      else if rule.fast && c == ' ' && x + g.width + g.width <= w then
        Stepped(Cursor(x + g.width + g.width, y), [Placement(g, x, y), Placement(g, x + g.width, y)], false)
      else Stepped(Cursor(x + g.width, y), [Placement(g, x, y)], false)
  }

  /** The glyphs a layout loop draws for the rest of the text. */
  function Layout(rule: Rule, font: Font, w: int, h: int, xs: int, cur: Cursor, text: seq<char>): (ps: seq<Placement>)
    ensures |ps| <= 2 * |text|
    ensures forall p :: p in ps ==> !Beyond(p.y + p.g.height, h, rule.inclusive)
    decreases |text|
  {
    if |text| == 0 then []
    else
      var s := TextStep(rule, font, w, h, xs, cur, text[0]);
      if s.stop then [] else s.placed + Layout(rule, font, w, h, xs, s.cur, text[1..])
  }

  /** Every glyph a layout draws ends at or above the bottom edge (strictly
      above it under the inclusive tests), and comes from the font. */
  lemma {:induction false} LayoutFits(rule: Rule, font: Font, w: int, h: int, xs: int, cur: Cursor, text: seq<char>)
    decreases |text|
    ensures forall p :: p in Layout(rule, font, w, h, xs, cur, text) ==>
      !Beyond(p.y + p.g.height, h, rule.inclusive) && exists ch :: p.g == font(ch)
  {
    if |text| > 0 {
      var s := TextStep(rule, font, w, h, xs, cur, text[0]);
      if !s.stop {
        LayoutFits(rule, font, w, h, xs, s.cur, text[1..]);
        forall p | p in s.placed
          ensures exists ch :: p.g == font(ch)
        {
          assert p.g == font(Drawn(text[0]));
        }
      }
    }
  }

  /** A newline moves the cursor to the right edge, so the next glyph (of
      positive width) wraps: it is drawn at the start x, one glyph height
      lower, or the text stops there if that row does not fit. */
  lemma NewlineForcesWrap(rule: Rule, font: Font, w: int, h: int, xs: int, cur: Cursor, c: char, rest: seq<char>)
    requires c != '\n' && font(Drawn(c)).width > 0
    ensures var g := font(Drawn(c));
      var ps := Layout(rule, font, w, h, xs, cur, ['\n', c] + rest);
      if Beyond(cur.y + g.height + g.height, h, rule.inclusive) then ps == []
      else |ps| > 0 && ps[0] == Placement(g, xs, cur.y + g.height)
  {
    var text := ['\n', c] + rest;
    assert text[0] == '\n' && text[1..] == [c] + rest;
    assert ([c] + rest)[0] == c && ([c] + rest)[1..] == rest;
  }

  /** The glyphs of a layout, each drawn with _draw_glyph. */
  function SlowTrace(d: Display, ps: seq<Placement>, color: int): (r: Trace)
    requires forall p :: p in ps ==> WellFormed(p.g)
    ensures |ps| == 1 ==> r == DrawGlyph(d, ps[0].g, ps[0].x, ps[0].y, color)
  {
    if |ps| == 0 then []
    else DrawGlyph(d, ps[0].g, ps[0].x, ps[0].y, color) + SlowTrace(d, ps[1..], color)
  }

  /** The slow trace of two layouts one after the other is the first's
      trace, then the second's: each glyph is drawn in layout order. */
  lemma {:induction false} SlowTraceAppend(d: Display, ps: seq<Placement>, qs: seq<Placement>, color: int)
    requires forall p :: p in ps + qs ==> WellFormed(p.g)
    ensures SlowTrace(d, ps + qs, color) == SlowTrace(d, ps, color) + SlowTrace(d, qs, color)
    decreases |ps|
  {
    if |ps| > 0 {
      assert (ps + qs)[0] == ps[0] && (ps + qs)[1..] == ps[1..] + qs;
      SlowTraceAppend(d, ps[1..], qs, color);
    } else {
      assert ps + qs == qs;
    }
  }

  /** The glyphs of a layout, each drawn with _draw_glyph_fast. */
  function FastTrace(d: Display, ps: seq<Placement>, color: int, bg: int): (r: Trace)
    requires forall p :: p in ps ==> WellFormed(p.g)
    ensures |ps| == 1 ==> r == GlyphFastTrace(d, ps[0].g, ps[0].x, ps[0].y, color, bg)
  {
    if |ps| == 0 then []
    else GlyphFastTrace(d, ps[0].g, ps[0].x, ps[0].y, color, bg) + FastTrace(d, ps[1..], color, bg)
  }

  /** The same for the fast trace. */
  lemma {:induction false} FastTraceAppend(d: Display, ps: seq<Placement>, qs: seq<Placement>, color: int, bg: int)
    requires forall p :: p in ps + qs ==> WellFormed(p.g)
    ensures FastTrace(d, ps + qs, color, bg) == FastTrace(d, ps, color, bg) + FastTrace(d, qs, color, bg)
    decreases |ps|
  {
    if |ps| > 0 {
      assert (ps + qs)[0] == ps[0] && (ps + qs)[1..] == ps[1..] + qs;
      FastTraceAppend(d, ps[1..], qs, color, bg);
    } else {
      assert ps + qs == qs;
    }
  }

  lemma LayoutWellFormed(rule: Rule, font: Font, w: int, h: int, xs: int, cur: Cursor, text: seq<char>)
    requires FontOk(font)
    ensures forall p :: p in Layout(rule, font, w, h, xs, cur, text) ==> WellFormed(p.g)
  {
    LayoutFits(rule, font, w, h, xs, cur, text);
  }

  /** draw_text: None (the method's False) when no font is set, otherwise
      the glyphs of the slow layout from (x, y), pixel by pixel. */
  function DrawText(d: Display, font: Option<Font>, text: seq<char>, x: int, y: int, color: int): (r: Option<Trace>)
    requires font.Some? ==> FontOk(font.value)
    ensures r.None? <==> font.None?
  {
    match font
    case None => None
    case Some(f) =>
      var ps := Layout(SlowRule(), f, d.width, d.height, x, Cursor(x, y), text);
      LayoutWellFormed(SlowRule(), f, d.width, d.height, x, Cursor(x, y), text);
      Some(SlowTrace(d, ps, color))
  }

  /** draw_text_fast with the `>` tests; chip select is released at the
      end. */
  function DrawTextFast(d: Display, font: Option<Font>, text: seq<char>, x: int, y: int, color: int, bg: int): (r: Option<Trace>)
    requires font.Some? ==> FontOk(font.value)
    ensures r.None? <==> font.None?
    ensures r.Some? ==> |r.value| > 0 && r.value[|r.value| - 1] == CsHigh
  {
    match font
    case None => None
    case Some(f) =>
      var ps := Layout(FastRule(), f, d.width, d.height, x, Cursor(x, y), text);
      LayoutWellFormed(FastRule(), f, d.width, d.height, x, Cursor(x, y), text);
      Some(FastTrace(d, ps, color, bg) + [CsHigh])
  }

  /** draw_text_fast as written, with `>=` in both bound tests. */
  function DrawTextFastAsWritten(d: Display, font: Option<Font>, text: seq<char>, x: int, y: int, color: int, bg: int): (r: Option<Trace>)
    requires font.Some? ==> FontOk(font.value)
    ensures r.None? <==> font.None?
    ensures r.Some? ==> |r.value| > 0 && r.value[|r.value| - 1] == CsHigh
  {
    match font
    case None => None
    case Some(f) =>
      var ps := Layout(FastRuleAsWritten(), f, d.width, d.height, x, Cursor(x, y), text);
      LayoutWellFormed(FastRuleAsWritten(), f, d.width, d.height, x, Cursor(x, y), text);
      Some(FastTrace(d, ps, color, bg) + [CsHigh])
  }

  /** An 8 x 8 blank glyph for every character. */
  function Block(): Font
  {
    _ => Glyph(seq(8, _ => 0), 8, 8)
  }

  /** On an 8 x 8 screen, a glyph that exactly fills it: draw_text and the
      corrected draw_text_fast draw it at the origin, while the `>=` tests
      first wrap it (8 >= 8) and then find no room below (16 >= 8), so
      nothing is drawn. */
  lemma FastAsWrittenDropsExactFit()
    ensures Layout(SlowRule(), Block(), 8, 8, 0, Cursor(0, 0), "A") == [Placement(Block()('A'), 0, 0)]
    ensures Layout(FastRule(), Block(), 8, 8, 0, Cursor(0, 0), "A") == [Placement(Block()('A'), 0, 0)]
    ensures Layout(FastRuleAsWritten(), Block(), 8, 8, 0, Cursor(0, 0), "A") == []
  {
    assert "A"[1..] == [];
  }

  /** Line ys of _scroll_row for a text row at y: set the scroll start to
      y + ys + 1, clear screen line y + ys, wait. */
  function ScrollLine(d: Display, y: int, ys: int, w: int, bg: int, delay: nat): (r: Trace)
    ensures |r| == LineLength(d, w)
  {
    VertScrollStartAddress(y + ys + 1) + FillRect(d, 0, y + ys, w, 1, bg) + [Sleep(delay)]
  }

  /** On the panel a scrolled line repaints screen line y + ys, columns
      0 .. w - 1, with the background, left to right, and writes nothing
      else: the start address changes no pixel and the delay is not a bus
      transfer. */
  lemma ScrollLineClears(p: Panel, d: Display, y: int, ys: int, w: int, bg: int, delay: nat)
    requires p.bpp == BytesPerPixel(d.pixelFormat)
    requires 1 <= w <= 0x10000 && 0 <= y + ys < 0x10000
    ensures Run(p, ScrollLine(d, y, ys, w, bg, delay)).written
      == p.written + RowMajor(0, y + ys, w, 0, w * 1, PixelBytes(d.pixelFormat, bg))
  {
    var a := VertScrollStartAddress(y + ys + 1);
    var f := FillRect(d, 0, y + ys, w, 1, bg);
    RunAppend(p, a + f, [Sleep(delay)]);
    RunAppend(p, a, f);
    ScrollAddressQuiet(p, y + ys + 1);
    FillRectWrites(p.(phase := Idle), d, 0, y + ys, w, 1, bg);
    RunOne(Run(p, a + f), Sleep(delay));
  }

  /** Events per scrolled line: six for the start address, a one-line
      fill_rect, the delay. */
  function LineLength(d: Display, w: int): nat
  {
    19 + PixelCount(w, 1) * BytesPerPixel(d.pixelFormat)
  }

  /** The lines of _scroll_row, as a function of the line index. */
  function LineOf(d: Display, y: int, w: int, bg: int, delay: nat): int -> Trace
  {
    ys => ScrollLine(d, y, ys, w, bg, delay)
  }

  /** _scroll_row: the lines of a text row gh lines high, top to bottom. */
  function ScrollRow(d: Display, y: int, gh: int, w: int, bg: int, delay: nat): (r: Trace)
    ensures |r| == if gh > 0 then gh * LineLength(d, w) else 0
  {
    forall ys ensures |LineOf(d, y, w, bg, delay)(ys)| == LineLength(d, w) {}
    BlocksLength(LineOf(d, y, w, bg, delay), gh, LineLength(d, w));
    Blocks(LineOf(d, y, w, bg, delay), gh)
  }

  /** Line ys of a scrolled row sits at events ys * n .. ys * n + n. */
  lemma ScrollRowLine(d: Display, y: int, gh: int, w: int, bg: int, delay: nat, ys: nat)
    requires ys < gh
    ensures var n := LineLength(d, w);
      0 <= ys * n && ys * n + n <= |ScrollRow(d, y, gh, w, bg, delay)|
      && ScrollRow(d, y, gh, w, bg, delay)[ys * n .. ys * n + n] == ScrollLine(d, y, ys, w, bg, delay)
  {
    var f := LineOf(d, y, w, bg, delay);
    BlockAt(f, gh, LineLength(d, w), ys);
  }

  /** The state of scroll_text's loop: cursor and whether scrolling has
      started. */
  datatype Scroller = Scroller(x: int, y: int, on: bool)

  datatype Scrolled = Scrolled(st: Scroller, trace: Trace)

  /** Where scroll_text puts a glyph gw x gh: a glyph that reaches the
      right edge (`>=`) wraps to xs on the next row; if that row does not
      fit (`>`), scrolling starts and the row goes back to the top. */
  datatype Placed = Placed(x: int, y: int, on: bool, wrap: bool)

  function Place(d: Display, gw: int, gh: int, xs: int, st: Scroller): (p: Placed)
    ensures p.wrap <==> st.x + gw >= d.width
    ensures p.wrap ==> p.x == xs && p.on == (st.on || st.y + gh + gh > d.height)
    ensures p.wrap ==> p.y == if st.y + gh + gh > d.height then 0 else st.y + gh
    ensures !p.wrap ==> p.x == st.x && p.y == st.y && p.on == st.on
  {
    var wrap := st.x + gw >= d.width;
    var y1 := st.y + gh;
    var over := wrap && y1 + gh > d.height;
    Placed(if wrap then xs else st.x, if over then 0 else if wrap then y1 else st.y, st.on || over, wrap)
  }

  /** What a placed glyph sends: while scrolling, a wrapped row is first
      cleared and scrolled into view; then the glyph itself. */
  function PlacedTrace(d: Display, g: Glyph, p: Placed, color: int, bg: int, delay: nat): (r: Trace)
    requires WellFormed(g)
    ensures var pre := if p.wrap && p.on then ScrollRow(d, p.y, g.height, d.width, bg, delay) else [];
      |r| >= |pre| + 11 && r[..|pre|] == pre && OpensWindow(r[|pre|..], p.x, p.y, g)
  {
    var pre := if p.wrap && p.on then ScrollRow(d, p.y, g.height, d.width, bg, delay) else [];
    var glyph := GlyphFastTrace(d, g, p.x, p.y, color, bg);
    HeadAfter(pre, glyph);
    assert OpensWindow(glyph, p.x, p.y, g);
    pre + glyph
  }

  /** One pass of scroll_text's loop; a space is drawn twice when both
      copies fit. */
  function ScrollStep(d: Display, font: Font, xs: int, st: Scroller, ch: char, color: int, bg: int, delay: nat): (r: Scrolled)
    requires FontOk(font)
    ensures st.on ==> r.st.on
    ensures ch == '\n' ==> r == Scrolled(st.(x := d.width), [])
    ensures ch != '\n' ==> |r.trace| >= 11
  {
    if ch == '\n' then Scrolled(st.(x := d.width), [])
    else GlyphStep(d, font(Drawn(ch)), Drawn(ch) == ' ', xs, st, color, bg, delay)
  }

  /** A pass for a drawn glyph g (`space` when it is the space): its trace
      starts with the placed glyph, and the row and scrolling flag are the
      placement's. */
  function GlyphStep(d: Display, g: Glyph, space: bool, xs: int, st: Scroller, color: int, bg: int, delay: nat): (r: Scrolled)
    requires WellFormed(g)
    ensures var p := Place(d, g.width, g.height, xs, st);
      var drawn := PlacedTrace(d, g, p, color, bg, delay);
      && r.st.on == p.on && r.st.y == p.y
      && |drawn| <= |r.trace| && r.trace[..|drawn|] == drawn
  {
    var p := Place(d, g.width, g.height, xs, st);
    var drawn := PlacedTrace(d, g, p, color, bg, delay);
    if space && p.x + g.width + g.width <= d.width then
      var t := drawn + GlyphFastTrace(d, g, p.x + g.width, p.y, color, bg);
      assert t[..|drawn|] == drawn;
      Scrolled(Scroller(p.x + g.width + g.width, p.y, p.on), t)
    else
      assert drawn[..|drawn|] == drawn;
      Scrolled(Scroller(p.x + g.width, p.y, p.on), drawn)
  }

  /** Before scrolling starts, a wrapped glyph's window opens at once at
      the start x of the next row. */
  lemma ScrollWrapDraws(d: Display, font: Font, xs: int, st: Scroller, ch: char, color: int, bg: int, delay: nat)
    requires FontOk(font) && ch != '\n'
    requires st.x + font(Drawn(ch)).width >= d.width
    ensures var g := font(Drawn(ch));
      var r := ScrollStep(d, font, xs, st, ch, color, bg, delay);
      !r.st.on ==> OpensWindow(r.trace, xs, r.st.y, g)
  {
    WrapWindow(d, font(Drawn(ch)), Drawn(ch) == ' ', xs, st, color, bg, delay);
  }

  /** The same for one glyph pass. */
  lemma WrapWindow(d: Display, g: Glyph, space: bool, xs: int, st: Scroller, color: int, bg: int, delay: nat)
    requires WellFormed(g) && st.x + g.width >= d.width
    ensures var r := GlyphStep(d, g, space, xs, st, color, bg, delay);
      !r.st.on ==> OpensWindow(r.trace, xs, r.st.y, g)
  {
    var p := Place(d, g.width, g.height, xs, st);
    var r := GlyphStep(d, g, space, xs, st, color, bg, delay);
    LeadingWindow(d, g, p, color, bg, delay, r.trace);
    assert p.x == xs && p.y == r.st.y;
  }

  function ScrollRun(d: Display, font: Font, xs: int, st: Scroller, text: seq<char>, color: int, bg: int, delay: nat): (r: Scrolled)
    requires FontOk(font)
    ensures r.trace == [] <==> forall i :: 0 <= i < |text| ==> text[i] == '\n'
    decreases |text|
  {
    if |text| == 0 then Scrolled(st, [])
    else
      var s := ScrollStep(d, font, xs, st, text[0], color, bg, delay);
      var rest := ScrollRun(d, font, xs, s.st, text[1..], color, bg, delay);
      Scrolled(rest.st, s.trace + rest.trace)
  }

  /** Once scrolling has started it never stops. */
  lemma {:induction false} ScrollingStaysOn(d: Display, font: Font, xs: int, st: Scroller, text: seq<char>, color: int, bg: int, delay: nat)
    requires FontOk(font) && st.on
    decreases |text|
    ensures ScrollRun(d, font, xs, st, text, color, bg, delay).st.on
  {
    if |text| > 0 {
      var s := ScrollStep(d, font, xs, st, text[0], color, bg, delay);
      ScrollingStaysOn(d, font, xs, s.st, text[1..], color, bg, delay);
    }
  }

  /** A wrap whose new row would run past the bottom starts scrolling and
      puts the row at the top, else the row moves down by the glyph's
      height; once on, scrolling stays on. */
  lemma ScrollWrapState(d: Display, font: Font, xs: int, st: Scroller, ch: char, color: int, bg: int, delay: nat)
    requires FontOk(font) && ch != '\n'
    requires st.x + font(Drawn(ch)).width >= d.width
    ensures var g := font(Drawn(ch));
      var r := ScrollStep(d, font, xs, st, ch, color, bg, delay);
      && r.st.on == (st.on || st.y + g.height + g.height > d.height)
      && r.st.y == if st.y + g.height + g.height > d.height then 0 else st.y + g.height
  {
  }

  /** While scrolling, each wrapped row is cleared first: its lines are
      filled with the background and the start address moves down. */
  lemma ScrollWrapClears(d: Display, font: Font, xs: int, st: Scroller, ch: char, color: int, bg: int, delay: nat)
    requires FontOk(font) && ch != '\n'
    requires st.x + font(Drawn(ch)).width >= d.width
    ensures var g := font(Drawn(ch));
      var r := ScrollStep(d, font, xs, st, ch, color, bg, delay);
      var pre := ScrollRow(d, r.st.y, g.height, d.width, bg, delay);
      r.st.on ==> |pre| <= |r.trace| && r.trace[..|pre|] == pre
  {
    var g := font(Drawn(ch));
    var p := Place(d, g.width, g.height, xs, st);
    var r := ScrollStep(d, font, xs, st, ch, color, bg, delay);
    if p.on {
      var drawn := PlacedTrace(d, g, p, color, bg, delay);
      PrefixOfPrefix(r.trace, drawn, |ScrollRow(d, p.y, g.height, d.width, bg, delay)|);
    }
  }

  /** A trace that opens with the window of glyph g at (x, y). */
  predicate OpensWindow(t: Trace, x: int, y: int, g: Glyph)
  {
    |t| >= 11 && t[..11] == SetWindow(x, y, x + g.width - 1, y + g.height - 1)
  }

  /** Outside scrolling a placed glyph's trace opens with its window. */
  lemma LeadingWindow(d: Display, g: Glyph, p: Placed, color: int, bg: int, delay: nat, t: Trace)
    requires WellFormed(g)
    requires var drawn := PlacedTrace(d, g, p, color, bg, delay); |drawn| <= |t| && t[..|drawn|] == drawn
    ensures !p.on ==> OpensWindow(t, p.x, p.y, g)
  {
    if !p.on {
      var drawn := PlacedTrace(d, g, p, color, bg, delay);
      assert drawn[0..] == drawn;
      PrefixOfPrefix(t, drawn, 11);
    }
  }

  lemma PrefixOfPrefix<T>(a: seq<T>, b: seq<T>, n: int)
    requires |b| <= |a| && a[..|b|] == b && 0 <= n <= |b|
    ensures a[..n] == b[..n]
  {
    assert forall k :: 0 <= k < n ==> a[k] == a[..|b|][k];
  }

  lemma HeadAfter<T>(a: seq<T>, b: seq<T>)
    ensures (a + b)[..|a|] == a && (a + b)[|a|..] == b
  {
  }

  lemma PrefixKeep<T>(a: seq<T>, b: seq<T>, n: int)
    requires 0 <= n <= |a|
    ensures (a + b)[..n] == a[..n]
  {
  }

  /** What goes wrong in scroll_text. */
  datatype TextError = FontNotSet | IndexError(sent: Trace)

  /** scroll_text as written: vert_scroll(0, height, 0) is sent, then
      text[0] is read for the first glyph's height, which raises on an
      empty string (the vertical-scroll definition has already gone out). */
  function ScrollTextAsWritten(d: Display, font: Option<Font>, text: seq<char>, x: int, y: int, color: int, bg: int, delay: nat): (r: Result<Trace, TextError>)
    requires font.Some? ==> FontOk(font.value)
    ensures r == Err(FontNotSet) <==> font.None?
    ensures font.Some? && |text| == 0 ==> r == Err(IndexError(VertScroll(d, 0, d.height, 0)))
  {
    match font
    case None => Err(FontNotSet)
    case Some(f) =>
      var head := VertScroll(d, 0, d.height, 0);
      if |text| == 0 then Err(IndexError(head))
      else Ok(head + ScrollRun(d, f, x, Scroller(x, y, false), text, color, bg, delay).trace + [CsHigh])
  }

  /** scroll_text without the text[0] read (the height it gave is
      overwritten before use): an empty string sends only the scroll
      definition and the chip-select release. */
  function ScrollText(d: Display, font: Option<Font>, text: seq<char>, x: int, y: int, color: int, bg: int, delay: nat): (r: Result<Trace, TextError>)
    requires font.Some? ==> FontOk(font.value)
    ensures r.Err? <==> font.None?
    ensures r.Ok? ==> |r.value| > 0 && r.value[|r.value| - 1] == CsHigh
  {
    match font
    case None => Err(FontNotSet)
    case Some(f) =>
      Ok(VertScroll(d, 0, d.height, 0) + ScrollRun(d, f, x, Scroller(x, y, false), text, color, bg, delay).trace + [CsHigh])
  }

  /** The two agree on every text the original handles; on the empty text
      the original raises and the corrected one finishes cleanly. */
  lemma ScrollTextCorrection(d: Display, font: Font, text: seq<char>, x: int, y: int, color: int, bg: int, delay: nat)
    requires FontOk(font)
    ensures |text| > 0 ==> ScrollTextAsWritten(d, Some(font), text, x, y, color, bg, delay) == ScrollText(d, Some(font), text, x, y, color, bg, delay)
    ensures |text| == 0 ==> (ScrollTextAsWritten(d, Some(font), text, x, y, color, bg, delay).Err?
      && ScrollText(d, Some(font), text, x, y, color, bg, delay) == Ok(VertScroll(d, 0, d.height, 0) + [CsHigh]))
  {
    if |text| == 0 {
      var head := VertScroll(d, 0, d.height, 0);
      assert ScrollRun(d, font, x, Scroller(x, y, false), text, color, bg, delay).trace == [];
      assert head + [] + [CsHigh] == head + [CsHigh];
    }
  }
}
