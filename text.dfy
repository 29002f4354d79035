/**
 * Where `display_text` puts its glyphs. The glyph table is not part of this
 * model: a font is its cell width and height and a lookup that may find no
 * glyph for a character. A glyph is a list of rows of cells, a non-zero cell
 * being lit.
 */
module Text {
  import opened Bits
  import opened Wrappers
  import opened Panel

  datatype Font = Font(width: nat, height: nat, glyph: char -> Option<seq<seq<nat>>>)

  /** `MATRIX_WIDTH - width` and `MATRIX_HEIGHT - height` do not underflow. */
  predicate Fits(f: Font)
  {
    f.width < Width && f.height <= Height
  }

  /** Every glyph has at most `height` rows of at most `width` cells. */
  predicate Shaped(f: Font)
  {
    forall ch :: f.glyph(ch).Some? ==>
      |f.glyph(ch).value| <= f.height &&
      forall gy :: 0 <= gy < |f.glyph(ch).value| ==> |f.glyph(ch).value[gy]| <= f.width
  }

  const LeftMargin: nat := 4

  /** The x coordinate of glyph number `k`: the margin, then `w + 1` columns per glyph. */
  function CursorX(w: nat, k: nat): nat
  {
    LeftMargin + k * (w + 1)
  }

  /** The row of the glyphs' top edge: the text is centred vertically. */
  function StartY(h: nat): (y: nat)
    requires h <= Height
    ensures y + h <= Height
  {
    (Height - h) / 2
  }

  /**
   * The number of characters of a text of length `n` that `display_text`
   * draws, counting from glyph `k`: it stops at the end of the text or at the
   * first glyph whose cursor is at or past `MATRIX_WIDTH - w`.
   */
  function ShownFrom(w: nat, n: nat, k: nat): (m: nat)
    requires w < Width && k <= n
    ensures k <= m <= n
    ensures forall j :: k <= j < m ==> CursorX(w, j) < Width - w
    ensures m < n ==> CursorX(w, m) >= Width - w
    decreases n - k
  {
    if k == n || CursorX(w, k) >= Width - w then k else ShownFrom(w, n, k + 1)
  }

  function Shown(w: nat, n: nat): (m: nat)
    requires w < Width
  {
    ShownFrom(w, n, 0)
  }

  /** How many glyphs of width `w` fit: glyph `k` is drawn exactly when `k` is below it. */
  function MaxGlyphs(w: nat): nat
  {
    (Width - LeftMargin) / (w + 1)
  }

  /** Cell `(px, py)` is a lit cell of `rows` drawn with its top-left at `(x0, y0)`. */
  predicate Covers(rows: seq<seq<nat>>, x0: nat, y0: nat, px: nat, py: nat)
  {
    x0 <= px && y0 <= py && py - y0 < |rows| && px - x0 < |rows[py - y0]| && rows[py - y0][px - x0] != 0
  }

  /** `draw_char(ch, x0, y0, ..)` lights `(px, py)`; a character without a glyph lights nothing. */
  predicate GlyphCovers(f: Font, ch: char, x0: nat, y0: nat, px: nat, py: nat)
  {
    f.glyph(ch).Some? && Covers(f.glyph(ch).value, x0, y0, px, py)
  }

  /** One of the first `n` glyphs of `text`, each at its cursor, lights `(px, py)`. */
  predicate LitBy(f: Font, text: seq<char>, n: nat, px: nat, py: nat)
    requires Fits(f) && n <= |text|
  {
    n > 0 && (LitBy(f, text, n - 1, px, py) || GlyphCovers(f, text[n - 1], CursorX(f.width, n - 1), StartY(f.height), px, py))
  }

  /** The frame buffer cell `(px, py)` after `display_text(text)`. */
  function TextPixel(f: Font, text: seq<char>, px: nat, py: nat): Pixel
    requires Fits(f)
  {
    if LitBy(f, text, Shown(f.width, |text|), px, py) then White else Black
  }

  // ------------------------------------------------------------------ lemmas

  /** A cell is lit exactly when some drawn glyph, at its own cursor, covers it. */
  lemma {:induction false} LitByIff(f: Font, text: seq<char>, n: nat, px: nat, py: nat)
    requires Fits(f) && n <= |text|
    ensures LitBy(f, text, n, px, py) <==>
      exists k :: 0 <= k < n && GlyphCovers(f, text[k], CursorX(f.width, k), StartY(f.height), px, py)
  {
    if n > 0 {
      LitByIff(f, text, n - 1, px, py);
      var last := GlyphCovers(f, text[n - 1], CursorX(f.width, n - 1), StartY(f.height), px, py);
      if last {
        assert exists k :: 0 <= k < n && GlyphCovers(f, text[k], CursorX(f.width, k), StartY(f.height), px, py);
      }
    }
  }

  /** Glyph `k` starts left of `MATRIX_WIDTH - w` just when fewer than `MaxGlyphs(w)` precede it. */
  lemma CursorFits(w: nat, k: nat)
    requires w < Width
    ensures CursorX(w, k) < Width - w <==> k < MaxGlyphs(w)
  {
    MulSucc(w + 1, k);
    MulBelowDiv(Width - LeftMargin, w + 1, k + 1);
  }

  /** Truncation depends on the width and the text's length only: the first `min(n, MaxGlyphs(w))` are drawn. */
  lemma ShownCount(w: nat, n: nat)
    requires w < Width
    ensures Shown(w, n) == if n < MaxGlyphs(w) then n else MaxGlyphs(w)
  {
    var m := Shown(w, n);
    if m < n {
      CursorFits(w, m);
    }
    if m > 0 {
      CursorFits(w, m - 1);
    }
  }

  /** With the 5-column font, at most 14 characters are shown: the text box's `maxlength`. */
  lemma FiveWideShowsFourteen(n: nat)
    ensures Shown(5, n) == if n < 14 then n else 14
  {
    ShownCount(5, n);
  }

  /** The cell box of every drawn glyph lies on the panel. */
  lemma ShownOnPanel(f: Font, n: nat, k: nat)
    requires Fits(f) && k < Shown(f.width, n)
    ensures CursorX(f.width, k) + f.width < Width
    ensures StartY(f.height) + f.height <= Height
  {
  }

  /** The lit cells of a shaped font lie in the band of rows the glyphs are centred on, right of the margin. */
  lemma {:induction false} LitInBand(f: Font, text: seq<char>, n: nat, px: nat, py: nat)
    requires Fits(f) && Shaped(f) && n <= |text|
    requires LitBy(f, text, n, px, py)
    ensures StartY(f.height) <= py < StartY(f.height) + f.height
    ensures LeftMargin <= px
  {
    if !LitBy(f, text, n - 1, px, py) {
      var rows := f.glyph(text[n - 1]).value;
      assert |rows| <= f.height;
    } else {
      LitInBand(f, text, n - 1, px, py);
    }
  }

  /** Every lit cell of a shaped font lies on the panel: `set_pixel` never clips text. */
  lemma LitOnPanel(f: Font, text: seq<char>, px: nat, py: nat)
    requires Fits(f) && Shaped(f)
    requires LitBy(f, text, Shown(f.width, |text|), px, py)
    ensures px < Width && py < Height
  {
    var n := Shown(f.width, |text|);
    LitInBand(f, text, n, px, py);
    LitByIff(f, text, n, px, py);
    var k :| 0 <= k < n && GlyphCovers(f, text[k], CursorX(f.width, k), StartY(f.height), px, py);
    var rows := f.glyph(text[k]).value;
    var gy := py - StartY(f.height);
    assert |rows[gy]| <= f.width;
    ShownOnPanel(f, |text|, k);
  }

  /** What is drawn depends only on the first `n` characters. */
  lemma {:induction false} LitByPrefix(f: Font, t1: seq<char>, t2: seq<char>, n: nat, px: nat, py: nat)
    requires Fits(f) && n <= |t1| && n <= |t2| && t1[..n] == t2[..n]
    ensures LitBy(f, t1, n, px, py) == LitBy(f, t2, n, px, py)
  {
    if n > 0 {
      assert t1[n - 1] == t1[..n][n - 1] == t2[..n][n - 1] == t2[n - 1];
      assert t1[..n - 1] == t1[..n][..n - 1];
      assert t2[..n - 1] == t2[..n][..n - 1];
      LitByPrefix(f, t1, t2, n - 1, px, py);
    }
  }

  /**
   * Two texts that agree on their first `MaxGlyphs(w)` characters and are both
   * at least that long render alike: what the truncation cuts off never shows.
   */
  lemma TruncatedAlike(f: Font, t1: seq<char>, t2: seq<char>, px: nat, py: nat)
    requires Fits(f)
    requires MaxGlyphs(f.width) <= |t1| && MaxGlyphs(f.width) <= |t2|
    requires t1[..MaxGlyphs(f.width)] == t2[..MaxGlyphs(f.width)]
    ensures TextPixel(f, t1, px, py) == TextPixel(f, t2, px, py)
  {
    ShownCount(f.width, |t1|);
    ShownCount(f.width, |t2|);
    LitByPrefix(f, t1, t2, MaxGlyphs(f.width), px, py);
  }

  /**
   * A character without a glyph draws nothing, and the glyphs after it keep
   * their places: it may be swapped for any other glyph-less character.
   */
  lemma {:induction false} GlyphlessInterchangeable(f: Font, t1: seq<char>, t2: seq<char>, n: nat, k: nat, px: nat, py: nat)
    requires Fits(f) && n <= |t1| == |t2| && k < |t1|
    requires forall j :: 0 <= j < |t1| && j != k ==> t1[j] == t2[j]
    requires f.glyph(t1[k]).None? && f.glyph(t2[k]).None?
    ensures LitBy(f, t1, n, px, py) == LitBy(f, t2, n, px, py)
  {
    if n > 0 {
      GlyphlessInterchangeable(f, t1, t2, n - 1, k, px, py);
    }
  }

  /** The empty text leaves every cell black. */
  lemma EmptyTextBlack(f: Font, px: nat, py: nat)
    requires Fits(f)
    ensures TextPixel(f, [], px, py) == Black
  {
  }
}
