/**
 * The two pieces of logic in code/atlas.h, as pure functions: the glyph
 * cache that draw_letter keeps as a list of (code point, sprite) nodes,
 * and the shelf packing of cache_text, which places glyphs left to right
 * in rows and moves down a row when one overflows.
 *
 * The packing fields are F32 in the source; here they are reals, so
 * float rounding is not modelled.
 */
module AtlasSpec {
  import opened Basics
  import Renderers

  /** One node of the letter list, without its link. */
  datatype Entry = Entry(codepoint: U8, sprite: Renderers.Sprite)

  /** The code points the list holds. */
  function Codepoints(entries: seq<Entry>): set<U8> {
    set e | e in entries :: e.codepoint
  }

  /** No code point appears in two nodes. */
  predicate Distinct(entries: seq<Entry>) {
    forall i, j :: 0 <= i < j < |entries| ==> entries[i].codepoint != entries[j].codepoint
  }

  /** The search loop of draw_letter: the sprite of the first node whose code point matches. */
  function Lookup(entries: seq<Entry>, c: U8): Option<Renderers.Sprite>
    decreases |entries|
  {
    if entries == [] then None
    else if entries[0].codepoint == c then Some(entries[0].sprite)
    else Lookup(entries[1..], c)
  }

  /**
   * Lookup misses exactly when no node holds c, and a hit is the sprite
   * of a node holding c with no node for c before it.
   */
  lemma {:induction false} LookupFindsFirst(entries: seq<Entry>, c: U8)
    ensures Lookup(entries, c).None? <==> c !in Codepoints(entries)
    ensures Lookup(entries, c).Some? ==>
      exists i :: 0 <= i < |entries| && entries[i] == Entry(c, Lookup(entries, c).value)
                  && forall j :: 0 <= j < i ==> entries[j].codepoint != c
    decreases |entries|
  {
    if entries != [] {
      var rest := entries[1..];
      assert Codepoints(entries) == {entries[0].codepoint} + Codepoints(rest) by {
        assert entries == [entries[0]] + rest;
      }
      if entries[0].codepoint != c {
        LookupFindsFirst(rest, c);
        var r := Lookup(rest, c);
        if r.Some? {
          var i :| 0 <= i < |rest| && rest[i] == Entry(c, r.value)
                   && forall j :: 0 <= j < i ==> rest[j].codepoint != c;
          assert entries[i + 1] == Entry(c, r.value);
          forall j | 0 <= j < i + 1 ensures entries[j].codepoint != c {
            if j > 0 { assert entries[j] == rest[j - 1]; }
          }
        }
      }
    }
  }

  /**
   * After a miss prepends a node for c, looking c up finds the new node,
   * and every other code point finds what it found before.
   */
  lemma LookupAfterPrepend(entries: seq<Entry>, c: U8, s: Renderers.Sprite, d: U8)
    ensures Lookup([Entry(c, s)] + entries, c) == Some(s)
    ensures d != c ==> Lookup([Entry(c, s)] + entries, d) == Lookup(entries, d)
  {
    assert ([Entry(c, s)] + entries)[1..] == entries;
  }

  /** Prepending a code point that the list does not hold keeps the code points distinct. */
  lemma PrependKeepsDistinct(entries: seq<Entry>, c: U8, s: Renderers.Sprite)
    requires Distinct(entries) && Lookup(entries, c).None?
    ensures Distinct([Entry(c, s)] + entries)
    ensures Codepoints([Entry(c, s)] + entries) == Codepoints(entries) + {c}
  {
    LookupFindsFirst(entries, c);
    var l := [Entry(c, s)] + entries;
    forall i, j | 0 <= i < j < |l| ensures l[i].codepoint != l[j].codepoint {
      assert l[j] == entries[j - 1];
      if i > 0 { assert l[i] == entries[i - 1]; }
      else { assert l[j] in entries; }
    }
  }

  /** The byte values below n. */
  function Below(n: nat): (r: set<U8>)
    requires n <= 256
    ensures |r| == n
    ensures forall x: U8 :: x in r <==> x as int < n
  {
    if n == 0 then {} else Below(n - 1) + {(n - 1) as U8}
  }

  /** A list whose code points are distinct and drawn from `bytes` has at most |bytes| nodes. */
  lemma {:induction false} DistinctWithin(entries: seq<Entry>, bytes: set<U8>)
    requires Distinct(entries) && Codepoints(entries) <= bytes
    ensures |entries| <= |bytes|
  {
    if entries != [] {
      var c := entries[0].codepoint;
      var rest := entries[1..];
      assert Distinct(rest) by {
        forall i, j | 0 <= i < j < |rest| ensures rest[i].codepoint != rest[j].codepoint {
          assert rest[i] == entries[i + 1] && rest[j] == entries[j + 1];
        }
      }
      assert Codepoints(rest) <= bytes - {c} by {
        forall e | e in rest ensures e.codepoint in bytes - {c} {
          var k :| 0 <= k < |rest| && rest[k] == e;
          assert entries[k + 1] == e;
          assert e in entries;
        }
      }
      assert c in bytes by { assert entries[0] in entries; }
      DistinctWithin(rest, bytes - {c});
    }
  }

  /** With distinct U8 code points the cache never holds more than 256 letters. */
  lemma CacheHoldsAtMost256(entries: seq<Entry>)
    requires Distinct(entries)
    ensures |entries| <= 256
  {
    var all := Below(256);
    assert Codepoints(entries) <= all;
    DistinctWithin(entries, all);
  }

  /** What CoreText reports for one glyph: its typographic width, ascent and descent. */
  datatype Metrics = Metrics(width: real, ascent: real, descent: real)
  {
    function Height(): real {
      ascent + descent
    }
  }

  /** The atlas's packing state: where the next glyph goes and the tallest glyph of the current row. */
  datatype Packing = Packing(nextX: real, nextY: real, maxHeight: real)

  function Max(a: real, b: real): (r: real)
    ensures r >= a && r >= b && (r == a || r == b)
  {
    if b > a then b else a
  }

  /** The glyph, placed at nextX, extends past the atlas's right edge. */
  predicate Overflows(p: Packing, atlasWidth: real, g: Metrics) {
    p.nextX + g.width > atlasWidth
  }

  /**
   * The tail of cache_text: raise max_height to the glyph's height,
   * advance next_x by its width, and when that passes the atlas width,
   * start a new row max_height lower.
   */
  function Place(p: Packing, atlasWidth: real, g: Metrics): (r: Packing)
    ensures !Overflows(p, atlasWidth, g) ==>
      r.nextX == p.nextX + g.width && r.nextY == p.nextY && r.maxHeight == Max(p.maxHeight, g.Height())
    ensures Overflows(p, atlasWidth, g) ==>
      r.nextX == 0.0 && r.nextY == p.nextY - Max(p.maxHeight, g.Height()) && r.maxHeight == 0.0
  {
    var maxHeight := if g.Height() > p.maxHeight then g.Height() else p.maxHeight;
    var nextX := p.nextX + g.width;
    if nextX > atlasWidth then Packing(0.0, p.nextY - maxHeight, 0.0)
    else Packing(nextX, p.nextY, maxHeight)
  }

  /** The packing state after cache_text has placed each glyph in turn. */
  function PlaceAll(p: Packing, atlasWidth: real, glyphs: seq<Metrics>): (r: Packing)
    decreases |glyphs|
  {
    if glyphs == [] then p else PlaceAll(Place(p, atlasWidth, glyphs[0]), atlasWidth, glyphs[1..])
  }

  function TotalWidth(glyphs: seq<Metrics>): real
    decreases |glyphs|
  {
    if glyphs == [] then 0.0 else glyphs[0].width + TotalWidth(glyphs[1..])
  }

  function TallestOf(start: real, glyphs: seq<Metrics>): real
    decreases |glyphs|
  {
    if glyphs == [] then start else TallestOf(Max(start, glyphs[0].Height()), glyphs[1..])
  }

  predicate NonNegativeWidths(glyphs: seq<Metrics>) {
    forall i :: 0 <= i < |glyphs| ==> glyphs[i].width >= 0.0
  }

  /**
   * Glyphs of non-negative width that fit in the rest of the row share
   * it: they sit side by side, the row stays where it is, and max_height
   * is the tallest of them and the row's previous maximum.
   */
  lemma {:induction false} PlaceAllOneRow(p: Packing, atlasWidth: real, glyphs: seq<Metrics>)
    requires NonNegativeWidths(glyphs)
    requires p.nextX + TotalWidth(glyphs) <= atlasWidth
    ensures PlaceAll(p, atlasWidth, glyphs)
            == Packing(p.nextX + TotalWidth(glyphs), p.nextY, TallestOf(p.maxHeight, glyphs))
    decreases |glyphs|
  {
    if glyphs != [] {
      var rest := glyphs[1..];
      TotalWidthNonNegative(rest);
      PlaceAllOneRow(Place(p, atlasWidth, glyphs[0]), atlasWidth, rest);
    }
  }

  lemma {:induction false} TotalWidthNonNegative(glyphs: seq<Metrics>)
    requires NonNegativeWidths(glyphs)
    ensures TotalWidth(glyphs) >= 0.0
    decreases |glyphs|
  {
    if glyphs != [] {
      TotalWidthNonNegative(glyphs[1..]);
    }
  }

  /**
   * With glyph widths that are not negative, from a packing with next_x
   * in [0, width] and max_height non-negative, every placement keeps
   * next_x within [0, width] and max_height non-negative, and next_y
   * only ever moves down.
   */
  lemma {:induction false} PlaceAllStaysInside(p: Packing, atlasWidth: real, glyphs: seq<Metrics>)
    requires NonNegativeWidths(glyphs)
    requires 0.0 <= p.nextX <= atlasWidth && p.maxHeight >= 0.0
    ensures var r := PlaceAll(p, atlasWidth, glyphs);
      0.0 <= r.nextX <= atlasWidth && r.maxHeight >= 0.0 && r.nextY <= p.nextY
    decreases |glyphs|
  {
    if glyphs != [] {
      PlaceAllStaysInside(Place(p, atlasWidth, glyphs[0]), atlasWidth, glyphs[1..]);
    }
  }

  /**
   * A freshly made atlas starts at next_y == 0, so the first row wrap
   * after any glyph of positive height drives next_y below zero, which
   * cache_text treats as fatal.
   */
  lemma FirstWrapFromTopIsFatal(p: Packing, atlasWidth: real, g: Metrics)
    requires p.nextY == 0.0 && Overflows(p, atlasWidth, g)
    requires p.maxHeight > 0.0 || g.Height() > 0.0
    ensures Place(p, atlasWidth, g).nextY < 0.0
  {
  }

  /**
   * Two 60-wide glyphs of height 10 in a 100-wide fresh atlas: the first
   * fits, the second overflows the row and the wrap is fatal.
   */
  lemma TwoWideGlyphsInFreshAtlas(g: Metrics)
    requires g == Metrics(60.0, 8.0, 2.0)
    ensures Place(Packing(0.0, 0.0, 0.0), 100.0, g) == Packing(60.0, 0.0, 10.0)
    ensures Place(Place(Packing(0.0, 0.0, 0.0), 100.0, g), 100.0, g) == Packing(0.0, -10.0, 0.0)
  {
  }
}
