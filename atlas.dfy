/**
 * The glyph atlas of code/atlas.h: a linked list of cached letters that
 * draw_letter searches and prepends to, and the packing state that
 * cache_text advances for every glyph it rasterises.
 *
 * CoreText measures each glyph and CoreGraphics/Metal draw and upload
 * it; here the measurements and the finished sprite are inputs, and an
 * upload is recorded in a log of texture regions.
 */
module Atlases {
  import opened Basics
  import opened AtlasSpec
  import Renderers

  /** A cached glyph.  Nodes are never changed once linked, so their fields are constant. */
  class Letter {
    const codepoint: U8
    const sprite: Renderers.Sprite
    const next: Letter?
    /** The list from this node on. */
    ghost const entries: seq<Entry>

    ghost predicate Valid()
      decreases |entries|
    {
      |entries| >= 1 && entries[0] == Entry(codepoint, sprite)
      && (next == null ==> entries == [Entry(codepoint, sprite)])
      && (next != null ==> entries == [Entry(codepoint, sprite)] + next.entries && next.Valid())
    }

    constructor (codepoint: U8, sprite: Renderers.Sprite, next: Letter?)
      requires next != null ==> next.Valid()
      ensures Valid()
      ensures this.codepoint == codepoint && this.sprite == sprite && this.next == next
      ensures entries == [Entry(codepoint, sprite)] + (if next == null then [] else next.entries)
    {
      this.codepoint := codepoint;
      this.sprite := sprite;
      this.next := next;
      entries := [Entry(codepoint, sprite)] + (if next == null then [] else next.entries);
    }
  }

  /** A texture region replaced by cache_text: origin and size in texels. */
  datatype Upload = Upload(x: real, y: real, width: real, height: real)

  class Atlas {
    const width: int
    const height: int
    const scale: real
    var maxHeight: real
    var nextX: real
    var nextY: real
    var letters: Letter?
    /** Every texture upload so far, oldest first. */
    var uploads: seq<Upload>

    function PackingState(): AtlasSpec.Packing
      reads this
    {
      AtlasSpec.Packing(nextX, nextY, maxHeight)
    }

    /** The cached letters, newest first. */
    ghost function Entries(): seq<Entry>
      reads this
    {
      if letters == null then [] else letters.entries
    }

    ghost predicate Valid()
      reads this
    {
      (letters != null ==> letters.Valid()) && Distinct(Entries())
    }

    /**
     * make_atlas: the atlas comes from zeroed storage, so no letters are
     * cached and the packing starts at the origin.
     */
    constructor (scale: real, width: int, height: int)
      ensures Valid()
      ensures this.scale == scale && this.width == width && this.height == height
      ensures PackingState() == AtlasSpec.Packing(0.0, 0.0, 0.0)
      ensures Entries() == [] && uploads == []
    {
      this.scale := scale;
      this.width := width;
      this.height := height;
      maxHeight := 0.0;
      nextX := 0.0;
      nextY := 0.0;
      letters := null;
      uploads := [];
    }

    /**
     * cache_text for a glyph CoreText measured as g: upload it when it
     * has a positive width, then advance the packing.  The result is
     * false when next_y has gone negative, which the source treats as fatal.
     */
    method CacheText(g: Metrics) returns (ok: bool)
      requires Valid()
      modifies this
      ensures Valid() && letters == old(letters)
      ensures PackingState() == Place(old(PackingState()), width as real, g)
      ensures uploads == old(uploads) +
        if g.width > 0.0 then [Upload(old(nextX), height as real - old(nextY), g.width, g.Height())] else []
      ensures ok <==> nextY >= 0.0
    {
      var h := g.ascent + g.descent;
      if g.width > 0.0 {
        uploads := uploads + [Upload(nextX, height as real - nextY, g.width, h)];
      }
      if h > maxHeight {
        maxHeight := h;
      }
      nextX := nextX + g.width;
      if nextX > width as real {
        nextX := 0.0;
        nextY := nextY - maxHeight;
        maxHeight := 0.0;
      }
      ok := nextY >= 0.0;
    }

    /**
     * draw_letter: return the cached sprite for c, or cache the glyph
     * (measured as g, rendered as sprite) in a new node at the head of
     * the list.
     */
    method DrawLetter(c: U8, g: Metrics, sprite: Renderers.Sprite) returns (r: Outcome<Renderers.Sprite>)
      requires Valid()
      modifies this
      ensures Valid() && |Entries()| <= 256
      ensures old(Lookup(Entries(), c)).Some? ==>
        r == Ok(old(Lookup(Entries(), c)).value) && unchanged(this)
      ensures old(Lookup(Entries(), c)).None? ==>
        PackingState() == Place(old(PackingState()), width as real, g) && (r.Ok? <==> nextY >= 0.0)
      ensures old(Lookup(Entries(), c)).None? ==>
        uploads == old(uploads) +
          if g.width > 0.0 then [Upload(old(nextX), height as real - old(nextY), g.width, g.Height())] else []
      ensures old(Lookup(Entries(), c)).None? && r.Ok? ==>
        r.value == sprite && Entries() == [Entry(c, sprite)] + old(Entries())
      ensures r.Ok? ==> Lookup(Entries(), c) == Some(r.value)
    {
      var i := letters;
      ghost var k := 0;
      while i != null
        invariant 0 <= k <= |Entries()|
        invariant i == null ==> k == |Entries()|
        invariant i != null ==> i.Valid() && i.entries == Entries()[k..]
        invariant forall j :: 0 <= j < k ==> Entries()[j].codepoint != c
        invariant Lookup(Entries(), c) == Lookup(Entries()[k..], c)
        decreases if i == null then 0 else |i.entries|
      {
        if i.codepoint == c {
          CacheHoldsAtMost256(Entries());
          return Ok(i.sprite);
        }
        assert Entries()[k..][1..] == Entries()[k + 1..];
        i := i.next;
        k := k + 1;
      }
      assert Entries()[k..] == [];
      var ok := CacheText(g);
      if !ok {
        CacheHoldsAtMost256(Entries());
        return Fatal;
      }
      ghost var before := Entries();
      PrependKeepsDistinct(before, c, sprite);
      LookupAfterPrepend(before, c, sprite, c);
      var node := new Letter(c, sprite, letters);
      letters := node;
      r := Ok(node.sprite);
      CacheHoldsAtMost256(Entries());
    }
  }

  /**
   * Two draws of the same code point: when the first succeeds, the
   * second is a cache hit that returns the same sprite and changes nothing,
   * so the glyph is placed, uploaded and linked at most once.
   */
  method DrawLetterTwice(atlas: Atlas, c: U8, g: Metrics, first: Renderers.Sprite, second: Renderers.Sprite)
    returns (r1: Outcome<Renderers.Sprite>, r2: Outcome<Renderers.Sprite>)
    requires atlas.Valid()
    modifies atlas
    ensures atlas.Valid()
    ensures r1.Ok? ==> r2 == r1 && Lookup(atlas.Entries(), c) == Some(r1.value)
    ensures r1.Ok? && old(Lookup(atlas.Entries(), c)).Some? ==>
      atlas.PackingState() == old(atlas.PackingState()) && atlas.uploads == old(atlas.uploads)
      && atlas.Entries() == old(atlas.Entries())
    ensures r1.Ok? && old(Lookup(atlas.Entries(), c)).None? ==>
      atlas.PackingState() == Place(old(atlas.PackingState()), atlas.width as real, g)
      && atlas.uploads == old(atlas.uploads) +
           (if g.width > 0.0 then [Upload(old(atlas.nextX), atlas.height as real - old(atlas.nextY), g.width, g.Height())] else [])
      && atlas.Entries() == [Entry(c, first)] + old(atlas.Entries())
  {
    r1 := atlas.DrawLetter(c, g, first);
    if r1.Ok? {
      r2 := atlas.DrawLetter(c, g, second);
    } else {
      // A fatal first draw stops the process: there is no second draw.
      r2 := Fatal;
    }
  }
}
