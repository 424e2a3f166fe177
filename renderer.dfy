/**
 * The sprite batch of code/renderer.h: a bounded buffer that draw_sprite
 * appends to and draw_end hands to the GPU and empties.
 */
module Renderers {
  import opened Basics

  /**
   * A renderable quad (position, size, colour).  Its fields are float
   * geometry that this model does not look into.
   */
  type Sprite(0)

  /** The batch after one draw_sprite: appended while there is room, otherwise unchanged. */
  function Admit(batch: seq<Sprite>, limit: int, sprite: Sprite): (r: seq<Sprite>)
    requires |batch| <= limit
    ensures |r| <= limit
    ensures |batch| < limit ==> r == batch + [sprite]
    ensures |batch| == limit ==> r == batch
  {
    if |batch| < limit then batch + [sprite] else batch
  }

  /** The batch after draw_sprite is called once for each of the given sprites, in order. */
  function AdmitAll(batch: seq<Sprite>, limit: int, sprites: seq<Sprite>): (r: seq<Sprite>)
    requires |batch| <= limit
    ensures |r| <= limit
    decreases |sprites|
  {
    if sprites == [] then batch else AdmitAll(Admit(batch, limit, sprites[0]), limit, sprites[1..])
  }

  /**
   * Drawing a run of sprites keeps the first ones up to the limit and
   * silently drops the rest: the batch is the old batch followed by the
   * longest prefix of the run that fits.
   */
  lemma {:induction false} AdmitAllKeepsPrefix(batch: seq<Sprite>, limit: int, sprites: seq<Sprite>)
    requires |batch| <= limit
    ensures var n := if |batch| + |sprites| <= limit then |sprites| else limit - |batch|;
      AdmitAll(batch, limit, sprites) == batch + sprites[..n]
    decreases |sprites|
  {
    if sprites != [] {
      var next := Admit(batch, limit, sprites[0]);
      AdmitAllKeepsPrefix(next, limit, sprites[1..]);
      if |batch| < limit {
        var n := if |batch| + |sprites| <= limit then |sprites| else limit - |batch|;
        assert sprites[..n] == [sprites[0]] + sprites[1..][..n - 1];
      }
    }
  }

  /** What draw_end submits: nothing without a drawable; otherwise a frame, with one instanced draw when the batch is not empty. */
  datatype Frame = NoDrawable | Presented(instances: Option<nat>)

  class Renderer {
    const spriteLimit: int
    /** The GPU buffer of spriteLimit sprites. */
    const sprites: array<Sprite>
    var spriteCount: int

    ghost predicate Valid()
      reads this
    {
      sprites.Length == spriteLimit && 0 <= spriteCount <= spriteLimit
    }

    /** The sprites queued for the next frame. */
    ghost function Batch(): seq<Sprite>
      reads this, sprites
      requires Valid()
    {
      sprites[..spriteCount]
    }

    /** make_renderer: an empty batch with room for spriteLimit sprites. */
    constructor (spriteLimit: nat)
      ensures Valid() && fresh(sprites)
      ensures this.spriteLimit == spriteLimit && spriteCount == 0 && Batch() == []
    {
      this.spriteLimit := spriteLimit;
      sprites := new Sprite[spriteLimit];
      spriteCount := 0;
    }

    /** draw_sprite */
    method DrawSprite(sprite: Sprite)
      requires Valid()
      modifies this, sprites
      ensures Valid()
      ensures Batch() == Admit(old(Batch()), spriteLimit, sprite)
      ensures spriteCount == if old(spriteCount) < spriteLimit then old(spriteCount) + 1 else old(spriteCount)
      ensures forall i :: 0 <= i < old(spriteCount) ==> sprites[i] == old(sprites[i])
    {
      var count := spriteCount;
      if count < spriteLimit {
        sprites[count] := sprite;
        spriteCount := spriteCount + 1;
      }
    }

    /**
     * draw_end, with whether the layer handed out a drawable as a
     * parameter.  Without one it returns early and keeps the batch.
     */
    method DrawEnd(drawable: bool) returns (frame: Frame)
      requires Valid()
      modifies this
      ensures Valid()
      ensures !drawable ==> frame == NoDrawable && spriteCount == old(spriteCount)
      ensures drawable ==> spriteCount == 0
      ensures drawable ==> frame == Presented(if old(spriteCount) > 0 then Some(old(spriteCount)) else None)
    {
      var count := spriteCount;
      if !drawable {
        return NoDrawable;
      }
      var instances := if count > 0 then Some(count) else None;
      frame := Presented(instances);
      spriteCount := 0;
    }
  }
}
