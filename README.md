# typewriter core in Dafny

A model of the four stateful components at the heart of the typewriter
editor, with proofs of what each one does:

- **Gap buffer** (`code/gap_buffer.h`): the text store. A byte array of
  `capacity` bytes holds the text before the cursor in `data[0..cursor)`
  and the text after it in `data[back..capacity)`. It supports insert,
  delete, one-step cursor moves, line navigation built from those moves,
  and the traversal that `draw_buffer` renders.
  - `gap_spec.dfy` describes each routine as a function on a snapshot of
    the buffer.
  - `gap_buffer.dfy` is the buffer as a class. Its fields and array are
    updated in place, and each method is proved to step exactly as its
    function says.
  - `gap_properties.dfy` proves what the steps do to the text.
  - `gap_scenarios.dfy` works through concrete editing sessions.
- **Glyph atlas** (`code/atlas.h`): a linked list of cached letters,
  searched and prepended to by `draw_letter`, and the shelf packing that
  `cache_text` advances for every glyph it rasterises.
  - `atlas_spec.dfy` holds the lookup and the packing as functions, with
    their lemmas.
  - `atlas.dfy` holds the `Letter` and `Atlas` classes.
- **Arena** (`code/arena.h`, in `arena.dfy`): `align`, `arena_initialize`,
  and the offset, bound and commit computation of `arena_allocate_bytes`.
  It uses U64 arithmetic that wraps around modulo 2^64.
- **Sprite batch** (`code/renderer.h`, in `renderer.dfy`): the bounded
  buffer that `draw_sprite` fills and `draw_end` submits and empties.

`basics.dfy` holds the byte type, the newline byte, `Option`, and
`Outcome`. `Outcome` stands for the source's fatal `assert` failures.

The model follows the code as written, including its quirks.

**Gap buffer.**
- `add_character` writes whenever `cursor <= back`. Once the gap is
  empty, one more insertion overruns it:
  - the gap width becomes -1;
  - the write lands on the first byte after the cursor, or one byte past
    the storage when `back == capacity`.

  The snapshot therefore holds `capacity + 3` bytes: the byte before the
  storage and the two after it. `data[capacity]`, the first byte past the
  storage, is read by every `move_right` that moves `back` up to the
  capacity: that byte is copied to the gap's left edge, where later tests
  of `data[cursor]` read it (`GapProperties.MoveRightReadsPastStorage`). `data[-1]` and `data[capacity + 1]` are reached
  only after an overrun.
- `move_right` raises both indices before it copies. It keeps the text
  only when the byte at the gap's left edge equals the first byte after
  the gap. The model calls such a state *mirrored*.
  - From a state whose gap is not overrun, any real move, left or right,
    leaves the state mirrored.
  - So from such a state `move_left` and `move_up` keep the text.
  - From an overrun state (gap width -1) both can lose a byte:
    `gap_scenarios.dfy` turns "abc" into "acc" with `move_left` and into
    "ccc" with `move_up`.
  - From a state whose gap is not overrun, `move_down` and
    `move_to_line_start` keep the text unless they begin with a
    `move_right` from a state that is not mirrored. `gap_scenarios.dfy`
    shows such inputs losing a byte. From an overrun state the leftward
    scan they begin with can already lose bytes.
  - `move_right`, the rightward scan and `move_to_line_end` keep the text
    from a mirrored state whose gap is not overrun. A mirrored overrun
    state can still lose a byte: `gap_scenarios.dfy` turns "abbbc" into
    "abbbb" with one `move_right`.
- `move_down` first scans left to count the column. Only then does it
  step right and scan to the line's end.
- The column loops of `move_up` and `move_down` stop only at the end of
  the buffer, not at a newline.

**Arena.**
- Every block's offset is computed from the reservation size with
  `align`, not from `used`.
- `align` masks with `alignment - 1` instead of rounding up. For a
  power-of-two alignment its result is the remainder of `offset - 1`
  modulo the alignment, not a rounded-up offset.
- Nothing after `arena_initialize` writes `used` or `committed`. Blocks
  of one alignment therefore all start at the same offset, and commit
  lengths are always below one page.

## Model

| member | source | states |
|---|---|---|
| GapSpec.Make | code/gap_buffer.h:8-14 | a new buffer is well formed, holds no text, and its gap spans the whole capacity |
| GapSpec.AddCharacter | code/gap_buffer.h:16-21 | insertion keeps the state well formed and never changes `back` or the capacity |
| GapSpec.DeleteCharacter | code/gap_buffer.h:23-27 | deletion touches no byte and leaves `back` alone |
| GapSpec.MoveLeft | code/gap_buffer.h:29-35 | a no-op at cursor 0; otherwise the cursor drops by one, the gap width is kept and the state is left mirrored |
| GapSpec.MoveRight | code/gap_buffer.h:37-43 | a no-op at `back == capacity`; otherwise `back` rises by one, the gap width is kept and the state is left mirrored |
| GapSpec.ScanLeft | code/gap_buffer.h:47-50 | the leftward scan keeps the gap width and never moves right |
| GapSpec.ScanLeftStops | code/gap_buffer.h:47-50 | the leftward scan stops at 0 or on a newline at the gap's left edge |
| GapSpec.ScanRight | code/gap_buffer.h:67-69 | the rightward scan keeps the gap width and never moves left |
| GapSpec.ScanRightStops | code/gap_buffer.h:67-69 | the rightward scan stops at the end or on a newline at the gap's left edge |
| GapSpec.RightTimes | code/gap_buffer.h:55-57 | n calls of move_right move `back` by n, bounded by the capacity; none for n <= 0 |
| GapSpec.MoveUp | code/gap_buffer.h:45-58 | move_up keeps the state well formed and the gap width constant |
| GapSpec.MoveDown | code/gap_buffer.h:60-73 | move_down keeps the state well formed and the gap width constant |
| GapSpec.MoveToLineStart | code/gap_buffer.h:75-82 | move_to_line_start keeps the state well formed and the gap width constant |
| GapSpec.MoveToLineEnd | code/gap_buffer.h:84-88 | move_to_line_end keeps the gap width and stops at the buffer end or on a newline at the gap's left edge |
| GapProperties.AddCharacterInGap | code/gap_buffer.h:16-21 | with room in the gap, insertion appends the byte to the text before the cursor, keeps the text after it, and narrows the gap by one |
| GapProperties.AddCharacterIntoFullGap | code/gap_buffer.h:16-21 | with an empty gap, insertion still writes: the gap width becomes -1 and the byte shows twice, or is written past the end when `back == capacity` |
| GapProperties.OverrunWriteShowsTwice | code/gap_buffer.h:16-21 | the byte written into an empty gap is also the first byte of the text after the cursor |
| GapProperties.AddCharacterAfterOverrun | code/gap_buffer.h:16-21 | once the gap is overrun, insertion does nothing |
| GapProperties.DeleteCharacterDropsLast | code/gap_buffer.h:23-27 | deletion removes exactly the last byte before the cursor, and is a no-op at 0 |
| GapProperties.MoveLeftKeepsContent | code/gap_buffer.h:29-35 | from a state whose gap is not overrun, move_left keeps the text |
| GapProperties.MoveRightContent | code/gap_buffer.h:37-43 | from a state whose gap is not overrun, with `back` below the capacity, move_right puts the gap's left-edge byte before the cursor and drops the first byte after it; the text is kept if and only if the state is mirrored |
| GapProperties.MoveLeftSegments | code/gap_buffer.h:29-35 | from a state whose gap is not overrun, move_left moves the last byte before the cursor to the front of the text after it |
| GapProperties.MoveRightSegments | code/gap_buffer.h:37-43 | from a state whose gap is not overrun, with `back` below the capacity, move_right makes the text before the cursor gain the gap's left-edge byte and the text after it lose its first byte |
| GapProperties.MoveLeftThenRight | code/gap_buffer.h:29-43 | from a state whose gap is not overrun, with the cursor above 0, move_left then move_right restores cursor, back and text |
| GapProperties.MoveRightReadsPastStorage | code/gap_buffer.h:37-43 | from any well-formed state with `back == capacity - 1`, move_right takes `back` to the capacity and copies `data[capacity]`, the byte just past the storage, to the gap's left edge |
| GapProperties.MoveRightThenLeft | code/gap_buffer.h:29-43 | from a state whose gap is not overrun, with `back` below the capacity, move_right then move_left restores cursor and back, and the text if and only if the state was mirrored |
| GapProperties.ScanLeftKeepsContent | code/gap_buffer.h:47-50 | from a state whose gap is not overrun, the leftward scan keeps the text and leaves a mirrored state once it has moved |
| GapProperties.ScanRightKeepsContent | code/gap_buffer.h:67-69 | from a mirrored state whose gap is not overrun, the rightward scan keeps the text and the mirror |
| GapProperties.MoveRightKeepsMirror | code/gap_buffer.h:37-43 | from a mirrored state whose gap is not overrun, one move_right keeps the text and the mirror |
| GapProperties.RightTimesKeepsContent | code/gap_buffer.h:55-57 | from a mirrored state whose gap is not overrun, repeated move_right keeps the text and the mirror |
| GapProperties.MoveUpKeepsContent | code/gap_buffer.h:45-58 | from a state whose gap is not overrun, move_up keeps the text |
| GapProperties.MoveDownKeepsContent | code/gap_buffer.h:60-73 | from a state whose gap is not overrun, move_down keeps the text when the state is mirrored or its first scan moves |
| GapProperties.MoveToLineStartKeepsContent | code/gap_buffer.h:75-82 | from a state whose gap is not overrun, move_to_line_start keeps the text when the state is mirrored or its first scan moves |
| GapProperties.MoveToLineStartLands | code/gap_buffer.h:75-82 | from any well-formed state, overrun or not, move_to_line_start leaves the cursor at 0, just after a newline, or with nothing after it |
| GapProperties.MoveToLineEndLands | code/gap_buffer.h:84-88 | from a mirrored state whose gap is not overrun, move_to_line_end keeps the text and stops at its end or just before a newline |
| GapScenarios.TypeTwoLines | code/gap_buffer.h:16-21 | typing "ab\ncd" into an empty buffer leaves the cursor after the fifth byte with the bytes in place |
| GapScenarios.MoveUpOnTwoLines | code/gap_buffer.h:45-58 | move_up from the end of "ab\ncd" lands after "ab" and keeps the text |
| GapScenarios.ScanLeftOnTwoLines | code/gap_buffer.h:47-50 | the leftward scan from the end of "ab\ncd" takes three steps and stops before the newline |
| GapScenarios.LineStartAndEndOnTwoLines | code/gap_buffer.h:75-88 | line start and line end from the end of "ab\ncd" span "cd" |
| GapScenarios.MoveRightAfterInsertLosesByte | code/gap_buffer.h:37-43 | move_right right after a mid-text insertion turns "axbc" into "axcc" |
| GapScenarios.NewlineTypedAndDeleted | code/gap_buffer.h:16-35 | typing and deleting a newline mid-text leaves a stale newline at the gap's left edge |
| GapScenarios.LineStartAfterDeleteLosesByte | code/gap_buffer.h:75-82 | in that state move_to_line_start steps right at once and turns "abc" into "ab\n" |
| GapScenarios.OverrunPastTheEnd | code/gap_buffer.h:16-21 | a buffer of capacity 2 takes three bytes, the third past its storage, and drops the fourth |
| GapScenarios.MoveLeftAfterOverrun | code/gap_buffer.h:29-35 | from the overrun state with text "abc", move_left copies 'c' over 'b' and gives "acc" |
| GapScenarios.MoveRightAfterOverrun | code/gap_buffer.h:37-43 | from a mirrored state with text "abbbc" and a gap of width -1, move_right copies 'b' over 'c' and gives "abbbb" |
| GapScenarios.MoveUpAfterOverrun | code/gap_buffer.h:45-58 | from the same overrun state, move_up's leftward scan copies 'c' to the start and gives "ccc" |
| GapBuffers.GapBuffer.constructor | code/gap_buffer.h:8-14 | make_gap_buffer: cursor 0, back at capacity, an empty text over fresh storage |
| GapBuffers.GapBuffer.AddCharacter | code/gap_buffer.h:16-21 | the in-place insertion steps exactly as GapSpec.AddCharacter |
| GapBuffers.GapBuffer.DeleteCharacter | code/gap_buffer.h:23-27 | the in-place deletion steps exactly as GapSpec.DeleteCharacter |
| GapBuffers.GapBuffer.MoveLeft | code/gap_buffer.h:29-35 | the in-place move steps exactly as GapSpec.MoveLeft |
| GapBuffers.GapBuffer.MoveRight | code/gap_buffer.h:37-43 | the in-place move steps exactly as GapSpec.MoveRight |
| GapBuffers.GapBuffer.ScanLeft | code/gap_buffer.h:47-50 | the scan loop ends in GapSpec.ScanLeft's state and counts the column it crossed |
| GapBuffers.GapBuffer.ScanRight | code/gap_buffer.h:85-87 | the scan loop ends in GapSpec.ScanRight's state |
| GapBuffers.GapBuffer.RightTimes | code/gap_buffer.h:55-57 | the column loop ends in GapSpec.RightTimes's state |
| GapBuffers.GapBuffer.MoveUp | code/gap_buffer.h:45-58 | move_up's three loops end in GapSpec.MoveUp's state |
| GapBuffers.GapBuffer.MoveDown | code/gap_buffer.h:60-73 | move_down's three loops end in GapSpec.MoveDown's state |
| GapBuffers.GapBuffer.MoveToLineStart | code/gap_buffer.h:75-82 | ends in GapSpec.MoveToLineStart's state |
| GapBuffers.GapBuffer.MoveToLineEnd | code/gap_buffer.h:84-88 | ends in GapSpec.MoveToLineEnd's state |
| GapBuffers.GapBuffer.Traverse | code/gap_buffer.h:114-124 | draw_buffer visits exactly the text, front then back in index order, and the cursor's place is after the front |
| AtlasSpec.LookupFindsFirst | code/atlas.h:149-153 | the search misses exactly when no node holds the code point, and a hit is the first node holding it |
| AtlasSpec.LookupAfterPrepend | code/atlas.h:154-160 | after a miss prepends a node, the code point finds the new sprite and every other code point finds what it found before |
| AtlasSpec.PrependKeepsDistinct | code/atlas.h:149-159 | a node added after a failed search keeps the code points distinct and adds exactly its own |
| AtlasSpec.CacheHoldsAtMost256 | code/atlas.h:4-8 | with distinct U8 code points the list never exceeds 256 letters |
| AtlasSpec.Place | code/atlas.h:134-143 | max_height becomes the larger of itself and the glyph height and next_x advances by the width; when next_x passes the atlas width it becomes 0, next_y drops by max_height and max_height resets to 0 |
| AtlasSpec.PlaceAllOneRow | code/atlas.h:134-143 | glyphs of non-negative width that fit in the rest of the row sit side by side on it, and max_height is the tallest of them and the old maximum |
| AtlasSpec.PlaceAllStaysInside | code/atlas.h:134-143 | for glyphs of non-negative width, from a packing with 0 <= next_x <= width and max_height >= 0, any run of placements keeps next_x within the atlas width and max_height non-negative, and never raises next_y |
| AtlasSpec.FirstWrapFromTopIsFatal | code/atlas.h:138-144 | from next_y == 0 a wrap after a glyph of positive height makes next_y negative, which is fatal |
| AtlasSpec.TwoWideGlyphsInFreshAtlas | code/atlas.h:134-144 | two 60-wide glyphs in a 100-wide fresh atlas: the second wraps to next_y == -10 |
| Atlases.Letter.constructor | code/atlas.h:154-159 | a new node heads the list it links to |
| Atlases.Atlas.constructor | code/atlas.h:163-172 | make_atlas: no letters, no uploads, packing at the origin |
| Atlases.Atlas.CacheText | code/atlas.h:104-144 | cache_text uploads a region at the old position only for positive widths, advances the packing as Place says, and fails when next_y is negative |
| Atlases.Atlas.DrawLetter | code/atlas.h:148-161 | a hit returns the first matching node's sprite and changes nothing; a miss runs cache_text (one packing step, one upload when the glyph has width) and prepends one node for the code point; afterwards the code point finds the returned sprite, and the cache holds at most 256 letters |
| Atlases.DrawLetterTwice | code/atlas.h:148-161 | a second draw of a code point returns the same sprite as the first; across both draws the glyph is placed, uploaded and linked at most once, and not at all when it was already cached |
| Arenas.Align | code/arena.h:18-20 | align's result is below any non-zero alignment |
| Arenas.AndLowBits | code/arena.h:18-20 | masking with 2^k - 1 keeps the remainder modulo 2^k |
| Arenas.AlignIsRemainder | code/arena.h:18-20 | for an alignment 2^k, align is (offset + alignment - 1) mod 2^64 mod the alignment, not a round-up |
| Arenas.AlignByZero | code/arena.h:18-20 | an alignment of 0 masks with all ones and gives offset - 1, wrapping |
| Arenas.AlignDoesNotRoundUp | code/arena.h:18-20 | align(offset, 1) is 0, align(5, 4) is 0 and align(8, 4) is 3 |
| Arenas.Arena.Initialize | code/arena.h:8-16 | arena_initialize records the size with used and committed at 0; a failed reservation is fatal and writes nothing |
| Arenas.Arena.AllocateBytes | code/arena.h:22-40 | the block starts at align(size, alignment); an end past size is fatal; an end past committed asks for a commit at committed of length align(end - committed, 4096), fatal if it fails; no field is written |
| Arenas.Arena.Allocate | code/arena.h:42-43 | arena_allocate is arena_allocate_bytes with the type's size and alignment |
| Arenas.AllocateTwice | code/arena.h:28-30 | two successful allocations of one alignment return the same offset |
| Arenas.WrappedRequestPassesCheck | code/arena.h:28-31 | the bound check compares a wrapped end: a 2^64 - 1 byte request passes in an 8-byte arena |
| Arenas.CommitIsShorterThanAPage | code/arena.h:33-37 | every commit request is shorter than a page; a block ending 8192 bytes past committed asks for 4095 |
| Renderers.Admit | code/renderer.h:124-131 | draw_sprite appends while the count is below the limit and is a silent no-op at it; the count never exceeds the limit |
| Renderers.AdmitAllKeepsPrefix | code/renderer.h:124-131 | a run of draws keeps the old batch followed by the longest prefix of the run that fits |
| Renderers.Renderer.constructor | code/renderer.h:113-116 | make_renderer: the limit as given, count 0, an empty batch |
| Renderers.Renderer.DrawSprite | code/renderer.h:124-131 | the batch becomes Admit of the old batch; entries below the old count are not overwritten |
| Renderers.Renderer.DrawEnd | code/renderer.h:143-179 | without a drawable, no frame and the count kept; with one, a frame with one instanced draw of count sprites when count > 0, and the count reset to 0 |

## Left out

- Floating point. The atlas's packing fields and glyph measurements are
  F32 and CGFloat in the source; here they are reals, so rounding is not
  modelled.
- Sprite geometry: sizes, texture coordinates, `draw_character` offsets
  and line height, `draw_cursor`. These are float computations, and they
  use sprite fields that the source's `Sprite` struct does not declare.
  `Sprite` is an opaque type, and the sprite that `cache_text` builds is
  an input of `DrawLetter`.
- Atlases.Atlas.CacheText: CoreText, CoreGraphics and Metal calls are not
  modelled: measuring, drawing and uploading. The measurements are an
  input, and an upload is a log entry of its region.
- Atlases.Atlas.constructor: the bitmap, the font attributes, the bitmap
  context and the texture are not created. The fatal assertion on a
  missing context is not modelled.
- Renderers.Renderer.constructor: takes a non-negative limit. The
  source's `int` parameter is passed unchecked to the buffer allocation.
- Renderers.Renderer.DrawEnd: the GPU work beyond the instance count is
  not modelled: render pass, encoder, uniforms, presentation. Whether
  `nextDrawable` returns a drawable is a parameter.
- The dispatch semaphore and `draw_start` are not modelled. They only
  gate frames in flight.
- `mmap` and `mprotect` are operating-system calls. Their success is a
  parameter, and the range passed to `mprotect` is returned as a commit
  request. The arena's base address is not modelled; blocks are offsets.
- `arena_allocate_zeroed` is not part of this model.
- Storage from the arena. The gap buffer's bytes, the atlas and each
  letter node are fresh Dafny objects, not blocks carved from an arena.
  With the arena as written those blocks would overlap; that aliasing is
  not captured.
- GapBuffers.GapBuffer.constructor: the bytes just outside the storage
  are private to the buffer here. These are `data[capacity]`, which
  ordinary navigation to the buffer end reads, and `data[-1]` and
  `data[capacity + 1]`, which only an overrun reaches. In the source they
  belong to whatever memory lies next to the allocation.
- I64 overflow of `cursor`, `back` and `sprite_count` is not modelled.
  In every reachable state `-1 <= back` and `cursor <= capacity + 1`,
  and `0 <= sprite_count <= limit`.
- Window, layer, view and pipeline setup is not modelled.
