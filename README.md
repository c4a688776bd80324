# Particle cloud from a glTF model: verified model of the position merge

This project models `createParticlesFromGLTF` in `src/star.js`, the helper
that turns a loaded glTF scene into a point cloud. It works in four steps:

1. While the scene is traversed, it collects the `array` of every node whose
   geometry has a `position` attribute, in visiting order.
2. It throws if no node had one.
3. It sets `maxCount` to the largest `length / 3` over the collected buffers
   and allocates a zero-filled `Float32Array` of `maxCount * 3` floats.
   The division is in floating point, so `maxCount` may be fractional.
4. It copies buffer `i` into that array at offset `i * length`, using the
   buffer's own length and not a running sum. A buffer whose copy would run
   past the end is skipped. A per-vertex size array of `maxCount` entries
   follows.

Files:

- `wrappers.dfy`: `Option` and `Result`.
- `star_spec.dfy` (module `StarSpec`): scene nodes as values, the collected
  buffer list (`Positions`), the lengths (`MaxLength`, `MaxCount`), the
  typed-array length conversion (`ToIndex`), the guard (`Offset`, `Fits`,
  `Covers`) and a cell-by-cell definition of the merged buffer (`CellAfter`, `Merged`). Cell `k` holds the value from the
  last buffer that passes the guard and covers `k`, or 0 if there is none.
  The lemmas about these definitions are in the same file.
- `star.dfy` (module `Star`): the imperative operations.
  - `CollectPositions` is the push loop.
  - `MergePositions` allocates an `array<real>` and fills it in place, one
    guarded block copy per buffer. Its loop invariant ties the array to
    `CellAfter` for the buffers processed so far.
  - `CreateParticlesFromGLTF` strings the steps together with the empty-input error.

The traversal itself (`gltf.scene.traverse`) is three.js code. The model takes
its result as input: the sequence of scene nodes in the order they are visited.
Position values are `real`. The random point sizes come in through a
parameter `sizeDraw`: slot `v` receives `sizeDraw(v)`.

Behaviour that follows from the code and that the lemmas make explicit:

- Shorter buffers are not padded. Cells that no buffer writes stay 0, because
  the typed array starts zero-filled.
- The first buffer always fits.
- A longest buffer that is not first and not empty never fits, so it is dropped.
- When all buffers have the same length, the result is exactly buffer 0.
- Buffers may have any length. When the longest length is not a multiple
  of 3, `maxCount` is fractional. A typed-array constructor converts its
  length with ECMAScript's ToIndex, which truncates toward zero. So the
  merged buffer still gets the longest length, the size array gets the
  whole number of vertices, and no error is raised. The model states this
  with `ToIndex` and a fractional `MaxCount` of type `real`.

## Model

| member | source | states |
|---|---|---|
| `Star.CollectPositions` | src/star.js:228-233 | the list built by the traversal callback is `Positions(nodes)`: one entry per node with a position attribute, in visiting order |
| `StarSpec.ContributorsAreExactlyPositioned` | src/star.js:229-232 | a node contributes a buffer if and only if it has a geometry with a position attribute (both directions) |
| `StarSpec.ContributorsAscending` | src/star.js:229-232 | contributing nodes appear in strictly increasing traversal position, so the order is kept |
| `StarSpec.PositionsFollowContributors` | src/star.js:228-233 | the j-th collected buffer is the position array of the j-th contributing node, and there are no others |
| `StarSpec.NoPositionsIffNoPositionAttribute` | src/star.js:235-237 | nothing is collected exactly when no visited node has a position attribute |
| `StarSpec.MaxLength` | src/star.js:239 | the result is the length of some buffer and at least the length of every buffer |
| `StarSpec.MaxCount` | src/star.js:239 | `maxCount` is the maximum of `length / 3` (real division, possibly fractional) over the buffers: it is at least every buffer's value and equal to one of them |
| `StarSpec.ToIndex` | src/star.js:240 | a typed-array length truncates toward zero: the result is the whole number `r` with `r <= x < r + 1` |
| `StarSpec.TypedArrayLengths` | src/star.js:239-240 | `new Float32Array(maxCount * 3)` gets the longest buffer's length, and `new Float32Array(maxCount)` gets that length divided by 3, rounded down |
| `StarSpec.Merged` | src/star.js:240 | the merged buffer has the longest buffer's length |
| `StarSpec.LastCoveringBufferWins` | src/star.js:242-252 | buffers are applied in index order: a cell holds the value of the last buffer that passes the guard and covers it |
| `StarSpec.UncoveredCellStaysZero` | src/star.js:240 | a cell that no guarded copy covers keeps the typed array's initial 0 |
| `StarSpec.SkippedBufferHasNoEffect` | src/star.js:247-251 | a buffer that fails the guard changes no cell: the result equals that of an empty buffer in its place |
| `StarSpec.FirstBufferFits` | src/star.js:239-248 | buffer 0 has offset 0 and always passes the guard |
| `StarSpec.FirstBufferCopied` | src/star.js:242-248 | every cell of buffer 0 that no later buffer overwrites holds buffer 0's value |
| `StarSpec.EqualLengthsMergeToFirst` | src/star.js:239-252 | if all buffers have the same length, no later non-empty buffer fits, and the merged buffer equals buffer 0 |
| `StarSpec.LongestLaterBufferDropped` | src/star.js:244-251 | a non-empty longest buffer at index above 0 always fails the guard |
| `StarSpec.ShorterSecondBufferOverwrites` | src/star.js:242-252 | example: merging `[1..6]` and then `[7,8,9]` gives `[1,2,3,7,8,9]`, because the second buffer lands at offset 3 |
| `StarSpec.LongerSecondBufferSkipped` | src/star.js:240-252 | example: merging `[1,2,3]` and then `[4..9]` gives `[1,2,3,0,0,0]`, because the second buffer is skipped and the tail stays 0 |
| `StarSpec.FractionalCountSingleBuffer` | src/star.js:239-257 | example: a single buffer of 4 values gives `maxCount = 4/3`, a merged buffer equal to that buffer, and 1 size slot |
| `Star.MergePositions` | src/star.js:239-252 | a freshly allocated array of `ToIndex(maxCount * 3)` cells, which is the longest length. After the in-place guarded copies its contents are `Merged(positions)`. Every write of a guarded copy is proved to fall inside the array |
| `Star.CreateParticlesFromGLTF` | src/star.js:227-258 | fails with `NoPositionGeometry` exactly when no node has a position attribute, and succeeds otherwise. On success, the position attribute is `Merged(Positions(nodes))`, with `ToIndex(maxCount * 3)` cells, the longest length. The size attribute has `ToIndex(maxCount)` entries, the longest length divided by 3 and rounded down, and slot `v` holds the v-th size draw |

## Left out

- `createPlaneWithParticles` (src/star.js:152-219): asynchronous glTF/Draco loading, creating three.js meshes and groups, and adding them to the scene. This is I/O and foreign library code.
- `gltf.scene.traverse`: three.js's depth-first walk. The model's input is the sequence of visited nodes.
- The GLSL shader sources and material settings (src/star.js:166-191, 260-286): floating-point work done on the GPU.
- `Star.CreateParticlesFromGLTF`: the size values `Math.random() * 5 + 3` come from the caller-supplied `sizeDraw`. The model states neither their range nor their float32 rounding.
- `StarSpec.MaxCount`: computed in exact `real` arithmetic. The rounding of the source's double division `length / 3` and product `maxCount * 3` is not modelled, and neither is the `RangeError` for a length too large to allocate.
- `new Float32Array(pos)` (src/star.js:243) is treated as an exact copy. Rounding to float32 is not modelled.
- `console.warn` for a skipped buffer (src/star.js:250) and `console.log` on load (src/star.js:141): logging only.
- The commented-out earlier versions (src/star.js:1-136): dead code.
- `src/main.js`: configuration of the graph viewer with sample data. It imports functions that are commented out in `src/star.js`.
- `src/star copy.js`: a stand-alone cube scene with no logic.
