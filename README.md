# Motion-blending viewer core, modelled in Dafny

This project models the bookkeeping core of a skeletal-animation viewer. The
viewer blends two motion clips along an alignment path and plays them back.
Four parts are modelled:

- **The blend playback cursor** (`lerp_blender.dfy`, module `Blending`). A
  `LerpBlender` holds two motions, the alignment path from the distance map,
  and two unsigned path indices, `curFrame` and `lastFrame`. It also holds the
  interpolation window and the opaque global state and velocity control.
  - `ChangeFrame` moves the cursor the way the unsigned comparison in the
    source decides: in range, overshoot, or underflow.
  - `BlendFromBlend` chains into the next motion. It re-finds the cursor
    with a linear scan and carries the global state forward.
- **Quaternion algebra** (`quat.dfy`, module `Quaternions`), over exact
  reals. It covers the identity, Hamilton product, dot product, conjugate,
  unary minus, scaling, `lerp`, `nlerp`, `abs`, `operator+` and the sign
  test of `ideal_slerp`. The algebraic laws are proved.
- **Texture loading** (`texture.dfy`, module `Textures`).
  - The power-of-two size loop and the pad/no-pad size rule.
  - The bytes-per-pixel check for each colour type.
  - The flipped or GL-order row-pointer layout.
  - The in-place edge-replication padding of the texel array, with its
    nested `memcpy` loops.
  - The cache key and the cache's refusal to keep failed loads.

  The texel array's final contents are specified by `Texels`.
- **The browser controller** (`browse_mode.dfy`, module `Browsing`): motion
  switching with wrap-around, the SPACE speed cycle, the key toggles, the
  clock-to-frame feed into the blender, and the auto-advance chain.

`machine_int.dfy` (module `MachineInt`) models the C integer types and
their arithmetic explicitly. `unsigned int` arithmetic wraps modulo 2^32
(`Wrap`). A conversion to `int` keeps the low 32 bits as two's complement
(`ToInt32`). The file also holds the index arithmetic for row-major buffers.

External parts become parameters:
- the distance map (`Aligner`: two motions and a window length to a path);
- the blender's "first animation is done" test;
- `expf` in the blend weight;
- the square root in `normalize`;
- `slerp` itself;
- what libpng reports about a file (`PngFile`: header and rows);
- the contents of a freshly allocated, uninitialised buffer (`garbage`).
Floats are exact reals. The speed literals `0.5f`, `0.2f` and `0.1f` and
the scrub step `1.0f / 120.0f` become the reals they spell. The speed
comparisons in the SPACE handler compare a stored speed with the literal it
was set from, so they behave the same. The clock arithmetic (`elapsed_time *
play_speed + time`, `time += 1.0f / 120.0f`) rounds in the source and is
exact here.

Where the code and its comments disagree, the model follows the code:
- `blendFromBlend` scans the *old* blender's path for the new cursor,
  although its comment speaks of the new distance map
  (Library/LerpBlender.cpp:85-116). The controller keeps the code's
  behaviour; the cursor the comment describes is `ContinuationCursor` (see
  Findings).
- `ideal_slerp`'s comment says it flips the sign of `a`, but the code takes
  the conjugate (see Findings).
- When `pad` is set and `flip` is not, the padding loops treat buffer rows
  0 to h-1 as the image. The image was read into rows th-h to th-1.
  `Textures.PaddedUnflippedLosesFirstRow` shows a concrete case: one image
  row is overwritten and one garbage row stays in the texture
  (Graphics/Texture.cpp:151-179). This is what the code does. Which rows
  were intended is not evident, so the model keeps the code's behaviour and
  only documents it.

One behaviour of the code is reproduced and recorded without a claim about
intent. The constructor and `switch_motion` build a blender from the
current motion into the next one (Browser/BrowseMode.cpp:33, 116-119). The
next auto-advance moves to that next motion and calls `blendFromBlend`,
which starts from the old blender's "to" motion (Browser/BrowseMode.cpp:74-76,
Library/LerpBlender.cpp:83). The first auto-advance therefore blends a
motion into itself. `Browsing.BrowseMode.FirstAutoAdvanceBlendsIntoItself`
shows this right after the constructor.

## Model

| member | source | states |
|---|---|---|
| Quaternions.Identity | Vector/Quat.hpp:34-40 | the (0,0,0,1) that `clear()` stores is a unit quaternion |
| Quaternions.Multiply | Vector/Quat.hpp:100-112 | the Hamilton product; its laws are the IdentityNeutral, MultiplyNotCommutative, ConjugateOfProduct, ProductWithConjugate and ConjugateInverse rows |
| Quaternions.IdentityNeutral | Vector/Quat.hpp:34-40 | the (0,0,0,1) that `clear()` stores is a left and right identity of the Hamilton product |
| Quaternions.MultiplyNotCommutative | Vector/Quat.hpp:100-112 | the product follows Hamilton's convention and is not commutative: i times j is k, j times i is -k |
| Quaternions.NormSq | Vector/Quat.hpp:123 | the squared norm `normalize` tests is never negative |
| Quaternions.ConjugateOfProduct | Vector/Quat.hpp:100-112 | the conjugate of a product is the product of the conjugates in reverse order |
| Quaternions.ProductWithConjugate | Vector/Quat.hpp:100-118 | q times its conjugate (either order) is the real quaternion (0,0,0,dot(q,q)) |
| Quaternions.Dot | Vector/Quat.hpp:114-118 | the dot product of a quaternion with itself is its squared norm |
| Quaternions.DotProperties | Vector/Quat.hpp:114-118 | `dot` is symmetric and dot(q,q) is the squared norm, hence >= 0 |
| Quaternions.Normalize | Vector/Quat.hpp:120-142 | a zero-norm quaternion becomes the identity; otherwise scaling the result by the root of the norm gives back the input; either way the result is a unit quaternion |
| Quaternions.Conjugate | Vector/Quat.hpp:144-153 | the conjugate keeps the squared norm |
| Quaternions.ConjugateInverse | Vector/Quat.hpp:144-153 | for a unit quaternion the conjugate is the two-sided inverse under the Hamilton product |
| Quaternions.ConjugateInvolution | Vector/Quat.hpp:144-153 | conjugating twice gives back the quaternion |
| Quaternions.Minus | Vector/Quat.hpp:155-159 | unary minus is the conjugate, which differs from componentwise negation whenever w != 0 |
| Quaternions.LerpScalar | Vector/Quat.hpp:178-181 | each component u + (v - u) amt is the affine combination u (1 - amt) + v amt; amt 0 gives u and amt 1 gives v |
| Quaternions.Lerp | Vector/Quat.hpp:173-182 | amt 0 gives a, amt 1 gives b, and the result is the affine combination (1-amt)a + amt b, not renormalised |
| Quaternions.Nlerp | Vector/Quat.hpp:184-188 | a zero interpolant becomes the identity; otherwise the result times the root of the interpolant's norm is the interpolant; the result is always a unit quaternion |
| Quaternions.Abs | Vector/Quat.hpp:233-244 | all four components are negated exactly when w < 0, so the result has w >= 0 |
| Quaternions.AbsIdempotent | Vector/Quat.hpp:233-244 | `abs` is idempotent |
| Quaternions.Plus | Vector/Quat.hpp:246-257 | `operator+` is the componentwise sum of abs(a) and abs(b), with w >= 0 |
| Quaternions.PlusCommutative | Vector/Quat.hpp:246-257 | `operator+` is commutative |
| Quaternions.PlusIgnoresSign | Vector/Quat.hpp:246-257 | `operator+` cannot tell a from -a (when a.w != 0) |
| Quaternions.Scale | Vector/Quat.hpp:259-269 | scalar `operator*`; its laws are the ScaledNorm and ScaleInverse rows |
| Quaternions.ScaledNorm | Vector/Quat.hpp:259-269 | scaling by s multiplies the squared norm by s squared |
| Quaternions.ScaleInverse | Vector/Quat.hpp:259-269 | scaling by s and then by 1/s gives back the quaternion, for s != 0 |
| Quaternions.IdealSlerpStart | Vector/Quat.hpp:225-228 | the start point keeps the norm of a; it equals the sign-flipped start exactly when dot(a,b) >= 0 or a.w == 0; when a flip is due and a has non-zero real and vector parts it is neither a nor -a, so it is another rotation |
| Quaternions.IdealSlerp | Vector/Quat.hpp:220-231 | whenever dot(a,b) >= 0 or a.w == 0, `ideal_slerp` is slerp from the sign-flipped start |
| Quaternions.IdealSlerpMissesShortArc | Vector/Quat.hpp:223-228 | for the identity and its negation the start point still has a negative dot product with the end |
| Quaternions.IdealSlerpChangesRotation | Vector/Quat.hpp:225-228 | for a quarter turn and its negation the start point is neither a nor -a |
| Quaternions.ShortestArcStart | Vector/Quat.hpp:223-224 | the sign-flipped start is a or -a and has a non-negative dot product with b, equal to abs(dot(a,b)) |
| Quaternions.ShortestArcSlerp | Vector/Quat.hpp:220-231 | shortest-arc slerp starts from ShortestArcStart, and a and -a, the same rotation, give the same result whenever dot(a,b) != 0 |
| Blending.InterpFrames | Library/LerpBlender.cpp:36-37 | the window is the largest n with 4n no larger than either frame count |
| Blending.LerpBlender.constructor | Library/LerpBlender.cpp:19-45 | both motions are stored, the window comes from their frame counts, and the path comes from the distance map for that window; both cursors are 0 and the state and velocity control are cleared |
| Blending.LerpBlender.Copy | Library/LerpBlender.cpp:47-59 | every field is copied |
| Blending.LerpBlender.Assign | Library/LerpBlender.cpp:61-77 | every field is taken from the other blender; self-assignment changes nothing |
| Blending.FirstFromMatch | Library/LerpBlender.cpp:105-116 | the least index whose from-frame is the target, or the path length when there is none |
| Blending.OldPathScanSkipsFrame | Library/LerpBlender.cpp:85-116 | a concrete pair of paths where the scan of the old path lands one pair past the place in the new path that shows the frame the old blender was on |
| Blending.ContinuationCursor | Library/LerpBlender.cpp:85-90 | the cursor the comment describes: the first place in the new path whose from-frame is the old cursor's to-frame, found whenever the new path has one |
| Blending.LerpBlender.BlendFromBlend | Library/LerpBlender.cpp:79-126 | the new blender runs from the old "to" motion into m; its cursor is FirstFromMatch on the old path for the old cursor's to-frame; its last frame keeps the old cursor distance in unsigned arithmetic; the global state is carried over and the velocity control is cleared |
| Blending.StepFrame | Library/LerpBlender.cpp:128-150 | in range: moves by delta and remembers the old cursor; overshoot: (0,0) with the state cleared; underflow: the last pair, with last = n-1+delta in unsigned arithmetic; zero delta off the path: only last changes, to the cursor; an on-path cursor stays on the path; the state is cleared exactly when the unsigned sum leaves the path and delta != 0 |
| Blending.LerpBlender.ChangeFrame | Library/LerpBlender.cpp:128-150 | the cursor fields and the global state change as StepFrame says; nothing else changes |
| Blending.ClampWeight | Library/LerpBlender.cpp:168-172 | the weight is exp - 1, capped at 1 |
| Blending.LerpBlender.GetPose | Library/LerpBlender.cpp:163-202 | reads the pair at the cursor and at last_frame (both must be on the path); weight is ClampWeight of the exponential ramp, and weight + complement = 1 with the complement >= 0 |
| Textures.Pow2Ceil | Graphics/Texture.cpp:82-85 | a power of two at least w, and 1 or less than 2w |
| Textures.Pow2CeilIsLeast | Graphics/Texture.cpp:82-85 | no smaller power of two is at least w |
| Textures.RoundUpToPowerOfTwo | Graphics/Texture.cpp:82-85 | the doubling loop in unsigned arithmetic stops at Pow2Ceil(w) for w up to 2^31 |
| Textures.TextureDims | Graphics/Texture.cpp:82-95 | without padding the image size; with padding the least powers of two at least w and h; both fit in 32 bits |
| Textures.Channels | Graphics/Texture.cpp:106-130 | the channel count each colour type demands; its range is the ChannelsRange row |
| Textures.ChannelsRange | Graphics/Texture.cpp:106-130 | 1 to 4 bytes per pixel for each colour type the loader knows, 0 exactly for an unknown one |
| Textures.CheckFormat | Graphics/Texture.cpp:105-140 | accepted exactly when the colour type is known and rowbytes equals w times its channel count in unsigned arithmetic; pixelbytes is the whole number of w-byte blocks in rowbytes, which is the channel count without wrap-around; the GL format for each type |
| Textures.RowOf | Graphics/Texture.cpp:143-158 | image row i goes into buffer row i when flipped, th-1-i otherwise; always a buffer row |
| Textures.RowOfBijective | Graphics/Texture.cpp:143-158 | the row mapping is its own inverse on [0, th) and injective |
| Textures.FillRowPointers | Graphics/Texture.cpp:142-158 | both loops give row pointer i the byte offset RowOf(i) * tw * pixelbytes |
| Textures.ReadImage | Graphics/Texture.cpp:159 | after the read, every buffer row that received an image row holds it and every other byte is unchanged (AfterRead) |
| Textures.ReadAtPixel | Graphics/Texture.cpp:143-159 | byte j of buffer row R after the read is byte j of image row RowOf(R) where there is one |
| Textures.PadColumns | Graphics/Texture.cpp:166-173 | the nested copy loops leave the buffer equal to PadColumnsUpTo for all h rows |
| Textures.PadColumnStep | Graphics/Texture.cpp:171 | one `memcpy` copies pixel w-1 of row r to pixel c and changes nothing else |
| Textures.PadColumnAtPixel | Graphics/Texture.cpp:167-173 | pixel (R, C) after the column padding is pixel (R, w-1) when R and C lie in the padded part, else unchanged |
| Textures.PadRows | Graphics/Texture.cpp:174-178 | the copy loop leaves the buffer equal to PadRowsUpTo for rows h to th-1 |
| Textures.PadRowStep | Graphics/Texture.cpp:177 | one `memcpy` copies row h-1 to row r and changes nothing else |
| Textures.PadRowAtPixel | Graphics/Texture.cpp:175-178 | byte j of row R after the row padding is byte j of row h-1 for R >= h, else unchanged |
| Textures.PaddedColumnPixel | Graphics/Texture.cpp:166-173 | after the column padding, pixel (R, C) of an image row is pixel (R, C) with C clamped to w-1 |
| Textures.PaddedRow | Graphics/Texture.cpp:174-178 | after the row padding, byte j of row R is byte j of row R clamped to h-1 |
| Textures.PaddedPixel | Graphics/Texture.cpp:164-179 | after both paddings, pixel (r, c) is the original pixel at r and c clamped to h-1 and w-1: unchanged inside the image, column w-1 to the right, row h-1 below |
| Textures.FlippedReadPixel | Graphics/Texture.cpp:143-159 | with flip, pixel (r, c) of every image row is read into buffer row r at pixel c |
| Textures.FlippedTexels | Graphics/Texture.cpp:143-179 | with flip (and padding, or an exact-size texture) texel (r, c) is image pixel (r, c), clamped to the image |
| Textures.UnflippedTexels | Graphics/Texture.cpp:151-159 | without flip and without padding, texture row r holds image row h-1-r |
| Textures.ExampleRead | Graphics/Texture.cpp:151-159 | without flip, three one-byte rows read into a four-row buffer give rows 0, 30, 20, 10 |
| Textures.ExampleColumns | Graphics/Texture.cpp:166-173 | a one-pixel-wide buffer is left alone by the column padding |
| Textures.ExampleRows | Graphics/Texture.cpp:174-178 | the row padding copies row 2 over row 3, giving 0, 30, 20, 20 |
| Textures.PaddedUnflippedLosesFirstRow | Graphics/Texture.cpp:151-179 | with padding but without flip, a 1x3 image in a 1x4 texture comes out as garbage, rows 2, 1, 1: image row 0 is lost |
| Textures.LoadBuffer | Graphics/Texture.cpp:139-179 | the buffer is fresh and its contents are Texels: the rows read into an uninitialised buffer, then padded when asked |
| Textures.PerPixel | Graphics/Texture.cpp:139 | the bytes per pixel are the unsigned quotient of rowbytes by w: p whole blocks of w bytes fit in rowbytes and p + 1 do not |
| Textures.PerPixelExact | Graphics/Texture.cpp:139-140 | when w * k does not wrap, a row of w * k bytes has exactly k bytes per pixel |
| Textures.LoadBufferSizes | Graphics/Texture.cpp:105-141 | after the format check pixelbytes is the channel count, pixelbytes * w == rowbytes, and the texture is at least the image size |
| Textures.CachedTexture.constructor | Graphics/Texture.cpp:15-23 | all fields are zero, then `reload()` runs: loaded exactly when the file loads, with the texture Upload describes |
| Textures.CachedTexture.Reload | Graphics/Texture.cpp:36-203 | without the .png suffix or a readable header nothing changes; once the header is read the sizes are set even if the load then fails; loaded and the GL texture change only on a complete load |
| Textures.HasPngSuffix | Graphics/Texture.cpp:42 | the `.png` suffix test; its meaning is the PngSuffixIsExtension row |
| Textures.PngSuffixIsExtension | Graphics/Texture.cpp:42 | a name passes the `.png` test exactly when it is a stem followed by ".png" |
| Textures.CacheKey | Graphics/Texture.cpp:207-210 | "texture:", then '1'/'0' for pad and flip, then the file name |
| Textures.CacheKeyInjective | Graphics/Texture.cpp:207-210 | different (pad, flip, file name) triples give different keys |
| Textures.TextureCache.GetTexture | Graphics/Texture.cpp:205-231 | a cached texture is returned without touching the cache or reading the file; a non-texture item gives none; an uncached file that fails to load gives none and adds nothing; one that loads is added under its key and returned |
| Browsing.SwitchIndex | Browser/BrowseMode.cpp:105-112 | always a valid index; moves by delta in range; from the last index +1 gives 0; from 0, -1 gives the last index |
| Browsing.AdvanceIndex | Browser/BrowseMode.cpp:74 | the next index, back to 0 after the last; always a valid index |
| Browsing.NextPlaySpeed | Browser/BrowseMode.cpp:158-165 | SPACE takes the speed 1 to 0.5, 0.5 to 0.2, 0.2 to 0.1 and 0.1 to 0; every other speed, 0 included, goes to 1 |
| Browsing.PlaySpeedCycle | Browser/BrowseMode.cpp:158-165 | each speed of the cycle returns after exactly five SPACE presses and not sooner |
| Browsing.PlaySpeedPeriodic | Browser/BrowseMode.cpp:158-165 | from any starting speed, after the first press the speed repeats every five presses |
| Browsing.AdvanceClock | Browser/BrowseMode.cpp:63-64 | the clock becomes elapsed * speed + time, clamped below at 0 |
| Browsing.FrameAt | Browser/BrowseMode.cpp:66 | the frame is the whole number of timesteps in the clock |
| Browsing.FrameDelta | Browser/BrowseMode.cpp:67 | the step passed to changeFrame is new_frame - frame when that fits in an int |
| Browsing.FrameDeltaLands | Browser/BrowseMode.cpp:66-68 | in unsigned arithmetic the step always takes the old frame to the new one |
| Browsing.ControlKey | Browser/BrowseMode.cpp:126-165 | TAB flips tracking, `a` flips auto-advance, ESC sets quit, RIGHT/LEFT move the clock by ±1/120 only when paused, SPACE advances the speed; no key touches the motion index or the frame |
| Browsing.TogglesAreInvolutions | Browser/BrowseMode.cpp:126-133 | pressing TAB or `a` twice restores the controls |
| Browsing.ScrubRoundTrip | Browser/BrowseMode.cpp:146-157 | while paused RIGHT and LEFT undo each other; while playing they do nothing |
| Browsing.QuitAndSpeed | Browser/BrowseMode.cpp:134-165 | ESC is idempotent; only SPACE changes the speed |
| Browsing.BrowseMode.constructor | Browser/BrowseMode.cpp:31-45 | a fresh blender from motion 0 into motion 1; auto-advance on, tracking off, speed 1, time and frame 0 |
| Browsing.BrowseMode.SwitchMotion | Browser/BrowseMode.cpp:89-120 | the index moves as SwitchIndex says; time and frame reset to 0; the blender is overwritten by a fresh one over motions cur and (cur+1) % count, so the global state is cleared |
| Browsing.BrowseMode.HandleEvent | Browser/BrowseMode.cpp:122-165 | PAGE UP / PAGE DOWN switch motion by +1 / -1 and leave a fresh blender over motions cur and cur+1, stated field by field as in SwitchMotion; every other key acts as ControlKey and leaves the blender alone; other events change nothing |
| Browsing.BrowseMode.AutoAdvance | Browser/BrowseMode.cpp:70-77 | when auto-advance is on and the blend is over, the index advances and the blender becomes BlendFromBlend of itself into the next motion; otherwise nothing changes |
| Browsing.BrowseMode.FirstAutoAdvanceBlendsIntoItself | Browser/BrowseMode.cpp:70-76 | right after the constructor, an auto-advance leaves a blender from motion 1 into motion 1 |
| Browsing.BrowseMode.Update | Browser/BrowseMode.cpp:51-79 | a zero-frame motion changes nothing; otherwise the clock and frame advance, the blender steps as StepFrame says by FrameDelta, and when auto-advance is on and the blender is done, the index advances and the blender becomes BlendFromBlend of the stepped blender |

## Left out

- Trigonometry and square roots.
  - `slerp`'s acos/sin weights, both `rotation` overloads, `rotate` and `get_yaw_angle` are floating-point code (Vector/Quat.hpp:52-97, 161-171, 190-216, 279-284).
  - `slerp` is a parameter of `IdealSlerp`.
- The templated `operator=` of `Quat` converts between float and double; over reals it is the identity, so it has no member. `operator<<` is output.
- Quaternions.Normalize, Quaternions.Nlerp: the square root is not computed. The caller supplies it as `root`; the contracts require it to be the positive root of the squared norm.
- Floating point: NaN, infinities and rounding are not modelled. All float arithmetic is exact real arithmetic.
- Blending.LerpBlender.GetPose: covers only the two path reads and the weight clamp. The pose sampling, per-bone slerp, root handling and the velocity-control and global-state updates are pose work outside this model (Library/LerpBlender.cpp:165-166, 176-220), so the method changes no field.
- The distance map and `firstAnimationIsDone` are not part of this model. They are function parameters; the completion test sees the blender's from motion, its path and its cursor.
- Browsing.BrowseMode.Update: stops before `getPose` and the camera tracking (Browser/BrowseMode.cpp:79-86). It requires the cursor to be on the path whenever the motion has frames, because `blendFromBlend` and `getPose` read the path at the cursor unguarded. The zero-frame error message is output.
- Browsing.FrameAt: a frame count beyond the unsigned range, which C leaves undefined, is modelled as wrap-around. The contract states the truncation only when the count fits.
- Browsing.SwitchIndex: the "before the start" case is stated only for libraries of at most 2^32 - 2^15 motions. For larger ones a short delta can wrap into a valid index.
- Browsing.ScrubRoundTrip: RIGHT then LEFT restores the clock only in exact arithmetic; in 32-bit floats `(t + 1/120) - 1/120` need not equal `t` (Browser/BrowseMode.cpp:146-157).
- The `d`-key CSV dump, mouse rotate/pan/zoom, `draw` and the text overlay are file output, camera maths and OpenGL.
- BrowseMode's `quit_flag` belongs to a base class that is not part of this model. It starts false here.
- libpng and stdio. Opening the file, allocating libpng's structures, the `setjmp` error path and the palette/packing/16-bit transforms are summed up in a `PngFile` value. The same goes for the rows libpng delivers.
- The non-power-of-two warning (Graphics/Texture.cpp:89-92) is output. The GL calls, the upload and the mipmap setup are recorded only as the `GlTexture` value.
- Textures.CachedTexture.Reload: requires `Acceptable`. That means the products w*k and th*tw*k fit in 32 bits and libpng's rows have the header's shape; the model does not describe wrapped sizes.
- Textures.CachedTexture.Reload: a reload that succeeds again generates a new GL texture without deleting the old one. The model just replaces `obj`.
- Textures.LoadBuffer: allocates th * (tw * pixelbytes) bytes rather than (th * tw) * pixelbytes. The two are the same number.
- The cache's own storage, reference counting and the texture's destructor are represented by a `map` from keys to items.

## Findings

| source | as written | input that shows it | evidently intended | confidence | as-written member | corrected member |
|---|---|---|---|---|---|---|
| Vector/Quat.hpp:223-228 | when dot(a,b) < 0, `a` is replaced by `conjugate(a)` | a = (0,0,0,1), b = (0,0,0,-1): the start stays (0,0,0,1) and its dot product with b is still -1; a = (0,0,1,1), b = (0,0,-1,-1): the start becomes (0,0,-1,1), a different rotation | negate all four components ("flip the sign"), which gives the same rotation with a non-negative dot product, so the shorter arc is taken | high (not executed) | Quaternions.IdealSlerpMissesShortArc | Quaternions.ShortestArcSlerp |
| Library/LerpBlender.cpp:105-116 | the new cursor is the first index of the *old* path whose from-frame equals the old cursor's to-frame | old path [(0,5),(5,6)] at cursor 0, new path [(5,0),(6,1)]: the scan stops at index 1, where the new path shows frame 6, not frame 5 | scan the new path, as the comment at :85-90 says, so the new blender starts at the frame the old one was showing | high (not executed) | Blending.OldPathScanSkipsFrame | Blending.ContinuationCursor |
