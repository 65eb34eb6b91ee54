# ufo3000 core, modelled in Dafny

ufo3000 is a small Rust framework on top of winit and wgpu. This project models the parts of
it that hold program logic rather than calls into the graphics API, and proves what they do.

- **Input tracking** (`ufo3000_core/src/input.rs`, modules `Input` and `InputLemmas`).
  - Every key and mouse button runs a three-state machine: `Pressed`, `Down` and `Released`. A missing entry means idle.
  - An `InputCache` collects window events during a frame. `pre_update` then reconciles it once per frame: it advances the clock, turns presses into holds and evicts releases.
  - A `KeyboardManager` turns the held time of registered keys into a repeat trigger.
  - The classes `MouseButtons`, `InputCache` and `KeyboardManager` keep the source's fields and update them in place. Each method is proved against a function on values:
    - `InputCache` methods against `OnEvent` and `Reconcile` on the abstract state `CacheState`;
    - `MouseButtons` methods against `OnButton` and `ReconcileSlot` on the slot values `MouseSlots`;
    - `KeyboardManager.TestKey` against `TriggerStep` on a key's `Trigger`.
  - The object invariant `Valid` says the stored timestamps agree with the clock. Every mutator keeps it. `InputCache.StartedBeforeNow` uses it: no key or button reports a press later than `get_time`.
- **Vertex buffer layout** (`create_vb_descriptor` in `ufo3000_core/src/render_object.rs` and its verbatim copy in `ufo3000_core/src/misc.rs`, modules `RenderObject` and `Misc`).
  - The loop assigns each format a shader location and an offset, and sums the sizes into the stride.
  - It is proved equal to a prefix-sum specification.
- **`clamp` and `convert`** (`ufo3000_core/src/misc.rs`, module `Misc`).
  - `convert` splits a byte buffer into whole elements and drops any trailing partial element.
- **Texture bytes** (`ufo3000_core/src/texture.rs`, module `Texture`).
  - The bits-per-pixel guard of `create_from_bytes`.
  - Its RGB to BGRA widening loop.
  - The choice of the uploaded buffer.
  - The sizes and row pitches of `to_vec` and `create_texture_array`.
- **Bit helpers** (`misc_stuff/src/bit.rs`, module `Bit`): `zero_bit`, `one_bit` and `swap_bit` on 32-bit words.

Other conventions:
- `Common` holds `Option`, `Result` and the `byte` type.
- `Events` holds the window events the tracker consumes.
- Panics of the source become error results:
  - a second release gives `Failure(AlreadyReleased)`;
  - an unsupported vertex format gives `Failure(Unimplemented(f))` or `Failure(DoubleFormatsDisabled(f))`;
  - an unsupported pixel size gives `Failure(UnsupportedBitsPerPixel(bpp))`.
- Two behaviours of the code worth noting:
  - A release event for a key with no entry inserts `Pressed(time_now)`, exactly as a press does (`input.rs:356-364`).
  - Released mouse slots are cleared in the same `pre_update` that evicts released keys (`input.rs:270-272`).

## Model

| member | source | states |
|---|---|---|
| Input.Transition | ufo3000_core/src/input.rs:19-80 | A release of a released state is the fatal fault and nothing else is. Otherwise the new state is stamped `now`. It is Released exactly for a release event and Pressed exactly when restarting from Released. The start time survives from Pressed or Down. |
| Input.ButtonSlot | ufo3000_core/src/input.rs:334-340 | Buttons other than left, middle and right are always idle. |
| Input.UpdateSlot | ufo3000_core/src/input.rs:113-121 | An idle slot becomes `Pressed(now)` for either event. An occupied slot makes its `Transition`. A fault comes only from a double release. |
| Input.OnButton | ufo3000_core/src/input.rs:110-150 | Other buttons change nothing. The named slot takes its updated value. Every other slot is unchanged. A fault occurs exactly when the slot's update faults. |
| Input.KeyStateOf | ufo3000_core/src/input.rs:326-331 | `None` exactly for keys without an entry, else the stored state. |
| Input.MouseDeltaOf | ufo3000_core/src/input.rs:252-255 | Zero unless the cursor moved this frame, else the stored delta. |
| Input.OnKeyboard | ufo3000_core/src/input.rs:343-368 | An event without a key code changes nothing. A fault occurs exactly for a release of a released entry. Only that key's entry changes. A new key is inserted as `Pressed(time_now)` for either event, and an existing entry makes its `Transition`. |
| Input.OnCursorMoved | ufo3000_core/src/input.rs:378-389 | Marks the frame moved and records the position. The delta is new minus old, and the first sample leaves the delta as it was. Nothing else changes. |
| Input.OnEvent | ufo3000_core/src/input.rs:312-324 | Only key and mouse events can fault. Wheel and other events change nothing. Keyboard, buttons and clock change only through their own events. Enter and leave set `inside`, and leave zeroes the delta. |
| Input.AgeKey | ufo3000_core/src/input.rs:298-305 | Pressed becomes `Down(start, now)`. Down adds `now` to its second field. Released is kept and the start time never changes. |
| Input.ReconcileKeyboard | ufo3000_core/src/input.rs:298-308 | Exactly the entries that were not Released remain, all Down with their start times. A Pressed key's second field is `now`, and a Down key's is its old value plus `now`. |
| Input.ReconcileSlot | ufo3000_core/src/input.rs:270-295 | A slot is idle after the passes exactly when it was idle or Released. Otherwise it is `Down(start, now)`. |
| Input.Reconcile | ufo3000_core/src/input.rs:259-309 | Clears the moved flag, sets `time_now` to `now` and `time_delta` to the elapsed time, and keeps the cursor. The keyboard and every button slot are reconciled. |
| Input.ReconcileKeepsClocked | ufo3000_core/src/input.rs:259-309 | Reconciling with a clock that does not run backwards keeps every stored timestamp consistent with the clock. |
| Input.ClockedStatesStartedBeforeNow | ufo3000_core/src/input.rs:326-341 | Under the invariant, a key's reported start is no later than the clock. A button's start and latest stamp are also no later than the clock. |
| Input.MouseButtons.Init | ufo3000_core/src/input.rs:101-107 | All three buttons start idle. |
| Input.MouseButtons.Update | ufo3000_core/src/input.rs:110-150 | The slots become `OnButton` of the old slots. A double release reports failure and changes nothing. |
| Input.MouseButtons.Reconcile | ufo3000_core/src/input.rs:270-295 | The three in-place passes leave each slot at `ReconcileSlot` of its old value. |
| Input.MouseButtons.Get | ufo3000_core/src/input.rs:153-165 | The named button's slot. Other buttons are idle. |
| Input.InputCache.Init | ufo3000_core/src/input.rs:222-239 | A fresh cache satisfies the invariant and equals the initial state: no keys, idle buttons, no cursor, clock at zero. |
| Input.InputCache.GetTime | ufo3000_core/src/input.rs:242-244 | The clock of the abstract state. |
| Input.InputCache.GetTimeDelta | ufo3000_core/src/input.rs:247-249 | The last frame's elapsed time. |
| Input.InputCache.GetMouseDelta | ufo3000_core/src/input.rs:252-255 | Agrees with `MouseDeltaOf`. |
| Input.InputCache.KeyState | ufo3000_core/src/input.rs:326-331 | Agrees with `KeyStateOf`. |
| Input.InputCache.MouseButtonState | ufo3000_core/src/input.rs:334-341 | Agrees with `ButtonSlot`. |
| Input.InputCache.StartedBeforeNow | ufo3000_core/src/input.rs:326-341 | In a valid cache, `key_state` and `mouse_button_state` never report a press later than `get_time`. |
| Input.InputCache.PreUpdate | ufo3000_core/src/input.rs:259-309 | The new state is `Reconcile` of the old one, and the invariant is kept. |
| Input.InputCache.ReconcileKeys | ufo3000_core/src/input.rs:298-308 | The in-place `iter_mut` pass followed by `retain` leaves the map equal to `ReconcileKeyboard` of the old map. |
| Input.InputCache.Update | ufo3000_core/src/input.rs:312-324 | Reports failure exactly when `OnEvent` faults. On success the new state is `OnEvent` of the old one, and on failure nothing changes. The invariant is kept. |
| Input.InputCache.TrackKeyboard | ufo3000_core/src/input.rs:343-368 | The same, with `OnKeyboard`. |
| Input.InputCache.TrackMouseButton | ufo3000_core/src/input.rs:370-372 | The same, with the mouse event. |
| Input.InputCache.TrackCursorMovement | ufo3000_core/src/input.rs:378-389 | The new state is `OnCursorMoved`, and the invariant is kept. |
| Input.InputCache.TrackCursorEnter | ufo3000_core/src/input.rs:391-397 | Only `inside` changes, to true. |
| Input.InputCache.TrackCursorLeave | ufo3000_core/src/input.rs:399-406 | Only `inside` changes (to false) and the delta (to zero). |
| Input.TriggerStep | ufo3000_core/src/input.rs:429-448 | Fires exactly for a held key whose accumulated time passes the threshold. For a held key, the overshoot is kept: new total plus threshold-if-fired equals old total plus delta. A press restarts the accumulator at the delta and a release zeroes it. An idle key changes nothing. |
| Input.KeyboardManager.Init | ufo3000_core/src/input.rs:414-418 | No key is registered. |
| Input.KeyboardManager.RegisterKey | ufo3000_core/src/input.rs:420-422 | The key is (re)registered with an empty accumulator and its threshold. |
| Input.KeyboardManager.TestKey | ufo3000_core/src/input.rs:424-451 | An unregistered key never fires and changes nothing. A registered key advances by `TriggerStep` with the cache's key state and the frame time in milliseconds. |
| InputLemmas.OnEventKeepsClocked | ufo3000_core/src/input.rs:312-406 | No event breaks the timestamp invariant. |
| InputLemmas.ReconcileLeavesOnlyHeld | ufo3000_core/src/input.rs:259-309 | After `pre_update` every key left is Down with its start kept, and only keys that were Released are gone. Every button is idle or `Down(start, now)`. |
| InputLemmas.IdleKeyStaysIdleInBatch | ufo3000_core/src/input.rs:343-368 | Events that never name a key leave an idle key idle. |
| InputLemmas.IdleKeyStaysIdle | ufo3000_core/src/input.rs:259-368 | The same across any number of frames and reconciliations. |
| InputLemmas.DoubleReleaseOfKeyIsFatal | ufo3000_core/src/input.rs:54-80 | Press, release, release of one key within a frame is the fatal fault, whatever the key's earlier state. |
| InputLemmas.DoubleReleaseOfButtonIsFatal | ufo3000_core/src/input.rs:110-150 | The same for each of the three tracked buttons. |
| InputLemmas.PressIsHeldAfterReconcile | ufo3000_core/src/input.rs:298-308 | A new press is `Down(press time, now)` after the next `pre_update`. |
| InputLemmas.TapIsIdleAfterReconcile | ufo3000_core/src/input.rs:259-309 | A key or button pressed and released within one frame is idle after the next `pre_update`. |
| InputLemmas.HeldKeyAccumulatesHeldButtonReplaces | ufo3000_core/src/input.rs:287-303 | Over two reconciliations a held key's second field grows by both clock readings, while a held button's is the latest reading. |
| InputLemmas.KeyStampPassesClock | ufo3000_core/src/input.rs:298-303 | Concretely, a key held through two frames carries a stamp past the clock (30 against 20), and a button does not. |
| InputLemmas.NoDeltaAfterReconcile | ufo3000_core/src/input.rs:252-261 | A frame without movement reports a zero delta. |
| InputLemmas.DeltaOfMoves | ufo3000_core/src/input.rs:378-389 | Two moves report their difference. The first move of all reports zero. |
| InputLemmas.LeaveZeroesDelta | ufo3000_core/src/input.rs:399-406 | Leaving zeroes the reported delta even in a frame where the cursor moved. |
| InputLemmas.CursorScenario | ufo3000_core/src/input.rs:378-389 | Moving to (5,5), reconciling, then moving to (8,5) reports (3,0). |
| InputLemmas.HeldRunConserves | ufo3000_core/src/input.rs:436-443 | Over any run of held frames, the final accumulator plus threshold times firings equals the initial accumulator plus the frame times. |
| InputLemmas.RepeatScenario | ufo3000_core/src/input.rs:436-443 | Threshold 100 with five held frames of 50 fires twice and keeps 50. |
| InputLemmas.LongFrameFiresOnce | ufo3000_core/src/input.rs:436-443 | One call fires at most once: a 250 ms frame against 100 leaves 150. |
| RenderObject.FormatSize | ufo3000_core/src/render_object.rs:280-316 | Half formats are unimplemented and double formats are rejected, and no other format fails. Sizes are even and between 2 and 16 bytes. |
| RenderObject.CreateVbDescriptor | ufo3000_core/src/render_object.rs:275-328 | The loop's result equals the layout specification `VbLayout`. |
| RenderObject.FailurePersists | ufo3000_core/src/render_object.rs:297-315 | Once a prefix is rejected, the whole list is rejected with that error. |
| RenderObject.VbLayoutIsPrefixSums | ufo3000_core/src/render_object.rs:275-328 | A layout exists exactly when every format is supported. It then has one attribute per format. Attribute `i` has the format, shader location `i`, and the size of the earlier formats as offset. The stride is the total size. |
| RenderObject.VbLayoutReportsFirstRejected | ufo3000_core/src/render_object.rs:279-316 | A rejected list reports the error of its first unsupported format. |
| RenderObject.SizeSumGrows | ufo3000_core/src/render_object.rs:317-324 | Each format adds at least two bytes. |
| RenderObject.OffsetsIncrease | ufo3000_core/src/render_object.rs:317-324 | Offsets strictly increase and all lie below the stride. |
| RenderObject.SizeTable | ufo3000_core/src/render_object.rs:281-310 | Sample sizes from the table, and the empty layout. |
| Misc.CreateVbDescriptor | ufo3000_core/src/misc.rs:36-89 | The copy computes the same layout specification. |
| Misc.Clamp | ufo3000_core/src/misc.rs:92-96 | As written, the result is at least `min` and is `min` at or below it. For `min < max`, above `min` it returns `val` unchanged, even beyond `max`. With `max <= min` it always returns `min`. |
| Misc.ClampIgnoresUpperBound | ufo3000_core/src/misc.rs:92-96 | Clamping 5 to [0, 1] gives 5. |
| Misc.ClampIntended | ufo3000_core/src/misc.rs:92-96 | The corrected clamp lies in `[min, max]`, is the identity inside the range and saturates at each end. |
| Misc.ClampAgreesBelowMax | ufo3000_core/src/misc.rs:92-96 | Below `max` the two agree. |
| Misc.Convert | ufo3000_core/src/misc.rs:20-26 | One element per whole chunk: the length is the byte count divided by the element size. |
| Misc.ConvertAt | ufo3000_core/src/misc.rs:21-24 | Element `k` is the decoding of bytes `k*size` to `k*size+size`. |
| Misc.ConvertDropsPartialChunk | ufo3000_core/src/misc.rs:21-24 | Trailing bytes shorter than an element do not change the result. |
| Misc.ConvertFlattenRoundTrip | ufo3000_core/src/misc.rs:20-26 | Converting the bytes of encoded values gives the values back. |
| Texture.Expanded | ufo3000_core/src/texture.rs:110-121 | Four bytes per pixel. For pixel `i`, out[4i] = in[3i+2], out[4i+1] = in[3i+1] and out[4i+2] = in[3i], and alpha out[4i+3] is 255. |
| Texture.ExpandRgb | ufo3000_core/src/texture.rs:110-121 | The push loop builds `Expanded` of the whole pixels, `4 * (len / 3)` bytes. |
| Texture.StripAlpha | ufo3000_core/src/texture.rs:110-121 | The inverse reordering produces three bytes per pixel. |
| Texture.StripAlphaUndoesExpansion | ufo3000_core/src/texture.rs:110-121 | Widening then stripping gives back the RGB bytes. |
| Texture.PrepareUpload | ufo3000_core/src/texture.rs:99-155 | Fails exactly when bits per pixel is neither 3 nor 4. For 3 it uploads the widened pixels and for 4 the decoded buffer unchanged. The upload always has `4 * width * height` bytes, as the layout's pitch times rows requires. |
| Texture.UploadLayout | ufo3000_core/src/texture.rs:156-160 | Row pitch `4 * width` and `height` rows. |
| Texture.UploadFits | ufo3000_core/src/texture.rs:122-160 | The one-layer upload is a valid copy and reads exactly the `4 * width * height` bytes prepared. |
| Texture.ReadbackSize | ufo3000_core/src/texture.rs:320 | Four bytes per texel of the whole texture. |
| Texture.ReadbackLayout | ufo3000_core/src/texture.rs:340-344 | As written: row pitch `4 * width`, and rows per image equal to the depth. |
| Texture.ReadbackLayoutIntended | ufo3000_core/src/texture.rs:340-344 | Corrected: rows per image equal to the height. |
| Texture.ReadbackIntendedFits | ufo3000_core/src/texture.rs:318-351 | With the corrected layout the copy is valid and needs exactly the staging size. |
| Texture.ReadbackLayoutMismatch | ufo3000_core/src/texture.rs:340-350 | As written, a 1x2x3 texture needs 32 bytes of a 24-byte buffer. A 1x3x2 texture and a one-layer 1x2 texture have fewer rows per image than their height. |
| Texture.ReadbackAsWrittenFitsExactly | ufo3000_core/src/texture.rs:318-351 | Exactly when the layout as written is valid. For a texture at least one texel wide, that is when its depth equals its height, or it is one layer with no rows. |
| Texture.ReadbackElementCount | ufo3000_core/src/texture.rs:318-362 | Reading the staging buffer back as 4-byte elements yields one element per texel. |
| Texture.TextureArrayExtent | ufo3000_core/src/texture.rs:386-394 | Width is the element count, and height and depth are 1. |
| Texture.TextureArrayLayout | ufo3000_core/src/texture.rs:414-419 | One row of `size_of::<T>() * count` bytes. |
| Texture.TextureArrayCoversData | ufo3000_core/src/texture.rs:386-419 | The copy is valid and reads exactly the bytes of the element list. |
| Bit.ZeroBit | misc_stuff/src/bit.rs:2-4 | Bit `i` of the result is clear. |
| Bit.OneBit | misc_stuff/src/bit.rs:7-9 | Bit `i` of the result is set. |
| Bit.SwapBit | misc_stuff/src/bit.rs:12-14 | Bit `i` of the result is the opposite of `n`'s. |
| Bit.AgreeOutside | misc_stuff/src/bit.rs:2-14 | Words equal outside bit `i` have the same bit `j` for every `j` other than `i`. |
| Bit.ZeroBitKeepsOthers | misc_stuff/src/bit.rs:2-4 | Outside bit `i` the result equals `n`. |
| Bit.OneBitKeepsOthers | misc_stuff/src/bit.rs:7-9 | Outside bit `i` the result equals `n`. |
| Bit.SwapBitKeepsOthers | misc_stuff/src/bit.rs:12-14 | Outside bit `i` the result equals `n`. |
| Bit.SwapBitTwice | misc_stuff/src/bit.rs:12-14 | Flipping twice gives `n` back. |
| Bit.ZeroOneIdempotent | misc_stuff/src/bit.rs:2-9 | Clearing twice equals clearing once, and setting twice equals setting once. |
| Bit.ZeroAfterOne | misc_stuff/src/bit.rs:2-9 | `zero_bit(one_bit(n, i), i) == zero_bit(n, i)`. |
| Bit.ZeroBitExamples | misc_stuff/src/lib.rs:10-14 | Clearing bit 7 of 0x02300080 gives 0x02300000. Clearing bit 8 changes nothing. |

## Left out

- The winit event loop, the wgpu device, queue, texture, sampler and buffer calls, the PNG decoder and logging are not modelled. The model starts from their results: decoded pixels, the staging bytes, and the window events.
- The monotonic clock `instant::Instant` becomes the parameter `now` of `PreUpdate`. `PreUpdate` requires `now >= time_now`, which a monotonic clock guarantees. The source's unsigned subtraction would fail otherwise.
- Integer widths are not modelled:
  - timestamps are `u128` in the source and `nat` here;
  - offsets and strides are `u64`;
  - texture sizes are `u32`, where `width * height * depth * 4` could overflow for huge textures.
- Cursor positions and deltas are `f64` in the source and integers here.
- The `test_key` accumulator is `f64` in the source and `real` here, so there is no rounding and no NaN.
- `Misc.Clamp` is over `real`, so NaN inputs are not modelled.
- `scroll_delta` and `track_mouse_wheel` are not modelled beyond the dispatch. The field is never read and the handler does nothing, so a wheel event leaves the state unchanged.
- `InputState::update` both overwrites the state and returns a copy. The model's `Transition` yields the one value that is both stored and returned. The placeholders that `std::mem::replace` leaves behind (`Pressed(666)` on the press path, `Pressed(777)` on the release path) are always overwritten, except on the release path just before its panic.
- Input.InputCache.Update: a double release panics and ends the process. The model instead reports `ok == false` and leaves the state unchanged. That is weaker than the source only in that the model can continue after the fault.
- Misc.Convert: `bytemuck::try_from_bytes` is abstracted as a per-chunk function `decode`, so alignment panics and native endianness are not modelled. The element size is a parameter (`size_of::<T>()`).
- Texture.PrepareUpload: the decoded frame is an input whose length the caller guarantees to be `width * bpp * height`, which is the buffer the source allocates.
- Texture.RequiredBytes and Texture.LayoutFits follow the linear texture data rules of the WebGPU specification for uncompressed formats, with `rows_per_image` always given, as every copy in texture.rs gives it. Block sizes, the buffer offset and the 256-byte row alignment the API also demands are not modelled.
- The `input_debug` and `texture_debug` logging branches are not modelled.

## Findings

| source | as written | input that shows it | evidently intended | confidence | as-written member | corrected member |
|---|---|---|---|---|---|---|
| ufo3000_core/src/misc.rs:92-96 | `clamp` computes the capped value `result` but returns `val` when `result > min` | `clamp(5.0, 0.0, 1.0)` returns 5.0 | return `result`, so the value lies in `[min, max]` | high, not executed | Misc.ClampIgnoresUpperBound | Misc.ClampIntended |
| ufo3000_core/src/texture.rs:343 | `to_vec` copies with `rows_per_image = depth`, which, apart from textures with no rows or no columns, is a valid copy only when the depth equals the height | a 1x2x3 texture: the copy needs 32 bytes of the 24-byte staging buffer. A 1x3x2 texture, and a one-layer 1x2 texture, have `rows_per_image` below their height. | `rows_per_image = height`, as `create_from_bytes` uses at texture.rs:159 | medium, not executed | Texture.ReadbackLayoutMismatch | Texture.ReadbackIntendedFits |
