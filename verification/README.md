# Verified model of the audio tap, the renderer and the device protocols

This project models the parts of the repository where a mistake is hardest to
see in a test, and proves what the code and its comments promise about them.

- **PCM tap ring** (`Tap*.dfy`). A lock-free ring in a shared file, one writer and
  any number of readers. The writer is a state machine whose step is one store,
  its death between any two stores, or its rebirth on the file it left behind; the
  reader is the code itself, method by method, with any number of writer steps
  between any two of its loads. Proved: no torn read, the invariant over every
  run, the record walk as a direct lookup in the flat sample history, and the
  handshake that gives the file its single writer.
- **Renderer** (`SwitchState.dfy`, `PresetManager.dfy`, `Renderer.dfy`). The classes
  that decide which preset plays, when a switch happens and which frame is shown,
  with arbitrary warm-up outcomes, GPU resets, commands, flips, verdicts and
  shuffles. Proved over whole runs: no frame is rendered or submitted with a preset
  the photosensitivity filter excludes or one that hung the GPU, buffers are
  conserved, recovery ends.
- **Cost guard** (`CostGuard.dfy`), **ALSA byte ring** (`ByteRing.dfy`), **artwork
  files** (`ArtworkStore.dfy`): classes with the source's fields and their invariants.
- **Text** (`Utf8.dfy`, `Json.dfy`, `JsonParser.dfy`, `JsonEscape.dfy`, `JsonDocs.dfy`,
  `JsonValues.dfy`, `Protocol.dfy`, `Events.dfy`, `LineBuffer.dfy`): the UTF-8 recogniser and sanitiser, the JSON parser as
  a class that advances a position and what it makes of any document, escaping against
  parsing, the event lines and the command lines. A string's characters stand for bytes.
- **CEC helper** (`CecPort.dfy`): frames cut out of any sequence of reads.
- **Tuya beacon** (`Crc8.dfy`, `Xxtea.dfy`, `TuyaP2.dfy`, `TuyaDp.dfy`): CRC-8, XXTEA, the P2
  frame and its data points.

`dafny verify dfyconfig.toml` checks the whole project.

How the files are built. Code that changes state step by step is a class with the
source's fields, or a method with the source's loop; each such method is proved
against a specification function, and the promises are lemmas about that function.
Where something is decided outside the code (a read, a flip, an ioctl, the clock),
the model takes any value.

## Where the code and its comments differ

- `pcm_tap.h` promises the frames that play at the target time. The code counts at
  most 100 s back from a chunk's end and takes a longer step between chunks as a gap,
  so on an exact, gap-free epoch the promise holds for every query if and only if no
  chunk is over 100 s long (`TapFlat.WalkIsDirectIffNoneLong`). A chunk is never longer
  than the ring, so a ring of at most 100 s at the stream's rate always keeps the promise
  (`TapPromise.ShortRingIsExact`): the default of 65536 frames misses it only below
  656 Hz.
- `parse_p2_frame` masks the two low header bits out of the CRC, so a frame changed
  there alone still parses, to the same result (`TuyaP2.AlteredFrameIsRejected` gives both
  sides).
- A data point with id 0 encodes, but ends the list for the decoder: encoding and
  decoding give the same list if and only if no id is 0 (`TuyaDp.DecodeInvertsEncode`).
- `ArtworkStore::stage` leaves an unused file behind when it fails to rewrite the
  slot's own pending image, and that image is neither shown nor pending in another
  slot; in every other case the directory stays exact (`Artwork.ArtworkStore.Stage`).
  Staging an image twice, the second write failing, does it (`Artwork.FailedRewriteLeaks`).
- `parse_p2_frame` reads the first 26 bytes and ignores any that follow.

## Model

| member | source | states |
|---|---|---|
| TapProtocol.StepKeepsInv | c_src/sendspin_player/src/pcm_tap_writer.h:117-148 | every single store of `commit` and `set_format`, a kill between any two of them and a reopen keep the ring invariant; no counter, `seq` or epoch ever decreases and history only grows |
| TapProtocol.RunKeepsInv | c_src/sendspin_player/src/pcm_tap_writer.h:172-212 | the invariant holds at every moment of every run from a fresh file, with any number of kills and reopens |
| TapProtocol.ReopenKeepsInv | c_src/sendspin_player/src/pcm_tap_writer.h:178-192 | the reuse path restores the invariant from whatever a dead writer left: torn samples and records belong to no published chunk |
| TapProtocol.EvenSeqNamesOneFormat | c_src/sendspin_player/src/pcm_tap_writer.h:205-212 | over any run, two moments with the same even `seq` have the same epoch and rate |
| TapProtocol.AbandonedStaysOlder | c_src/sendspin_player/src/pcm_tap.h:285-294 | a record slot left by a dead writer carries an older epoch than the header once a chunk is published behind it, so the walk stops there |
| TapReader.Tap.LoadRecord | c_src/sendspin_player/src/pcm_tap.h:240-244 | a record copied field by field, with the writer running before and between the four loads, is the published one unless its slot has been reserved again |
| TapReader.Tap.Older | c_src/sendspin_player/src/pcm_tap.h:285-294 | the next older record of the epoch, or whether the history is known to end here, unless overwritten meanwhile |
| TapReader.Tap.SearchBack | c_src/sendspin_player/src/pcm_tap.h:303-309 | the search ends at the oldest record of the epoch that ends at or after the target, whatever the writer did |
| TapReader.Tap.WalkBackFrom | c_src/sendspin_player/src/pcm_tap.h:337-347 | the walk back ends where the window is covered, or where the epoch or a gap begins |
| TapReader.Tap.Settled | c_src/sendspin_player/src/pcm_tap.h:271-279 | true means the format has not changed and neither the records from `oldest` nor the frames from `first` were reserved again when the last copy was made; false means one of them was |
| TapReader.Tap.CopyFrames | c_src/sendspin_player/src/pcm_tap.h:365-374 | the slots copied, once around the end of the ring, are the committed frames, each unless it is being overwritten |
| TapReader.Tap.Read | c_src/sendspin_player/src/pcm_tap.h:253-363 | in every interleaving: `Ok` means zeros followed by exactly the committed frames first..end that the lookup names, in the one epoch and rate that were current; `NoData` means an impossible length, a moment since the first load with no stream or nothing published, or that the lookup finds nothing; `Retry` means the format changed or the writer reserved over the oldest record the lookup consults or over the window |
| TapReader.SnapshotIsWhole | c_src/sendspin_player/src/pcm_tap.h:266-279 | what a settled read saw of an epoch is published whole, contiguous and in the history |
| TapReader.AnswerIsPublished | c_src/sendspin_player/src/pcm_tap.h:347-363 | every frame of an answer belongs to a chunk published whole in the epoch reported |
| TapReader.IdleRetryIsTooOld | c_src/sendspin_player/src/pcm_tap.h:271-279 | with the writer idle and no commit cut short, a read is retried only when the window's oldest frame is more than F behind `frames_reserved` |
| TapPromise.QuietViewIsCurrent | c_src/sendspin_player/src/pcm_tap.h:266-279 | a reader during which the header does not change sees exactly the published history and the current format |
| TapPromise.QuietReadIsLookup | c_src/sendspin_player/src/pcm_tap.h:253-363 | such a read, no commit having been cut short, answers from the history as it stands: the lookup's frames after the padding, `NoData` exactly when it finds none, `Retry` exactly when the window starts more than a ring behind `frames_reserved` |
| TapPromise.QuietReadIsFlat | c_src/sendspin_player/src/pcm_tap.h:193-203 | on an exact epoch that answer is the flat lookup of the history |
| TapPromise.ShortRingIsExact | c_src/sendspin_player/src/pcm_tap.h:247-251 | a ring of at most 100 s at the stream's rate never holds a longer chunk, so every gap-free epoch on it is exact |
| TapLookup.FoundIsOneEpoch | c_src/sendspin_player/src/pcm_tap.h:296-350 | a found window ends in, or just after, a record of the epoch, is at most as long as asked, and every frame of it belongs to a record of that epoch |
| TapFlat.LookupIsFlat | c_src/sendspin_player/src/pcm_tap.h:296-355 | on an exact epoch the search, lag and walk over records are one direct lookup in the flat history |
| TapFlat.ReadEndsNearTarget | c_src/sendspin_player/src/pcm_tap.h:193-203 | a found window ends within half a frame of the target time and is padded only before the epoch's first frame |
| TapFlat.WalkIsDirectIffNoneLong | c_src/sendspin_player/src/pcm_tap.h:247-251 | on a gap-free epoch the walk is the direct lookup for every query if and only if no chunk is over 100 s |
| TapFlat.LongChunkIsMisplaced | c_src/sendspin_player/src/pcm_tap.h:313-316 | a query that the 100 s limit on the lag answers with other frames |
| TapFlat.LongChunkCutsWindow | c_src/sendspin_player/src/pcm_tap.h:339-346 | a query whose window the 100 s limit on gaps cuts short |
| TapWriter.Commit | c_src/sendspin_player/src/pcm_tap_writer.h:117-148 | run store by store to its end: appends the newest frames that fit and one record, in a new epoch exactly when the stream or rate changed |
| TapWriter.BeginStream | c_src/sendspin_player/src/pcm_tap_writer.h:105-112 | one new epoch at the new rate, `seq` up by two, history untouched |
| TapWriter.Reopen | c_src/sendspin_player/src/pcm_tap_writer.h:172-192 | wherever the last writer died: counters go on from the reserved ones, the record ring is as it was, and each of its slots and each record of the history is of an older epoch than the new one |
| TapHandshake.UsedWriterIsSafe | c_src/sendspin_player/src/alsa_pipe_sink.cpp:277-291 | in every interleaving of `with_tap` and `set_pcm_tap`, the writer in use exists and is not being ended |
| TapHandshake.FreeingIsSafe | c_src/sendspin_player/src/alsa_pipe_sink.cpp:277-283 | no writer is freed while the playback thread stores through it |
| TapHandshake.OneWriterPerFile | c_src/sendspin_player/src/main.cpp:536-556 | with `handle_pcm_tap` the ring file never has two writers |
| TapHandshake.UnguardedHasTwoWriters | c_src/sendspin_player/src/main.cpp:542-545 | without its check for an enabled tap it can |
| Switching.SwitchState.Request | c_src/milkdrop_renderer/src/switch_state.h:20-26 | a command never replaces an eject or a retry, and never ends the holding of frames |
| Switching.SwitchState.Hang | c_src/milkdrop_renderer/src/switch_state.h:32-38 | frames are held until a cut to another preset |
| Presets.PresetManager.EligibleCount | c_src/milkdrop_renderer/src/preset_manager.cpp:23-27 | the size of the eligible set; zero exactly when nothing may play |
| Presets.PresetManager.RefillBag | c_src/milkdrop_renderer/src/preset_manager.cpp:35-54 | a refill holds every eligible preset exactly once and does not begin with the current one unless it is alone |
| Presets.PresetManager.Draw | c_src/milkdrop_renderer/src/preset_manager.cpp:56-65 | terminates; the last eligible preset of the bag, those behind it dropped, or with none eligible the first of a new round that holds every eligible one; none exactly when nothing is eligible |
| Presets.PresetManager.Rotate | c_src/milkdrop_renderer/src/preset_manager.cpp:98-103 | in runs of start, rotate, skip and filter changes a pick repeats the current preset only when it is the sole eligible one |
| Presets.PresetManager.PushHistory | c_src/milkdrop_renderer/src/preset_manager.cpp:67-73 | the forward part goes, what was played stays in order up to the limit, the cursor is at the new end |
| Presets.PresetManager.Next | c_src/milkdrop_renderer/src/preset_manager.cpp:105-115 | the first eligible later history entry, else the next one the bag deals |
| Presets.PresetManager.Prev | c_src/milkdrop_renderer/src/preset_manager.cpp:117-126 | the newest eligible earlier entry, or nothing exactly when there is none |
| Presets.PresetManager.Start | c_src/milkdrop_renderer/src/preset_manager.cpp:75-96 | locked on the first entry of that name exactly when it is eligible, else a random one, with the reason |
| Presets.PresetManager.SetHighFrequency | c_src/milkdrop_renderer/src/preset_manager.cpp:134-139 | the filter is in force, the bag is dealt anew, and the answer says whether an excluded preset is on screen |
| Presets.PresetManager.CutTarget | c_src/milkdrop_renderer/src/preset_manager.cpp:168-171 | always an eligible preset when there is one; the one showing if it is eligible itself, else the next one the bag deals |
| Renderer.App.WarmUp | c_src/milkdrop_renderer/src/main.cpp:365-447 | a candidate's off-screen frame shows nothing excluded or hung; an activated one holds the transition slot even when it fails |
| Renderer.App.TryCandidates | c_src/milkdrop_renderer/src/preset_selection.cpp:5-19 | each failure skips a preset not skipped before; at most a batch of them; exactly a batch when eligible ones remain |
| Renderer.App.SwitchTo | c_src/milkdrop_renderer/src/main.cpp:449-492 | deferred means exactly a batch of new skips, exhausted that nothing is eligible; otherwise an eligible preset is showing, blended only if allowed |
| Renderer.App.CheckGpuResets | c_src/milkdrop_renderer/src/main.cpp:524-545 | a reset blamed on the preset showing skips it, drops its waiting frame and holds all frames |
| Renderer.App.GuardHighFrequency | c_src/milkdrop_renderer/src/main.cpp:555-563 | while an excluded preset is on screen no frame waits and a switch is due |
| Renderer.App.PickNext | c_src/milkdrop_renderer/src/main.cpp:565-585 | what the pending switch plays: nothing exactly for none or a `prev` with nothing eligible earlier and nothing excluded on screen; `next` and `prev` the nearest eligible history entry on their side; a cut the one showing if it may stay; anything else the bag's next |
| Renderer.App.ApplySwitch | c_src/milkdrop_renderer/src/main.cpp:565-596 | afterwards nothing excluded or held is on screen, or a retry is due with a batch fewer presets, or the exit is decided |
| Renderer.App.RenderFrame | c_src/milkdrop_renderer/src/main.cpp:600-641 | the frame drawn shows exactly what is on screen, in the state it is drawn in; its buffer is locked as the one waiting, or given back and the exit decided |
| Renderer.App.Land | c_src/milkdrop_renderer/src/main.cpp:643-647 | the frame before is given back only once its replacement is on screen |
| Renderer.App.SubmitQueued | c_src/milkdrop_renderer/src/main.cpp:687-697 | at most one flip in flight, and only of the waiting frame; a refusal decides the exit |
| Renderer.App.PresentStep | c_src/milkdrop_renderer/src/main.cpp:680-712 | a round submits and renders nothing past an overdue flip; with a free buffer a frame waits unless none may be rendered |
| Renderer.App.RecoverStep | c_src/milkdrop_renderer/src/switch_state.h:88-95 | a round of recovery ends the holding, decides the exit, or leaves fewer presets; a waiting take runs only after a replacement |
| Renderer.App.RecoverFully | c_src/milkdrop_renderer/src/switch_state.h:88-95 | repeated rounds end |
| Renderer.App.TakeDisplay | c_src/milkdrop_renderer/src/main.cpp:716-752 | with frames held a take only waits; otherwise it cuts away from excluded presets first and terminates; the pending switch is untouched unless such a cut was due, and then it is made, put off or the exit decided |
| Renderer.App.HandOver | c_src/milkdrop_renderer/src/main.cpp:732-745 | the waiting frame becomes the one on screen and all buffers left from before are given back |
| Renderer.App.LeaveOnScreen | c_src/milkdrop_renderer/src/main.cpp:770-779 | what the display may still scan out stays locked, the waiting frame does not |
| Renderer.App.HandleCommand | c_src/milkdrop_renderer/src/main.cpp:787-810 | no command drops a pending eject, but for a take that itself makes the switch away from an excluded preset, puts it off or decides the exit; none lets a held frame through; once high_frequency presets are off, no frame that shows one is waiting |
| Renderer.App.Round | c_src/milkdrop_renderer/src/poll_round.h:1-26 | the flip is dispatched only while awaited; a GPU reset logged when the round began is known to its commands and its step: no frame rendered or submitted in the round shows the preset that hung |
| Renderer.App.Run | c_src/milkdrop_renderer/src/main.cpp:899-955 | over every run: each frame rendered or submitted is free of presets excluded or hung at that moment, failed attempts never exceed the entries, and every buffer locked has been given back |
| Renderer.App.Teardown | c_src/milkdrop_renderer/src/main.cpp:1031-1035 | each remaining buffer is released exactly once |
| Guard.CostGuard.constructor | c_src/milkdrop_renderer/src/cost_guard.cpp:7-15 | every configuration gives a ladder that satisfies the invariant |
| Guard.CostGuard.ReachableFrom | c_src/milkdrop_renderer/src/cost_guard.cpp:36-39 | the first reachable level from there, or none |
| Guard.CostGuard.ClampToFloor | c_src/milkdrop_renderer/src/cost_guard.cpp:41-44 | the first level whose rung the thermal floor allows, or the last |
| Guard.CostGuard.SomeIsReachable | c_src/milkdrop_renderer/src/cost_guard.cpp:17-34 | however high the minimum, some level can present it |
| Guard.CostGuard.UnreachableFromHere | c_src/milkdrop_renderer/src/cost_guard.cpp:119-122 | below a level that cannot present the minimum none can, and the start interval is 1 |
| Guard.CostGuard.Begin | c_src/milkdrop_renderer/src/cost_guard.cpp:46-63 | measuring starts at the settled level or the hint, past what the floor forbids and what cannot be presented |
| FlipRate.OneHitchIsDropped | c_src/milkdrop_renderer/src/cost_guard.cpp:81-91 | the measured rate is at least that of the other flips, whichever flip is set aside and however long it took |
| Guard.CostGuard.WindowRate | c_src/milkdrop_renderer/src/cost_guard.cpp:81-91 | the mean without the single worst flip |
| Guard.CostGuard.OnFlip | c_src/milkdrop_renderer/src/cost_guard.cpp:65-109 | a verdict exactly at the end of a full measurable window; it passes whenever all flips but one hold the minimum; else the next reachable level, else a skip |
| Guard.CostGuard.SetMinFps | c_src/milkdrop_renderer/src/cost_guard.cpp:111-123 | skips exactly when the current level cannot present the new minimum; then none below can, and never with a start interval of 2 or more |
| Guard.CostGuard.SetRungFloor | c_src/milkdrop_renderer/src/cost_guard.cpp:125-134 | the first level the new floor allows |
| Guard.CostGuard.Measure | c_src/milkdrop_renderer/src/cost_guard.h:66-93 | in any sequence of flips, commands and thermal changes a preset gets at most levels - 1 step-downs, and its rung is never above the floor |
| AlsaRing.ByteRing.Append | c_src/sendspin_player/src/alsa_pipe_sink.cpp:332-340 | the two copies append the chunk to the contents, in order |
| AlsaRing.ByteRing.Take | c_src/sendspin_player/src/alsa_pipe_sink.cpp:384-408 | up to a period of whole frames, the oldest, leave the contents in order |
| AlsaRing.ByteRing.Write | c_src/sendspin_player/src/alsa_pipe_sink.cpp:297-346 | whole frames only, whatever takes, clears and stops happen while it waits; the bytes accepted since the last clear are those of the data; all of them unless the deadline or a stop came first |
| AlsaRing.ByteRing.TakenIsPrefix | c_src/sendspin_player/src/alsa_pipe_sink.cpp:384-408 | between clears, what was taken is what was accepted first, and the rest is in the ring |
| AlsaRing.ByteRing.HeadFollows | c_src/sendspin_player/src/alsa_pipe_sink.cpp:338-339 | head = (tail + used) mod capacity throughout |
| RingWindow.WrittenExtendsWindow | c_src/sendspin_player/src/alsa_pipe_sink.cpp:332-339 | a write that wraps around extends the ring's contents by exactly the chunk |
| RingWindow.WindowSplits | c_src/sendspin_player/src/alsa_pipe_sink.cpp:400-407 | contents are the bytes taken followed by the contents left |
| Frames.ChunkIsWhole | c_src/sendspin_player/src/alsa_pipe_sink.cpp:317-323 | a chunk is a whole number of frames within the data and the space, and zero only if either is short of a frame, even when the capacity is no multiple |
| Artwork.ArtworkStore.Stage | c_src/sendspin_player/src/artwork_store.cpp:50-78 | everything shown or pending exists on disk; the directory stays exactly those files unless a failed rewrite of an image nobody else wants leaves it behind |
| Artwork.FailedRewriteLeaks | c_src/sendspin_player/src/artwork_store.cpp:50-78 | a run from an empty store, for any path, after which the directory holds a file that is neither shown nor pending |
| Artwork.ArtworkStore.Take | c_src/sendspin_player/src/artwork_store.cpp:80-94 | the image becomes the most recent of at most `keep` distinct files; those that fall out go unless pending again |
| Artwork.ArtworkStore.Evict | c_src/sendspin_player/src/artwork_store.cpp:88-92 | the oldest shown files beyond `keep`, and no others, are removed |
| CecFraming.ParseInPieces | deps_local/circuits_cec/c_src/cec_port.c:251-263 | the frames of a stream do not depend on where reads cut it, and a bad length stays bad |
| CecFraming.WireAppends | deps_local/circuits_cec/c_src/cec_port.c:127-140 | what is sent is read back by the same framing, one frame more each time |
| CecHelper.Port.HandleRequest | deps_local/circuits_cec/c_src/cec_port.c:167-231 | one answer with the request's own id: EINVAL for a wrong size, ENOSYS for an unknown tag, else the device's struct or errno |
| CecHelper.Port.ProcessStdin | deps_local/circuits_cec/c_src/cec_port.c:234-264 | every complete frame is handled, room for another byte always remains, and the exit is EOF, I/O or protocol exactly when it should be |
| CecHelper.Port.Serve | deps_local/circuits_cec/c_src/cec_port.c:234-264 | for every chunking of a stream the same requests are handled and the same exit is taken |
| LineSplitting.JoinInvertsSplit | c_src/milkdrop_renderer/src/protocol.h:46-65 | the lines and the unfinished tail are the bytes again, and none holds a newline |
| LineReader.LineBuffer.FeedByte | c_src/milkdrop_renderer/src/protocol.h:47-64 | the buffer is the unfinished line; overlong lines are dropped whole and counted once |
| LineReader.LineBuffer.Feed | c_src/milkdrop_renderer/src/protocol.h:46-65 | any chunking delivers exactly the lines of the stream that fit, up to the one that exits |
| LineReader.LineBuffer.Drain | c_src/milkdrop_renderer/src/protocol.h:82-104 | an exit is decided by a line that ends in the last chunk read: nothing is read after it and no later line is handled; at most a budget of reads; with the exit decided before, none |
| Utf8.RecognisedIsEncoded | c_src/milkdrop_renderer/src/json.cpp:260-289 | what `utf8_seq_len` accepts is the encoding `put_utf8` gives of a scalar value (sections 3 and 4 of RFC 3629) |
| Utf8.EncodedIsRecognised | c_src/milkdrop_renderer/src/json.cpp:152-168 | and every such encoding is accepted, at its full length |
| Utf8.SequenceLength | c_src/milkdrop_renderer/src/json.cpp:260-289 | the loop over continuation bytes computes the recogniser |
| Sanitizer.EncodedIsWellFormed | c_src/milkdrop_renderer/src/json.cpp:152-168 | encodings of code points are well-formed text |
| Sanitizer.WellFormedIsEncoded | c_src/milkdrop_renderer/src/json.cpp:260-289 | and nothing else is |
| Sanitizer.SanitizeText | c_src/milkdrop_renderer/src/json.cpp:337-357 | the loop computes the sanitised text |
| Sanitizer.SanitizedIsSafe | c_src/milkdrop_renderer/src/json.cpp:337-357 | whatever goes in, at most `max` bytes of well-formed text without control characters come out |
| Sanitizer.SafeIsKept | c_src/milkdrop_renderer/src/json.cpp:337-357 | safe text that fits is unchanged |
| Sanitizer.SanitizeTwice | c_src/milkdrop_renderer/src/json.cpp:337-357 | sanitising is idempotent |
| Sanitizer.SameLengthIsKept | c_src/milkdrop_renderer/src/manifest.cpp:26-26 | text without control characters whose sanitised form has its length is unchanged |
| JsonParser.Parser.ReadString | c_src/milkdrop_renderer/src/json.cpp:184-225 | the string parser: text, position and the first failure with its position |
| JsonParser.Parser.ReadUnicode | c_src/milkdrop_renderer/src/json.cpp:206-219 | one code point from an escape or a surrogate pair, never half a pair |
| JsonParser.Parser.ReadNumber | c_src/milkdrop_renderer/src/json.cpp:227-254 | the number grammar, position and first failure; the value is the text between |
| JsonParser.Parser.ReadValue | c_src/milkdrop_renderer/src/json.cpp:67-89 | the recursive descent, at most 64 levels deep, as a function of text and position whose meaning `ParseInvertsPrint` and `ReadableIffParsed` give |
| JsonParser.Parser.ReadMembers | c_src/milkdrop_renderer/src/json.cpp:91-123 | the members of an object, a later key replacing an earlier one |
| JsonParser.Parser.ReadItems | c_src/milkdrop_renderer/src/json.cpp:125-150 | the items of an array, in order; what that means is `JsonDocs.ItemsAreRead` |
| JsonParser.Parser.ParseText | c_src/milkdrop_renderer/src/json.cpp:31-43 | a whole text, nothing trailing |
| JsonDocs.ParseInvertsPrint | c_src/milkdrop_renderer/src/json.cpp:31-150 | every document of any nesting, printed with any white space between its tokens, is read as what it means (arrays in order, the last of equal keys) if it holds at most 64 levels, and refused as too deep otherwise |
| JsonDocs.DocIsRead | c_src/milkdrop_renderer/src/json.cpp:67-89 | the same wherever the document stands in a text and at whatever depth |
| JsonDocs.ItemsAreRead | c_src/milkdrop_renderer/src/json.cpp:125-150 | the items of an array written one after the other are the values in that order, unless one lies too deep |
| JsonDocs.MembersAreRead | c_src/milkdrop_renderer/src/json.cpp:91-123 | members written one after the other are the map they build up, unless a value lies too deep |
| JsonValues.ReadableIffParsed | c_src/milkdrop_renderer/src/json.cpp:31-150 | a value is what some text parses to if and only if it nests at most 64 levels and its numbers are texts of finite numbers |
| JsonValues.TokenIsNumber | c_src/milkdrop_renderer/src/json.cpp:227-254 | what is taken for a number inside a text is a whole number by itself |
| JsonText.UnicodeEscape | c_src/milkdrop_renderer/src/json.cpp:206-219 | only code points that have an encoding |
| JsonEscape.EscapeText | c_src/milkdrop_renderer/src/json.cpp:314-335 | the loop computes the escape |
| JsonEscape.EscapedIsOneLine | c_src/milkdrop_renderer/src/json.cpp:314-335 | no control character is left; six times the length at most, twice where there was none |
| JsonEscape.EscapedIsRead | c_src/milkdrop_renderer/src/json.cpp:184-225 | inside any text, the string parser turns escaped bytes back into the bytes |
| JsonEscape.ParseInvertsEscape | c_src/milkdrop_renderer/src/json.cpp:308-335 | for every byte string, parsing its quoted escape gives it back (section 7 of RFC 8259) |
| EventLines.DecimalIsNumber | c_src/milkdrop_renderer/src/protocol.cpp:24-26 | a printed integer is a JSON number |
| EventLines.DecimalMeans | c_src/milkdrop_renderer/src/protocol.cpp:24-26 | and it stands for the integer that was printed |
| EventLines.NumberAt | c_src/milkdrop_renderer/src/json.cpp:227-254 | a number reads the same wherever it stands before a comma or brace |
| EventLines.LineIsRead | c_src/milkdrop_renderer/src/protocol.cpp:12-36 | every line of fields parses to its name and fields, text as sanitised |
| RendererEvents.WrittenIsBounded | c_src/milkdrop_renderer/src/protocol.cpp:12-30 | the most bytes a field takes |
| RendererEvents.EventFits | c_src/milkdrop_renderer/src/protocol.cpp:88-157 | every event line (a simple one with a name of at most 64 bytes) is within 4000 bytes, so none is replaced by the oversize error |
| RendererEvents.EventIsReadBack | c_src/milkdrop_renderer/src/protocol.cpp:88-157 | every event parses to its own name and fields |
| RendererEvents.NameIsEchoed | c_src/milkdrop_renderer/src/protocol.cpp:106-157 | a valid preset name comes back unchanged from parsing its event, the statistics included |
| PresetNames.ValidPresetFile | c_src/milkdrop_renderer/src/manifest.cpp:10-27 | accepts exactly bounded `.milk` names without control characters, malformed bytes or empty, `.` or `..` segments |
| Crc8.ComputeCrc | docs/protocols/tuya_beacon_reference.py:17-24 | the loops compute the CRC |
| Crc8.CrcIsLinear | docs/protocols/tuya_beacon_reference.py:17-24 | the CRC of a sum is the sum of the CRCs |
| Crc8.CodewordIsZero | docs/protocols/tuya_beacon_reference.py:17-24 | a message with a byte appended has CRC 0 exactly when that byte is its CRC |
| Crc8.BurstIsRejected | docs/protocols/tuya_beacon_reference.py:17-24 | a codeword of any length altered within 8 consecutive bits is rejected |
| Crc8.AlteredIsAccepted | docs/protocols/tuya_beacon_reference.py:17-24 | an altered codeword passes exactly when the alteration is one itself |
| Crc8.NineBitsCanSlip | docs/protocols/tuya_beacon_reference.py:17-24 | nine bits can pass, so 8 is the best bound |
| MixRounds.StepsUndo | docs/protocols/tuya_beacon_reference.py:39-66 | one step of either direction undoes the other, from two words up |
| MixRounds.OneWordIsLost | docs/protocols/tuya_beacon_reference.py:39-66 | with one word a step need not be undone |
| MixRounds.EncryptInPlace | docs/protocols/tuya_beacon_reference.py:42-54 | the in-place loops are the rounds in order |
| MixRounds.DecryptInPlace | docs/protocols/tuya_beacon_reference.py:56-68 | the in-place loops are the rounds in reverse, with the sums in reverse |
| MixRounds.DecryptUndoesRounds | docs/protocols/tuya_beacon_reference.py:42-68 | all rounds are undone, for any mixing function and any number of rounds |
| Modular.SumSteps | docs/protocols/tuya_beacon_reference.py:48-67 | the sum schedule counts up and down through the same values modulo 2^32 |
| Modular.NeighboursWrap | docs/protocols/tuya_beacon_reference.py:51-64 | the indices modulo n are the neighbours around the ring of words |
| Xxtea.BytesOfWords | docs/protocols/tuya_beacon_reference.py:35-37 | packing to big-endian words and back gives the zero-padded bytes |
| Xxtea.WordsOfBytes | docs/protocols/tuya_beacon_reference.py:35-37 | and words survive the way through bytes |
| Xxtea.DecryptInvertsEncrypt | docs/protocols/tuya_beacon_reference.py:42-68 | for every 16-byte key, data of at least two words comes back, padded to whole words |
| Xxtea.EncryptInvertsDecrypt | docs/protocols/tuya_beacon_reference.py:42-68 | and the other way round |
| TuyaP2.BuildFrame | docs/protocols/tuya_beacon_reference.py:80-95 | the builder, its rejections included |
| TuyaP2.ParseFrame | docs/protocols/tuya_beacon_reference.py:98-110 | the parser, its rejections included |
| TuyaP2.ParseInvertsBuild | docs/protocols/tuya_beacon_reference.py:80-110 | parsing a built frame gives back the addresses, sequence number, sub-command and padded payload, and the type for types under 16 (above, its low bits and the pair bit) |
| TuyaP2.AlteredFrameIsRejected | docs/protocols/tuya_beacon_reference.py:98-110 | a valid frame altered within 8 consecutive bits fails the frame CRC, unless only the two low header bits changed: then it parses as before |
| TuyaDp.DecodePayload | docs/protocols/tuya_beacon_reference.py:194-201 | the loop decodes until a zero id or the end |
| TuyaDp.DecodeInvertsEncode | docs/protocols/tuya_beacon_reference.py:186-201 | every accepted list decodes, after padding, to the points before the first zero id; to itself exactly when there is none |
| TuyaDp.PointsSurviveTheFrame | docs/protocols/tuya_beacon_reference.py:80-201 | data points put in a frame come out of the parsed frame |

## Left out

- Weak memory ordering, wrap-around of `seq`, `epoch` and the counters, `mmap`, header validation and the branch of `Writer::init` that zeroes a new file: stores and loads are sequentially consistent on an already sized file. Capacities are any positive numbers and slots are taken modulo them, which is what masking a power of two does.
- A reader or writer copies samples and record fields in ascending order, one 16-bit sample or one field at a time; the order inside one `memcpy` is the library's.
- A page flip that lands after `release` gave up waiting for it and a new `take` happened: `dispatch` is taken to report only the flip that is awaited.
- GL, EGL, GBM, DRM, projectM, ALSA, the sendspin library and CEC ioctls: arbitrary results within their stated contracts. The shuffle's random weights are an arbitrary permutation, and which presets blend, timers and the pacer's times are arbitrary.
- Presets.PresetManager.Next: the claim that a pick does not repeat the current preset holds for start, rotate, skip and filter changes only; after `next` or `prev` the bag may still hold the current preset.
- Renderer.App.CheckGpuResets: which preset a reset is blamed on, and whether it counts as a new one, is arbitrary; a reset blamed on a failed attempt changes nothing, as in the code.
- Renderer.App.Attempt: the gate that refuses a high_frequency entry while those are off is not modelled, since every candidate is shown to be eligible.
- The headless loop, the exit guard, statistics, the announcements and the cost guard's part in a run of the renderer (there its verdicts are arbitrary; `CostGuard.dfy` proves the guard itself).
- Guard.CostGuard.OnFlip: rates are real numbers, so floating-point rounding is not modelled.
- AlsaRing.ByteRing.Write: the wake-up of waiting threads is not modelled; a wait ends with room, a stop or the deadline. Volume, format conversion and writing to the device are left out.
- Artwork.ArtworkStore.Stage: a path is given with the image instead of being computed by SHA-256, and the temporary file of a write never outlives the call.
- CecHelper.Port.ProcessStdin: partial writes to stdout, the device side of the poll loop and the contents of the kernel structs.
- JsonParser.Parser.ReadNumber: a number's value is its text; whether it is finite is a parameter, and the conversion to floating point is left out. `parse_command` and the manifest reader beyond file names are left out.
- RendererEvents.EventIsReadBack: the printing of reals is not modelled; it holds for printed numbers that follow the JSON grammar and fit the 63-byte buffer.
- Xxtea.Encrypt: keys of other lengths than 16 bytes, and data of fewer than five bytes beyond what the code computes for it.
- CRC-16, AES-CFB, the activation, pairing and P1 frames, and the device-side parser of P2 frames: more volume, no harder proofs.
- The web UI, option parsing, the pack-building pipeline, the Elixir applications and the device sweep.
