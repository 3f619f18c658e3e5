# SQUIM event scheduling and voice allocation, in Dafny

SQUIM is a flow3r badge app. It receives timed note packets over UDP and plays them on a
pool of 32 square-wave oscillators. Each oscillator feeds one mixer input. This project
models the app's core, all of it in `SQUIM.py`:

- **`NoteBuffer`** (`note_buffer.dfy`, module `NoteHeap`) is the queue of pending
  `(timestamp, midinote, on_off)` events. It is a binary min-heap in a list, kept by
  `heapq`. `add_note` pushes an event. `poll_next(due)` pops the least event only if its
  timestamp is at most `due`. The order is Python's tuple order (`notes.dfy`, module
  `Notes`): timestamp, then pitch, then `on_off` with `False < True`. Insertion order
  plays no part. So when a note-on and a note-off have the same time and pitch, the
  note-off is popped first (`Notes.OffBeforeOn`). A zero-length note whose pitch is not
  sounding therefore finds nothing to release, and its note-on then holds an oscillator
  until some later note-off of that pitch. If that pitch is sounding, the zero-length
  note's note-off releases the sounding note's oscillator first.
- **The packet handlers** (`squim.dfy`, module `Squim`). `handle_NoteOnOff` and
  `handle_Chord` take already-decoded packet fields. They queue an On at `on` and an Off
  at `off` for each note. A chord skips the filler value 128.
- **The voice allocator `play_due_notes`** (`Squim.SquimApp`) polls the queue once per
  call. A note-on takes the first idle oscillator in index order, sets its frequency,
  unmutes its mixer input and updates `last_note`. If no oscillator is idle, the note is
  dropped with a warning. A note-off looks at every oscillator, with no early exit. Every
  busy oscillator whose frequency equals the note's frequency is muted and marked idle.
  Frequencies come from the 128-entry table `midi2frequency`. That table is strictly
  increasing, so each oscillator records the table entry its frequency came from, and
  frequency equality becomes entry equality. A pitch that is not a valid Python index of
  the table (outside -128..127) raises `IndexError`. This happens only when the scan
  reaches a slot where it would use the table. The model returns `Dispatch.IndexError`
  with no oscillator changed.
- **`last_note`** (`note_names.dfy`, module `NoteNames`) is
  `note_names[n % 12] + str(n // 12 - 1)`. It is shown to determine the note, by reading
  it back.
- **`marquee`** (`marquee.dfy`, module `Marquee`) is pure string windowing. It models
  Python's negative-count repetition and slice bounds exactly.
- **The integer timing in `think`** (`Squim.SquimApp.ThinkTiming`): the left and right
  buttons step `anim_ms` within `[1, ANIM_MS]`, and the tick countdown is topped up by
  whole steps until it is no longer negative.

Two behaviours of the code are worth stating outright. Events with equal timestamps are
ordered by the rest of the tuple (pitch, then off before on), not by the order they were
queued in. A note-off releases every busy oscillator playing that note, not only the
first. Two scenarios show what the first means for a zero-length note.
`Squim.ZeroLengthNoteSticks` plays one on a fresh app: oscillator 0 is left sounding with an
empty queue. `Squim.ZeroLengthNoteCutsSounding` plays one while the same pitch sounds: the
sounding note is cut off, and the zero-length note's own note-on is still queued.

## Model

| member | source | states |
|---|---|---|
| `Notes.Lt` | SQUIM.py:48 | Python's `<` on `(timestamp, midinote, on_off)`: an earlier timestamp is always smaller, and a smaller event is never later and never equal |
| `Notes.Le` | SQUIM.py:48 | Python's `<=` on the same tuples never puts a later event first; `LeIsTotalOrder` shows it is a total order with `<` as its strict part |
| `Notes.LeIsTotalOrder` | SQUIM.py:48 | the tuple order on `(timestamp, midinote, on_off)` is total, antisymmetric and transitive, and `<` is its strict part |
| `Notes.OffBeforeOn` | SQUIM.py:48 | at equal timestamp and pitch a note-off is smaller than a note-on, so it is popped first whatever the push order |
| `Notes.LeastIsUnique` | SQUIM.py:52-53 | the event `poll_next` pops is determined by the buffer's contents alone |
| `Notes.LeastThenLeast` | SQUIM.py:51-54 | two polls in a row with no push between them pop events in non-decreasing order, so with non-decreasing timestamps |
| `NoteHeap.RootLeAll` | SQUIM.py:52 | in a heap, `buffer[0]` is no larger than any other entry |
| `NoteHeap.HeapRootIsLeast` | SQUIM.py:52-53 | `buffer[0]` of a non-empty heap is the least pending event |
| `NoteHeap.SwapUpStep` | SQUIM.py:48 | one step of the push's walk toward the root moves the single heap violation up to the parent |
| `NoteHeap.SiftTowardRoot` | SQUIM.py:48 | heapq's sift toward the root turns a list with one misplaced entry into a heap with the same events |
| `NoteHeap.SwapDownStep` | SQUIM.py:53 | one step of the pop's walk toward the leaves moves the hole down to the smaller child |
| `NoteHeap.SiftFromRoot` | SQUIM.py:53 | heapq's sift from the root, down to a leaf and back up, restores the heap with the same events |
| `NoteHeap.HeapPop` | SQUIM.py:53 | `heappop` returns the root and leaves a heap holding exactly the other events |
| `NoteHeap.NoteBuffer.constructor` | SQUIM.py:43-44 | a new buffer is an empty heap |
| `NoteHeap.NoteBuffer.AddNote` | SQUIM.py:46-48 | `add_note` keeps the heap and adds exactly the one event `(timestamp, midinote, on_off)` |
| `NoteHeap.NoteBuffer.PollNext` | SQUIM.py:51-54 | `poll_next(due)` returns None exactly when no pending event is due, and then changes nothing; otherwise it returns the least pending event, which is due, and removes exactly that one |
| `NoteNames.NatToString` | SQUIM.py:222 | `str` of a non-negative number is a non-empty string of decimal digits with no leading zero; `NatToStringRoundTrip` shows it determines the number |
| `NoteNames.IntToString` | SQUIM.py:222 | `str` of an integer is non-empty and starts with a minus sign or a digit; `IntToStringRoundTrip` shows it determines the integer |
| `NoteNames.NoteName` | SQUIM.py:222 | the `last_note` text `note_names[n % 12] + str(n // 12 - 1)` starts with a letter from A to G and has 2 to 4 characters for every MIDI note 0..127; `NoteNameRoundTrip` and `NoteNameInjective` show it determines the note |
| `NoteNames.NatToStringRoundTrip` | SQUIM.py:222 | `str` of a non-negative number reads back to the number |
| `NoteNames.IntToStringRoundTrip` | SQUIM.py:222 | `str` of any integer, sign included, reads back to the integer |
| `NoteNames.PitchClassOfName` | SQUIM.py:27-40 | each of the twelve names reads back to its own index and is one letter, optionally followed by `#` |
| `NoteNames.ParseNameThenNumber` | SQUIM.py:222 | a pitch-class name followed by an octave number splits back into the two |
| `NoteNames.NoteNameRoundTrip` | SQUIM.py:222 | the `last_note` text of any note reads back to that note |
| `NoteNames.NoteNameInjective` | SQUIM.py:222 | different notes get different `last_note` texts |
| `Marquee.Spaces` | SQUIM.py:88 | `" " * k` is `k` spaces, and empty when `k` is not positive |
| `Marquee.SliceBound` | SQUIM.py:98 | a slice bound lands in `[0, len]` and is unchanged when already in range |
| `Marquee.PySlice` | SQUIM.py:98 | `s[a:b]` is Dafny's `s[a..b]` when `0 <= a <= b <= len(s)`, and has the length the normalised bounds give otherwise (empty when reversed) |
| `Marquee.PadWindow` | SQUIM.py:83-88 | the short-text branch pads text shorter than the field to exactly `width` characters, and gives `" " + text` when the text is exactly as wide; `MarqueeShort` and `MarqueeShortReachesEveryPosition` state where the text sits |
| `Marquee.ScrollStart` | SQUIM.py:90-97 | the scroll branch's start index always lies in `[0, len(text) - width]`, a valid window position |
| `Marquee.ScrollWindow` | SQUIM.py:89-99 | for a non-negative width the scroll branch gives exactly `width` characters; `ScrollWindowAtStart` shows they are the slice at `ScrollStart` |
| `Marquee.Marquee` | SQUIM.py:82-99 | `marquee` as written fills a field of non-negative width exactly, except that text exactly as wide as the field comes out one character wider; `MarqueeShort`, `MarqueeLong`, `MarqueeLongPingPong` and `MarqueeExactWidth` state what it shows |
| `Marquee.ScrollWindowAtStart` | SQUIM.py:90-99 | for long text the result is the `width`-character slice at the computed start, and that start is a valid window position |
| `Marquee.MarqueeShort` | SQUIM.py:83-88 | text shorter than the field gives exactly `width` characters: `position` spaces, the text, then spaces, with `0 <= position <= width - len(text)` |
| `Marquee.MarqueeShortReachesEveryPosition` | SQUIM.py:84-88 | every padding from 0 to the free room is shown at some step |
| `Marquee.MarqueeExactWidth` | SQUIM.py:83-88 | text exactly as wide as the field gives `" " + text`, one character too long |
| `Marquee.MarqueeLong` | SQUIM.py:89-99 | text longer than the field gives a contiguous `width`-character window of it |
| `Marquee.MarqueeLongPingPong` | SQUIM.py:90-98 | the window starting at `start` is shown at step `start` on the way forward and again at step `2 * (len(text) - width + 1) - 1 - start` on the way back |
| `Marquee.MarqueeFixedWidth` | SQUIM.py:83-99 | the corrected marquee fills the field exactly and differs from the original only at exact width |
| `Squim.TableIndex` | SQUIM.py:221 | `midi2frequency[n]` succeeds exactly for -128..127 and uses the entry congruent to `n` modulo 128 |
| `Squim.FirstIdle` | SQUIM.py:219-226 | the first-fit scan finds the lowest idle index, or reports that none is idle |
| `Squim.ChordEvents` | SQUIM.py:179-185 | the events `handle_Chord` pushes, in push order: an even number, at most two per note of the packet; `ChordEventsCount` and `ChordEventsPairs` state which |
| `Squim.ChordEventsCount` | SQUIM.py:179-185 | a chord queues exactly one On at `on` and one Off at `off` per occurrence of each note other than 128, and nothing else |
| `Squim.ChordEventsPairs` | SQUIM.py:182-185 | the chord's events are pushed in pairs, one per note other than 128, in packet order: pair `i` is the On at `on` and then the Off at `off` of the `i`-th such note |
| `Squim.OnStepKeepsGains` | SQUIM.py:223-224 | after a note-on, an oscillator is idle exactly when its gain is `DB_MUTE` and busy exactly when its gain is 0 |
| `Squim.OffStepKeepsGains` | SQUIM.py:234-235 | after a note-off, the same link between idle flags and gains holds |
| `Squim.OnStepUsesOneVoice` | SQUIM.py:216-228 | a valid note-on succeeds exactly when some oscillator is idle and then uses up exactly one; otherwise it warns and changes nothing |
| `Squim.OffStepSilencesNote` | SQUIM.py:229-235 | after a note-off no busy oscillator plays that note, and idle or non-matching oscillators are untouched |
| `Squim.OrphanOffChangesNothing` | SQUIM.py:229-235 | a note-off for a note no oscillator plays changes nothing |
| `Squim.OnThenOffRestores` | SQUIM.py:216-235 | a note-on and then a note-off of a note nothing was playing restore every idle flag and gain |
| `Squim.TwoVoiceRoundTrip` | SQUIM.py:216-235 | with two oscillators, On 60, On 64, Off 60, Off 64 use oscillators 0 and 1 and leave both idle and muted |
| `Squim.OneVoiceCapacity` | SQUIM.py:216-228 | with one oscillator, a second note-on while the first sounds is dropped and the first keeps sounding |
| `Squim.SquimApp.constructor` | SQUIM.py:57-80 | `__init__` together with the `_build_synth` it calls (SQUIM.py:199-210): at start the queue is empty, every oscillator is idle with its mixer input at `DB_MUTE`, `anim_ms` and `tick` are `ANIM_MS` and `last_note` is `'py'` |
| `Squim.SquimApp.HandleNoteOnOff` | SQUIM.py:174-177 | queues exactly an On at `p.on` and an Off at `p.off` for `p.note` |
| `Squim.SquimApp.HandleChord` | SQUIM.py:179-185 | queues exactly the chord's events (see `ChordEventsCount`) and keeps the heap |
| `Squim.SquimApp.NoteOn` | SQUIM.py:216-228 | the lowest idle oscillator gets the note's frequency, gain 0 and busy; `last_note` names the note; nothing else changes. With no idle oscillator nothing changes. An invalid index raises before any change |
| `Squim.SquimApp.NoteOff` | SQUIM.py:229-235 | every busy oscillator playing the note's frequency is muted and made idle; all others and all frequencies are unchanged. An invalid index raises at the first busy oscillator, before any change |
| `Squim.SquimApp.PlayDueNotes` | SQUIM.py:212-236 | polls once: with nothing due nothing changes; otherwise exactly the least due event is removed and dispatched as a note-on or note-off, so at most one event is handled per call |
| `Squim.SquimApp.ThinkTiming` | SQUIM.py:132-144 | `anim_ms` moves by one within `[1, ANIM_MS]` (left has priority over right), and afterwards `tick` is the old tick minus `delta_ms`, or its remainder modulo `anim_ms` when that was negative, so `tick >= 0` |
| `Squim.ZeroLengthNoteSticks` | SQUIM.py:212-236 | a note with `on == off` on a fresh app pops its Off first, which releases nothing, then its On takes oscillator 0, which stays busy at gain 0 with the queue empty |
| `Squim.ZeroLengthNoteCutsSounding` | SQUIM.py:212-236 | a zero-length note for a pitch that is sounding pops its Off first, which mutes and frees the sounding note's oscillator 0; its On and the sounding note's later Off stay queued |

## Left out

- UDP socket setup and `recvfrom` (SQUIM.py:66-68, 146-155): network I/O.
- `dispatch_packet`, `TLVPacket.from_bytes` and the `isinstance` dispatch (SQUIM.py:159-172): the generated decoder module `generated_tlv` is not part of this model. The handlers take the decoded fields `on`, `note` (or the chord's note list) and `off` as parameters.
- `handle_Title`, `handle_Artist` (ASCII decoding) and `handle_Time` (clock offset from `time.ticks_us`): foreign decoding and a hardware clock. `play_due_notes` takes the due time as a parameter instead of `powerup_time + time.ticks_us()`.
- `draw` (SQUIM.py:101-124) and the `twist` updates in `think`: floating-point rendering. `marquee` itself is modelled.
- The rest of `think` (SQUIM.py:127-130, 146-157): input polling, the middle-button no-op, packet receipt, and the call to `play_due_notes`, which is `Squim.SquimApp.PlayDueNotes`.
- `midi2frequency` (SQUIM.py:76): a float table. Each oscillator stores the table entry its frequency came from. The model assumes the oscillator reads back the frequency exactly as it was set. bl00mbox is not part of this model.
- bl00mbox channel, oscillator and mixer construction, the square waveform and `on_exit` (SQUIM.py:199-210, 238-242): a foreign synth library. Each slot is reduced to its idle flag, table entry and mixer gain. A new oscillator's initial frequency is left unspecified, because only busy oscillators are ever compared.
- `print` calls: logging. The capacity warning appears as `Dispatch.NoFreeOsc`.
- heapq's internals: heapq moves a hole where the model swaps entries. The resulting list is the same.

## Findings

| source | as written | input that shows it | evidently intended | confidence | as-written member | corrected member |
|---|---|---|---|---|---|---|
| SQUIM.py:84-88 | when `len(the_text) == width`, `cycle_length` is forced to 1, `position` flips from 0 to 1, and the result is `" " + the_text`, one character wider than the field | `marquee("ABCDEFGHIJKLMNOPQ", 17, c)` (a 17-character title) returns 18 characters for every `c` | the text unpadded, exactly `width` characters, as for every other length (bounce test `>` instead of `>=`) | medium, not executed | `Marquee.MarqueeExactWidth` | `Marquee.MarqueeFixedWidth` |
