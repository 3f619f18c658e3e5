/** The SQUIM app: note events decoded from the network are queued in a `NoteBuffer`,
    one due event is taken per `think` and played on a fixed pool of `POLYPHONY` square
    oscillators, each wired to one mixer input whose gain is 0 dB while the oscillator
    sounds and `DB_MUTE` while it is idle. */
module Squim {
  import opened Notes
  import opened NoteHeap
  import NoteNames

  const POLYPHONY: nat := 32
  const ANIM_MS: int := 100
  const DB_MUTE: int := -9999
  /** The pitch value that marks an unused place in a chord packet. */
  const NO_NOTE: int := 128

  /** `self.midi2frequency[n]` on a list of 128 frequencies: Python indexing accepts
      -128..127, a negative index counting from the end, and raises IndexError otherwise.
      The result is the entry used. The table is strictly increasing, so two lookups
      give the same frequency exactly when they use the same entry. */
  function TableIndex(n: int): (r: Option<nat>)
    ensures r.Some? <==> -128 <= n < 128
    ensures r.Some? ==> r.value < 128 && r.value % 128 == n % 128
  {
    if 0 <= n < 128 then Some(n) else if -128 <= n < 0 then Some(n + 128) else None
  }

  /** The first idle oscillator in index order, if any. */
  function FirstIdle(idle: seq<bool>): (r: Option<nat>)
    ensures r.Some? ==> r.value < |idle| && idle[r.value] && forall j :: 0 <= j < r.value ==> !idle[j]
    ensures r.None? ==> forall j :: 0 <= j < |idle| ==> !idle[j]
    decreases |idle|
  {
    if idle == [] then None
    else if idle[0] then Some(0)
    else match FirstIdle(idle[1..])
      case None => None
      case Some(k) => Some(k + 1)
  }

  /** How many oscillators are idle. */
  function IdleCount(idle: seq<bool>): nat {
    multiset(idle)[true]
  }

  /** The events a chord packet enqueues, in the order `handle_Chord` pushes them: an
      On at `on` and an Off at `off` for every note other than `NO_NOTE`. */
  function ChordEvents(on: int, notes: seq<int>, off: int): (r: seq<Note>)
    ensures |r| % 2 == 0 && |r| <= 2 * |notes|
    decreases |notes|
  {
    if notes == [] then []
    else
      var n := notes[|notes| - 1];
      ChordEvents(on, notes[..|notes| - 1], off)
        + (if n != NO_NOTE then [Note(on, n, true), Note(off, n, false)] else [])
  }

  /** A chord adds exactly one On at `on` and one Off at `off` per occurrence of each
      real note in the packet, and nothing else. */
  lemma {:induction false} ChordEventsCount(on: int, notes: seq<int>, off: int, e: Note)
    ensures multiset(ChordEvents(on, notes, off))[e]
            == if e.pitch != NO_NOTE && e.time == (if e.on then on else off)
               then multiset(notes)[e.pitch] else 0
    decreases |notes|
  {
    if notes != [] {
      var init, n := notes[..|notes| - 1], notes[|notes| - 1];
      assert notes == init + [n];
      ChordEventsCount(on, init, off, e);
    }
  }

  /** The notes of a chord packet other than `NO_NOTE`, in packet order. */
  function RealNotes(notes: seq<int>): (r: seq<int>)
    ensures |r| <= |notes|
    ensures forall x :: x in r ==> x in notes && x != NO_NOTE
    decreases |notes|
  {
    if notes == [] then []
    else
      var n := notes[|notes| - 1];
      RealNotes(notes[..|notes| - 1]) + (if n != NO_NOTE then [n] else [])
  }

  /** The chord's events come in pairs, one pair per real note in packet order: pair `i`
      is the On at `on` and then the Off at `off` of the `i`-th note other than
      `NO_NOTE`. */
  lemma {:induction false} ChordEventsPairs(on: int, notes: seq<int>, off: int)
    ensures |ChordEvents(on, notes, off)| == 2 * |RealNotes(notes)|
    ensures forall i :: 0 <= i < |RealNotes(notes)| ==>
              ChordEvents(on, notes, off)[2 * i] == Note(on, RealNotes(notes)[i], true)
              && ChordEvents(on, notes, off)[2 * i + 1] == Note(off, RealNotes(notes)[i], false)
    ensures forall i :: 0 <= i < |ChordEvents(on, notes, off)| ==>
              var e := ChordEvents(on, notes, off)[i];
              e.pitch in notes && e.pitch != NO_NOTE && e.time == (if e.on then on else off)
    decreases |notes|
  {
    if notes != [] {
      var init, n := notes[..|notes| - 1], notes[|notes| - 1];
      ChordEventsPairs(on, init, off);
      var es, rs := ChordEvents(on, notes, off), RealNotes(notes);
      var es0, rs0 := ChordEvents(on, init, off), RealNotes(init);
      forall i | 0 <= i < |rs|
        ensures es[2 * i] == Note(on, rs[i], true) && es[2 * i + 1] == Note(off, rs[i], false)
      {
        if i < |rs0| {
          assert es[2 * i] == es0[2 * i] && es[2 * i + 1] == es0[2 * i + 1];
        } else {
          assert 2 * i == |es0|;
        }
      }
      forall i | 0 <= i < |es|
        ensures es[i].pitch in notes && es[i].pitch != NO_NOTE && es[i].time == (if es[i].on then on else off)
      {
        if i < |es0| {
          assert es[i] == es0[i];
          assert es0[i].pitch in init;
        }
      }
    }
  }

  /** Taking one more note of the packet adds that note's events at the end. */
  lemma ChordEventsStep(on: int, notes: seq<int>, off: int, k: nat)
    requires k < |notes|
    ensures ChordEvents(on, notes[..k + 1], off)
            == ChordEvents(on, notes[..k], off)
               + (if notes[k] != NO_NOTE then [Note(on, notes[k], true), Note(off, notes[k], false)] else [])
  {
    assert notes[..k + 1][..k] == notes[..k];
  }

  /** What the allocator keeps per oscillator (`_osc_idle`, the table entry its frequency
      was set from, its mixer gain in dB) and the `last_note` text. */
  datatype Voices = Voices(idle: seq<bool>, pitch: seq<int>, gainDb: seq<int>, lastNote: string)

  /** An oscillator is idle exactly when its mixer input is muted and sounding exactly
      when its gain is 0 dB; a sounding oscillator plays an entry of the table. */
  ghost predicate GainsFollowIdle(v: Voices) {
    |v.idle| == |v.pitch| == |v.gainDb|
    && (forall i :: 0 <= i < |v.idle| ==> v.gainDb[i] == if v.idle[i] then DB_MUTE else 0)
    && (forall i :: 0 <= i < |v.idle| && !v.idle[i] ==> 0 <= v.pitch[i] < 128)
  }

  /** What `play_due_notes` reports about the event it polled. */
  datatype Dispatch =
    | NothingDue          // no pending event is due
    | Started(slot: nat)  // a note-on claimed oscillator `slot`
    | NoFreeOsc           // a note-on found every oscillator busy (the warning)
    | Stopped             // a note-off was handled
    | IndexError          // the pitch is not an index of `midi2frequency`

  /** A dispatched note-on: the first idle oscillator takes the note, gets the note's
      frequency, is unmuted and marked busy, and `last_note` names the note; if none is
      idle nothing changes. */
  ghost predicate OnStep(v: Voices, n: int, v': Voices, d: Dispatch) {
    match FirstIdle(v.idle)
    case None => d == NoFreeOsc && v' == v
    case Some(k) =>
      match TableIndex(n)
      case None => d == IndexError && v' == v
      case Some(f) =>
        d == Started(k)
        && k < |v.pitch| && k < |v.gainDb|
        && v' == Voices(v.idle[k := false], v.pitch[k := f], v.gainDb[k := 0], NoteNames.NoteName(n))
  }

  /** A dispatched note-off: every busy oscillator playing the note's frequency is muted
      and marked idle; all others, and every frequency, stay as they were. */
  ghost predicate OffStep(v: Voices, n: int, v': Voices, d: Dispatch) {
    match TableIndex(n)
    case None => v' == v && d == (if false in v.idle then IndexError else Stopped)
    case Some(f) =>
      d == Stopped
      && v'.pitch == v.pitch && v'.lastNote == v.lastNote
      && |v'.idle| == |v.idle| && |v'.gainDb| == |v.gainDb| == |v.pitch| == |v.idle|
      && forall i :: 0 <= i < |v.idle| ==>
           if !v.idle[i] && v.pitch[i] == f
           then v'.idle[i] && v'.gainDb[i] == DB_MUTE
           else v'.idle[i] == v.idle[i] && v'.gainDb[i] == v.gainDb[i]
  }

  /** A note-on keeps gains in step with the idle flags. */
  lemma OnStepKeepsGains(v: Voices, n: int, v': Voices, d: Dispatch)
    requires GainsFollowIdle(v) && OnStep(v, n, v', d)
    ensures GainsFollowIdle(v')
  {
  }

  /** A note-off keeps gains in step with the idle flags. */
  lemma OffStepKeepsGains(v: Voices, n: int, v': Voices, d: Dispatch)
    requires GainsFollowIdle(v) && OffStep(v, n, v', d)
    ensures GainsFollowIdle(v')
  {
  }

  /** Marking an idle oscillator busy leaves one idle oscillator fewer. */
  lemma ClaimLowersIdleCount(idle: seq<bool>, k: nat)
    requires k < |idle| && idle[k]
    ensures IdleCount(idle[k := false]) == IdleCount(idle) - 1
  {
  }

  /** A note-on succeeds exactly when some oscillator is idle, and then uses up exactly
      one idle oscillator. */
  lemma OnStepUsesOneVoice(v: Voices, n: int, v': Voices, d: Dispatch)
    requires GainsFollowIdle(v) && OnStep(v, n, v', d) && -128 <= n < 128
    ensures d.Started? <==> 0 < IdleCount(v.idle)
    ensures d.Started? ==> IdleCount(v'.idle) == IdleCount(v.idle) - 1
    ensures !d.Started? ==> d == NoFreeOsc && v' == v
  {
    match FirstIdle(v.idle) {
      case None =>
        assert true !in v.idle;
      case Some(k) =>
        assert true in v.idle;
        ClaimLowersIdleCount(v.idle, k);
    }
  }

  /** After a note-off no oscillator still sounds that note; one that sounded another
      note, or was idle, is untouched. */
  lemma OffStepSilencesNote(v: Voices, n: int, v': Voices, d: Dispatch, f: nat)
    requires GainsFollowIdle(v) && OffStep(v, n, v', d) && TableIndex(n) == Some(f)
    ensures forall i :: 0 <= i < |v'.idle| && !v'.idle[i] ==> v'.pitch[i] != f
    ensures forall i :: 0 <= i < |v.idle| && (v.idle[i] || v.pitch[i] != f) ==>
              v'.idle[i] == v.idle[i] && v'.gainDb[i] == v.gainDb[i]
  {
  }

  /** A note-off for a note nothing is playing changes nothing. */
  lemma OrphanOffChangesNothing(v: Voices, n: int, v': Voices, d: Dispatch)
    requires GainsFollowIdle(v) && OffStep(v, n, v', d)
    requires forall i :: 0 <= i < |v.idle| && !v.idle[i] ==> TableIndex(n) != Some(v.pitch[i])
    ensures v' == v
  {
    if TableIndex(n).Some? {
      assert v'.idle == v.idle;
      assert v'.gainDb == v.gainDb;
    }
  }

  /** A note-on followed by a note-off of the same note, for a note nothing was playing
      before, leaves every oscillator idle or busy as before, with the same gains. */
  lemma OnThenOffRestores(v: Voices, n: int, v1: Voices, d1: Dispatch, v2: Voices, d2: Dispatch)
    requires GainsFollowIdle(v) && OnStep(v, n, v1, d1) && OffStep(v1, n, v2, d2)
    requires forall i :: 0 <= i < |v.idle| && !v.idle[i] ==> TableIndex(n) != Some(v.pitch[i])
    ensures v2.idle == v.idle && v2.gainDb == v.gainDb
  {
    match FirstIdle(v.idle) {
      case None =>
        OrphanOffChangesNothing(v1, n, v2, d2);
      case Some(k) =>
        match TableIndex(n) {
          case None =>
          case Some(f) =>
            assert |v2.idle| == |v.idle|;
            forall i | 0 <= i < |v.idle|
              ensures v2.idle[i] == v.idle[i] && v2.gainDb[i] == v.gainDb[i]
            {
              if i == k {
                assert !v1.idle[k] && v1.pitch[k] == f;
              }
            }
        }
    }
  }

  /** Two oscillators: On 60, On 64, Off 60, Off 64 take oscillators 0 and 1 in turn
      and leave both idle again. */
  lemma TwoVoiceRoundTrip(v0: Voices, v1: Voices, v2: Voices, v3: Voices, v4: Voices,
                          d1: Dispatch, d2: Dispatch, d3: Dispatch, d4: Dispatch)
    requires v0.idle == [true, true] && v0.gainDb == [DB_MUTE, DB_MUTE] && |v0.pitch| == 2
    requires OnStep(v0, 60, v1, d1) && OnStep(v1, 64, v2, d2)
    requires OffStep(v2, 60, v3, d3) && OffStep(v3, 64, v4, d4)
    ensures d1 == Started(0) && d2 == Started(1)
    ensures v2.idle == [false, false] && v2.pitch == [60, 64] && v2.gainDb == [0, 0]
    ensures v3.idle == [true, false] && v4.idle == [true, true] && v4.gainDb == [DB_MUTE, DB_MUTE]
  {
    assert FirstIdle(v0.idle) == Some(0);
    assert v1.idle == [false, true];
    assert FirstIdle(v1.idle) == Some(1);
    assert v2.pitch == [60, 64];
    assert v3.idle[0] && !v3.idle[1];
    assert v4.idle[0] && v4.idle[1];
  }

  /** One oscillator: a second note-on while the first note sounds is dropped, and the
      first note keeps its oscillator. */
  lemma OneVoiceCapacity(v0: Voices, v1: Voices, v2: Voices, d1: Dispatch, d2: Dispatch)
    requires v0.idle == [true] && v0.gainDb == [DB_MUTE] && |v0.pitch| == 1
    requires OnStep(v0, 60, v1, d1) && OnStep(v1, 64, v2, d2)
    ensures d1 == Started(0) && d2 == NoFreeOsc
    ensures v2 == v1 && v2.idle == [false] && v2.pitch == [60] && v2.gainDb == [0]
  {
    assert FirstIdle(v0.idle) == Some(0);
    assert FirstIdle(v1.idle) == None;
  }

  /** The unique `r` in `[0, a)` that differs from `t` by a multiple of `a` is `t % a`. */
  lemma RemainderIsUnique(t: int, a: int, k: int)
    requires 1 <= a && 0 <= t + k * a < a
    ensures t + k * a == t % a
  {
    var q := t / a;
    assert t == q * a + t % a;
    var m := k + q;
    assert t + k * a - t % a == m * a;
  }

  class SquimApp {
    var animMs: int
    var tick: int
    var lastNote: string
    var noteBuffer: NoteBuffer
    /** `self._osc_idle`. */
    var oscIdle: array<bool>
    /** The `midi2frequency` entry each oscillator's frequency was last set from. */
    var oscPitch: array<int>
    /** `self._mixer.signals.input_gain[i].dB`. */
    var gainDb: array<int>

    ghost function State(): Voices
      reads this, oscIdle, oscPitch, gainDb
    {
      Voices(oscIdle[..], oscPitch[..], gainDb[..], lastNote)
    }

    ghost predicate Valid()
      reads this, noteBuffer, oscIdle, oscPitch, gainDb
    {
      oscIdle.Length == POLYPHONY && oscPitch.Length == POLYPHONY && gainDb.Length == POLYPHONY
      && oscPitch != gainDb
      && GainsFollowIdle(State())
      && noteBuffer.Valid()
      && 1 <= animMs <= ANIM_MS && 0 <= tick
    }

    /** `__init__` with `_build_synth`: an empty queue and every oscillator idle and muted. */
    constructor ()
      ensures Valid() && fresh(noteBuffer) && fresh(oscIdle) && fresh(oscPitch) && fresh(gainDb)
      ensures noteBuffer.Contents() == multiset{}
      ensures forall i :: 0 <= i < POLYPHONY ==> oscIdle[i] && gainDb[i] == DB_MUTE
      ensures animMs == ANIM_MS && tick == ANIM_MS && lastNote == "py"
    {
      var gains := new int[POLYPHONY];
      for i := 0 to POLYPHONY
        invariant forall j :: 0 <= j < i ==> gains[j] == DB_MUTE
      {
        gains[i] := DB_MUTE;
      }
      gainDb := gains;
      oscIdle := new bool[POLYPHONY](_ => true);
      oscPitch := new int[POLYPHONY];
      noteBuffer := new NoteBuffer();
      animMs := ANIM_MS;
      tick := ANIM_MS;
      lastNote := "py";
    }

    /** `handle_NoteOnOff`: queue an On at `on` and an Off at `off` for `note`. */
    method HandleNoteOnOff(on: int, note: int, off: int)
      requires Valid()
      modifies noteBuffer
      ensures Valid()
      ensures noteBuffer.Contents()
              == old(noteBuffer.Contents()) + multiset{Note(on, note, true), Note(off, note, false)}
    {
      noteBuffer.AddNote(on, note, true);
      noteBuffer.AddNote(off, note, false);
    }

    /** `handle_Chord`: queue an On at `on` and an Off at `off` for every note of the
        packet that is not `NO_NOTE`. */
    method HandleChord(on: int, notes: seq<int>, off: int)
      requires Valid()
      modifies noteBuffer
      ensures Valid()
      ensures noteBuffer.Contents() == old(noteBuffer.Contents()) + multiset(ChordEvents(on, notes, off))
    {
      ghost var queued: seq<Note> := [];
      for k := 0 to |notes|
        invariant Valid()
        invariant queued == ChordEvents(on, notes[..k], off)
        invariant noteBuffer.Contents() == old(noteBuffer.Contents()) + multiset(queued)
      {
        var n := notes[k];
        ChordEventsStep(on, notes, off, k);
        if n != NO_NOTE {
          HandleNoteOnOff(on, n, off);
          assert multiset(queued + [Note(on, n, true), Note(off, n, false)])
                 == multiset(queued) + multiset{Note(on, n, true), Note(off, n, false)};
          queued := queued + [Note(on, n, true), Note(off, n, false)];
        }
      }
      assert notes[..|notes|] == notes;
    }

    /** The note-on branch of `play_due_notes`. */
    method NoteOn(n: int) returns (d: Dispatch)
      requires Valid()
      modifies oscIdle, oscPitch, gainDb, this`lastNote
      ensures Valid()
      ensures OnStep(old(State()), n, State(), d)
    {
      var found := false;
      for i := 0 to POLYPHONY
        invariant !found && State() == old(State())
        invariant forall j :: 0 <= j < i ==> !oscIdle[j]
      {
        if oscIdle[i] {
          match TableIndex(n) {
            case None =>
              d := IndexError;
              return;
            case Some(f) =>
              oscPitch[i] := f;
              lastNote := NoteNames.NoteName(n);
              gainDb[i] := 0;
              oscIdle[i] := false;
              d := Started(i);
              found := true;
              break;
          }
        }
      }
      if !found {
        d := NoFreeOsc;
      }
    }

    /** The note-off branch of `play_due_notes`: the scan runs over every oscillator. */
    method NoteOff(n: int) returns (d: Dispatch)
      requires Valid()
      modifies oscIdle, gainDb
      ensures Valid()
      ensures OffStep(old(State()), n, State(), d)
    {
      d := Stopped;
      for i := 0 to POLYPHONY
        invariant forall j :: i <= j < POLYPHONY ==> oscIdle[j] == old(oscIdle[j]) && gainDb[j] == old(gainDb[j])
        invariant TableIndex(n).None? ==> forall j :: 0 <= j < i ==> oscIdle[j] && old(oscIdle[j])
        invariant TableIndex(n).None? ==> gainDb[..] == old(gainDb[..])
        invariant forall j :: 0 <= j < i ==>
                    if !old(oscIdle[j]) && TableIndex(n) == Some(oscPitch[j])
                    then oscIdle[j] && gainDb[j] == DB_MUTE
                    else oscIdle[j] == old(oscIdle[j]) && gainDb[j] == old(gainDb[j])
      {
        if !oscIdle[i] {
          match TableIndex(n) {
            case None =>
              d := IndexError;
              assert oscIdle[..] == old(oscIdle[..]);
              return;
            case Some(f) =>
              if oscPitch[i] == f {
                gainDb[i] := DB_MUTE;
                oscIdle[i] := true;
              }
          }
        }
      }
      if TableIndex(n).None? {
        assert oscIdle[..] == old(oscIdle[..]);
        assert false !in old(oscIdle[..]);
      }
    }

    /** `play_due_notes(due)`: poll the queue once and dispatch the event it yields. */
    method PlayDueNotes(due: int) returns (d: Dispatch, ghost polled: Option<Note>)
      requires Valid()
      modifies noteBuffer, oscIdle, oscPitch, gainDb, this`lastNote
      ensures Valid()
      ensures polled.None? <==> forall e | e in old(noteBuffer.Contents()) :: due < e.time
      ensures polled.None? ==> d == NothingDue && noteBuffer.Contents() == old(noteBuffer.Contents())
                               && State() == old(State())
      ensures polled.Some? ==> polled.value.time <= due && IsLeast(polled.value, old(noteBuffer.Contents()))
                               && noteBuffer.Contents() == old(noteBuffer.Contents()) - multiset{polled.value}
      ensures polled.Some? && polled.value.on ==> OnStep(old(State()), polled.value.pitch, State(), d)
      ensures polled.Some? && !polled.value.on ==> OffStep(old(State()), polled.value.pitch, State(), d)
    {
      var note := noteBuffer.PollNext(due);
      polled := note;
      match note {
        case None =>
          d := NothingDue;
        case Some(e) =>
          if e.on {
            d := NoteOn(e.pitch);
          } else {
            d := NoteOff(e.pitch);
          }
      }
    }

    /** The integer timing part of `think`: the left button shortens the animation step
        down to 1 ms, the right one lengthens it up to `ANIM_MS`, and the tick countdown
        loses `deltaMs` and is topped up by whole steps until it is not negative. */
    method ThinkTiming(left: bool, right: bool, deltaMs: int)
      requires Valid()
      modifies this`animMs, this`tick
      ensures Valid()
      ensures left ==> animMs == Max(1, old(animMs) - 1)
      ensures !left && right ==> animMs == Min(ANIM_MS, old(animMs) + 1)
      ensures !left && !right ==> animMs == old(animMs)
      ensures tick == if old(tick) - deltaMs >= 0 then old(tick) - deltaMs else (old(tick) - deltaMs) % animMs
    {
      if left {
        if animMs > 1 {
          animMs := animMs - 1;
        }
      } else if right {
        if animMs < ANIM_MS {
          animMs := animMs + 1;
        }
      }
      tick := tick - deltaMs;
      ghost var t := tick;
      ghost var k: nat := 0;
      ghost var step := animMs;
      while tick < 0
        invariant animMs == step
        invariant tick == t + k * animMs
        invariant t < 0 ==> tick < animMs
        invariant 0 <= t ==> tick == t
        decreases -tick
      {
        tick := tick + animMs;
        k := k + 1;
      }
      if t < 0 {
        RemainderIsUnique(t, animMs, k);
      }
    }
  }

  /** `play_due_notes(due)` when the least pending event `x` is known to be due: it is
      the event popped, and it is dispatched by its kind. */
  method PlayKnownNext(app: SquimApp, due: int, x: Note, m: multiset<Note>) returns (d: Dispatch)
    requires app.Valid() && app.noteBuffer.Contents() == m && x.time <= due && IsLeast(x, m)
    modifies app.noteBuffer, app.oscIdle, app.oscPitch, app.gainDb, app`lastNote
    ensures app.Valid() && app.noteBuffer.Contents() == m - multiset{x}
    ensures x.on ==> OnStep(old(app.State()), x.pitch, app.State(), d)
    ensures !x.on ==> OffStep(old(app.State()), x.pitch, app.State(), d)
  {
    ghost var polled: Option<Note>;
    d, polled := app.PlayDueNotes(due);
    LeastIsUnique(polled.value, x, m);
  }

  /** A zero-length note (`on == off`) on a fresh app: both events are due at `t`, the
      note-off is popped first and finds nothing to release, and the note-on then takes
      oscillator 0, which stays busy with nothing left in the queue to release it. */
  method ZeroLengthNoteSticks(t: int) returns (app: SquimApp, d1: Dispatch, d2: Dispatch)
    ensures app.Valid()
    ensures d1 == Stopped && d2 == Started(0)
    ensures !app.oscIdle[0] && app.oscPitch[0] == 60 && app.gainDb[0] == 0
    ensures app.noteBuffer.Contents() == multiset{}
  {
    app := new SquimApp();
    app.HandleNoteOnOff(t, 60, t);
    var on, off := Note(t, 60, true), Note(t, 60, false);
    OffBeforeOn(t, 60);
    d1 := PlayKnownNext(app, t, off, multiset{on, off});
    ghost var v1 := app.State();
    assert IsLeast(on, multiset{on});
    d2 := PlayKnownNext(app, t, on, multiset{on});
    assert FirstIdle(v1.idle) == Some(0);
  }

  /** A fresh app given note 60 from 0 to 100, at time 0: the note sounds on
      oscillator 0 and only its note-off is left in the queue. */
  method StartFirstNote() returns (app: SquimApp, d: Dispatch)
    ensures fresh(app) && fresh(app.noteBuffer) && fresh(app.oscIdle) && fresh(app.oscPitch) && fresh(app.gainDb)
    ensures app.Valid()
    ensures d == Started(0) && !app.oscIdle[0] && app.oscPitch[0] == 60 && app.gainDb[0] == 0
    ensures app.noteBuffer.Contents() == multiset{Note(100, 60, false)}
  {
    app := new SquimApp();
    app.HandleNoteOnOff(0, 60, 100);
    var on0, off100 := Note(0, 60, true), Note(100, 60, false);
    ghost var v0 := app.State();
    assert FirstIdle(v0.idle) == Some(0);
    assert IsLeast(on0, multiset{on0, off100});
    d := PlayKnownNext(app, 0, on0, multiset{on0, off100});
    assert multiset{on0, off100} - multiset{on0} == multiset{off100};
  }

  /** A zero-length note for a pitch that is already sounding: note 60 starts at 0 with
      its note-off at 100, then a zero-length 60 at 50 pops its note-off first, which
      silences the sounding note's oscillator; its note-on and the note-off at 100 stay
      queued. */
  method ZeroLengthNoteCutsSounding() returns (app: SquimApp, d1: Dispatch, d2: Dispatch)
    ensures app.Valid()
    ensures d1 == Started(0) && d2 == Stopped
    ensures app.oscIdle[0] && app.gainDb[0] == DB_MUTE
    ensures app.noteBuffer.Contents() == multiset{Note(50, 60, true), Note(100, 60, false)}
  {
    app, d1 := StartFirstNote();
    var off100 := Note(100, 60, false);
    app.HandleNoteOnOff(50, 60, 50);
    var on50, off50 := Note(50, 60, true), Note(50, 60, false);
    OffBeforeOn(50, 60);
    assert IsLeast(off50, multiset{off100, on50, off50});
    d2 := PlayKnownNext(app, 50, off50, multiset{off100, on50, off50});
    assert multiset{off100, on50, off50} - multiset{off50} == multiset{on50, off100};
  }
}
