/**
 The step sequencer of seq.c: a transport (idle / playing / recording), a fixed
 200-entry event log with three cursors, a tempo divider and a 16-bit time counter.

 The C code keeps `seq_play`, `seq_rec` and `seq_last` as pointers into the log; here
 they are indices 0..200, where 200 is the one-past-the-end position. Every operation
 that dereferences a cursor returns `Undefined` when that cursor is 200, which is a read
 past the end of the array in C.

 Calls out of the sequencer (`note_on`, `note_off`, `bip`) are returned as a list of
 `Effect`s in the order the C code makes them.
 */
module Sequencer {
  import opened Machine
  import opened SeqLog

  /** `SEQ_NOTES` */
  const Capacity := 200

  /** `sizeof(struct seq)` on the AVR target: a `uint16_t` and a `uint8_t`, no padding. */
  const EventSize := 3

  /** Initial value of `seq_tempo`. */
  const InitialTempo := 140

  datatype Transport = Idle | Playing | Recording

  /** `enum seq_cmd`, in declaration order. */
  datatype Command =
    | Clear | Del | First | Last | Prev | Next | Play | Rec | Stop
    | TempoUp | TempoDown | Metronome34 | Metronome44 | OneKeyOn | OneKeyOff

  /** A call the sequencer makes into the audio engine. `Alert` is `bip(duration)`;
      the audio engine's `bip` takes no argument, so the duration only records the call. */
  datatype Effect = NoteOn(note: u8) | NoteOff(note: u8) | Alert(duration: nat)

  /** The sequencer's globals, plus `t`, the divider static inside `seq_tick`. */
  datatype State = State(
    transport: Transport,
    ticks: u16,
    tempo: u8,
    log: seq<Event>,
    play: nat,
    rec: nat,
    last: nat,
    div: u8)

  /** The result of an operation that may call out: the new state and the calls made. */
  datatype Out = Out(state: State, effects: seq<Effect>)

  /** Cursors stay inside the array or one past its end. */
  predicate Valid(s: State) {
    && |s.log| == Capacity
    && s.play <= Capacity
    && s.rec <= Capacity
    && s.last <= Capacity
  }

  /** The starting state of the model: statics zeroed and `seq_tempo` at its
      initialiser. In C the three cursors are null pointers until `seq_init` runs; here
      they start where `seq_init` puts them, at the start of the log. */
  function PowerOn(): (s: State)
    ensures Valid(s)
  {
    State(Idle, 0, InitialTempo, seq(Capacity, _ => Event(0, 0)), 0, 0, 0, 0)
  }

  /** `seq_init`: cursors to the start of the log, time to zero, transport idle.
      The log contents, the tempo and the tick divider are left alone. */
  function Init(s: State): (r: State)
    requires |s.log| == Capacity
    ensures Valid(r)
    ensures r.transport == Idle && r.play == 0 && r.rec == 0 && r.last == 0 && r.ticks == 0
    ensures r.log == s.log && r.tempo == s.tempo && r.div == s.div
  {
    s.(play := 0, rec := 0, last := 0, ticks := 0, transport := Idle)
  }

  /** The note byte logged for a key event: bit 7 set for a press (`note |= 0x80`). */
  function EncodeNote(note: u8, pressed: bool): (b: u8)
    ensures b % 128 == note % 128
    ensures b >= 128 <==> pressed || note >= 128
  {
    if pressed && note < 128 then note + 128 else note
  }

  /** What playback does with a logged note byte: bit 7 selects `note_on` or
      `note_off`, the low seven bits are the note. */
  function Replay(b: u8): (e: Effect)
    ensures e.NoteOn? || e.NoteOff?
    ensures e.note < 128
  {
    if b >= 128 then NoteOn(b % 128) else NoteOff(b % 128)
  }

  /** Recording then replaying a note below 128 gives back the same key event. */
  lemma ReplayEncode(note: u8, pressed: bool)
    requires note < 128
    ensures Replay(EncodeNote(note, pressed)) == if pressed then NoteOn(note) else NoteOff(note)
  {
  }

  /** A note of 128 or above loses its top bit: its release replays as a press of
      `note - 128`. */
  lemma ReplayHighNote(note: u8)
    requires note >= 128
    ensures Replay(EncodeNote(note, false)) == NoteOn(note - 128)
  {
  }

  /** `seq_note`: while recording, append the key event at the record cursor; when the
      log is full, alert and drop to idle without touching the log or `last`. */
  function SeqNote(s: State, note: u8, pressed: bool): (r: Out)
    requires Valid(s)
    ensures Valid(r.state)
    ensures s.transport != Recording ==> r == Out(s, [])
    ensures s.transport == Recording && s.rec < Capacity ==>
      && r.effects == []
      && r.state.rec == s.rec + 1
      && r.state.log[s.rec] == Event(s.ticks, EncodeNote(note, pressed))
      && (forall i :: 0 <= i < Capacity && i != s.rec ==> r.state.log[i] == s.log[i])
      && r.state == s.(log := r.state.log, rec := r.state.rec)
    ensures s.transport == Recording && s.rec == Capacity ==>
      && r.effects == [Alert(100)]
      && r.state.transport == Idle
      && r.state == s.(transport := Idle)
  {
    if s.transport != Recording then Out(s, [])
    else if s.rec < Capacity then
      Out(s.(log := s.log[s.rec := Event(s.ticks, EncodeNote(note, pressed))], rec := s.rec + 1), [])
    else
      Out(s.(transport := Idle), [Alert(100)])
  }

  /** Number of entries the as-written `seq_sort` hands to `qsort`: the pointer
      difference is already an element count, and is divided by the element size again. */
  function SortCount(last: nat): (n: nat)
    ensures n <= last
    ensures last >= EventSize ==> n < last
  {
    last / EventSize
  }

  /** The `SEQ_CMD_STOP` case: leaving a recording makes the record cursor the end of the
      log and sorts the first `SortCount(last)` entries; the transport always ends idle. */
  function StopTransport(s: State): (r: State)
    requires Valid(s)
    ensures Valid(r)
    ensures r.transport == Idle
    ensures s.transport != Recording ==> r == s.(transport := Idle)
    ensures s.transport == Recording ==>
      var n := SortCount(s.rec);
      && r.last == s.rec
      && SortedByTicks(r.log[..n])
      && multiset(r.log[..n]) == multiset(s.log[..n])
      && r.log[n..] == s.log[n..]
      && r == s.(transport := Idle, last := s.rec, log := r.log)
  {
    if s.transport == Recording then
      s.(last := s.rec, log := SortPrefix(s.log, SortCount(s.rec)), transport := Idle)
    else
      s.(transport := Idle)
  }

  /** The same transition with the element count the sort evidently intends: the whole
      recorded prefix `[0, last)` ends sorted. */
  function StopIntended(s: State): (r: State)
    requires Valid(s)
    ensures Valid(r)
    ensures r.transport == Idle
    ensures s.transport == Recording ==>
      && r.last == s.rec
      && SortedByTicks(r.log[..r.last])
      && multiset(r.log[..r.last]) == multiset(s.log[..s.rec])
      && r.log[r.last..] == s.log[s.rec..]
  {
    if s.transport == Recording then
      s.(last := s.rec, log := SortPrefix(s.log, s.rec), transport := Idle)
    else
      s.(transport := Idle)
  }

  /** The play cursor after `SEQ_CMD_NEXT`. */
  function NextIndex(s: State): (p: nat)
    requires Valid(s)
    ensures s.play <= p <= s.play + 1
    ensures p == s.play + 1 <==> s.play < s.last
    ensures s.play <= s.last ==> p <= s.last
  {
    if s.play < s.last then s.play + 1 else s.play
  }

  /** The play cursor after `SEQ_CMD_PREV`. */
  function PrevIndex(s: State): (p: nat)
    requires Valid(s)
    ensures p < Capacity
    ensures s.play - 1 <= p <= s.play
    ensures p == s.play <==> s.play == 0
  {
    if s.play > 0 then s.play - 1 else s.play
  }

  /** `seq_cmd`: dispatch one command. `Undefined` marks the reads of `seq_last->ticks`
      and `seq_play->ticks` at index 200. */
  function Cmd(s: State, c: Command): (r: Outcome<State>)
    requires Valid(s)
    ensures r.Defined? ==> Valid(r.value)
    ensures r.Undefined? <==>
      || (c == Last && s.last == Capacity)
      || (c == Next && NextIndex(s) == Capacity)
    // CLEAR empties the log and rewinds, leaving the transport as it was.
    ensures c == Clear ==>
      r.Defined? && r.value.play == 0 && r.value.rec == 0 && r.value.last == 0 && r.value.ticks == 0
      && r.value.transport == s.transport && r.value.log == s.log && r.value.tempo == s.tempo
      && r.value == s.(play := 0, rec := 0, last := 0, ticks := 0)
    // FIRST rewinds the cursors and time but keeps the end of the log.
    ensures c == First ==>
      r.Defined? && r.value.play == 0 && r.value.rec == 0 && r.value.ticks == 0
      && r.value.last == s.last && r.value.transport == s.transport && r.value.log == s.log
      && r.value == s.(play := 0, rec := 0, ticks := 0)
    // LAST, PREV and NEXT move the play cursor and set time to the event under it.
    ensures c == Last && r.Defined? ==>
      r.value == s.(play := s.last, ticks := s.log[s.last].ticks)
    ensures c in {Prev, Next} && r.Defined? ==>
      r.value.play < Capacity && r.value.ticks == s.log[r.value.play].ticks
      && r.value == s.(play := r.value.play, ticks := r.value.ticks)
    ensures c == Prev ==> r.Defined? && r.value.play == PrevIndex(s)
    ensures c == Next && r.Defined? ==> r.value.play == NextIndex(s)
    // PLAY and REC only start from idle; REC resumes recording at the end of the log.
    ensures c == Play ==>
      && r.Defined?
      && r.value == (if s.transport == Idle then s.(transport := Playing) else s)
    ensures c == Rec ==>
      && r.Defined?
      && r.value == (if s.transport == Idle then s.(transport := Recording, rec := s.last) else s)
    ensures c == Stop ==> r.Defined? && r.value == StopTransport(s)
    // The tempo divider moves by exactly ten within [0, 250] and never wraps.
    ensures c == TempoDown ==>
      && r.Defined?
      && r.value == s.(tempo := r.value.tempo)
      && r.value.tempo == (if s.tempo <= 240 then s.tempo + 10 else s.tempo)
    ensures c == TempoUp ==>
      && r.Defined?
      && r.value == s.(tempo := r.value.tempo)
      && r.value.tempo == (if s.tempo >= 10 then s.tempo - 10 else s.tempo)
    ensures s.tempo <= 250 && r.Defined? ==> r.value.tempo <= 250
    // Commands without a case change nothing.
    ensures c in {Del, Metronome34, Metronome44, OneKeyOn, OneKeyOff} ==> r == Defined(s)
  {
    match c
    case Clear => Defined(s.(play := 0, rec := 0, last := 0, ticks := 0))
    case First => Defined(s.(play := 0, rec := 0, ticks := 0))
    case Last =>
      if s.last == Capacity then Undefined
      else Defined(s.(play := s.last, ticks := s.log[s.last].ticks))
    case Prev =>
      var p := PrevIndex(s);
      Defined(s.(play := p, ticks := s.log[p].ticks))
    case Next =>
      var p := NextIndex(s);
      if p == Capacity then Undefined
      else Defined(s.(play := p, ticks := s.log[p].ticks))
    case Play => Defined(if s.transport == Idle then s.(transport := Playing) else s)
    case Rec => Defined(if s.transport == Idle then s.(rec := s.last, transport := Recording) else s)
    case Stop => Defined(StopTransport(s))
    case TempoDown => Defined(if s.tempo <= 240 then s.(tempo := Wrap8(s.tempo + 10)) else s)
    case TempoUp => Defined(if s.tempo >= 10 then s.(tempo := Wrap8(s.tempo - 10)) else s)
    case Del => Defined(s)
    case Metronome34 => Defined(s)
    case Metronome44 => Defined(s)
    case OneKeyOn => Defined(s)
    case OneKeyOff => Defined(s)
  }

  /** NEXT then PREV returns to the event the cursor started on. */
  lemma PrevUndoesNext(s: State)
    requires Valid(s) && s.play < s.last && s.play + 1 < Capacity
    ensures Cmd(s, Next).Defined?
    ensures Cmd(Cmd(s, Next).value, Prev) == Defined(s.(ticks := s.log[s.play].ticks))
  {
  }

  /** PREV then NEXT returns to the event the cursor started on. */
  lemma NextUndoesPrev(s: State)
    requires Valid(s) && 0 < s.play <= s.last && s.play < Capacity
    ensures Cmd(Cmd(s, Prev).value, Next) == Defined(s.(ticks := s.log[s.play].ticks))
  {
  }

  /** True when this call of `seq_tick` is one that does sequencer work. */
  predicate IsStep(s: State) {
    s.transport != Idle && s.div == 0
  }

  /** The metronome clicks of a recording step: a short alert every 64 ticks and a long
      one every 256, the short one first. */
  function Clicks(s: State): (fx: seq<Effect>)
    ensures s.transport != Recording ==> fx == []
    ensures forall e :: e in fx ==> e.Alert?
    ensures Alert(5) in fx <==> s.transport == Recording && s.ticks % 64 == 0
    ensures Alert(25) in fx <==> s.transport == Recording && s.ticks % 256 == 0
    ensures Alert(100) !in fx
    ensures |fx| == 2 ==> fx == [Alert(5), Alert(25)]
  {
    if s.transport == Recording then
      (if s.ticks % 64 == 0 then [Alert(5)] else []) + (if s.ticks % 256 == 0 then [Alert(25)] else [])
    else []
  }

  /** How many of `fx` are note calls. */
  function NoteCount(fx: seq<Effect>): (n: nat)
    ensures n <= |fx|
  {
    if |fx| == 0 then 0 else (if fx[0].Alert? then 0 else 1) + NoteCount(fx[1..])
  }

  lemma {:induction false} NoteCountAppend(a: seq<Effect>, b: seq<Effect>)
    ensures NoteCount(a + b) == NoteCount(a) + NoteCount(b)
  {
    if |a| == 0 {
      assert a + b == b;
    } else {
      NoteCountAppend(a[1..], b);
      assert (a + b)[1..] == a[1..] + b;
    }
  }

  lemma {:induction false} NoteCountAlerts(fx: seq<Effect>)
    requires forall e :: e in fx ==> e.Alert?
    ensures NoteCount(fx) == 0
  {
    if |fx| > 0 {
      assert fx[0] in fx;
      assert forall e :: e in fx[1..] ==> e in fx;
      NoteCountAlerts(fx[1..]);
    }
  }

  /** `seq_tick`: in idle nothing happens, the divider included. Otherwise the divider
      counts down and, once every `tempo + 1` calls, a step fires the event under the
      play cursor if its time is now (at most one event per step, recording or not),
      stops playback at the end of the log, and advances time modulo 2^16. */
  function Tick(s: State): (r: Outcome<Out>)
    requires Valid(s)
    ensures s.transport == Idle ==> r == Defined(Out(s, []))
    ensures s.transport != Idle && s.div != 0 ==> r == Defined(Out(s.(div := s.div - 1), []))
    ensures r.Undefined? <==> IsStep(s) && s.play == Capacity
    ensures r.Defined? ==> Valid(r.value.state)
    ensures r.Defined? && IsStep(s) ==>
      var t := r.value.state;
      var fired := s.log[s.play].ticks == s.ticks;
      var stop := s.transport == Playing && t.play >= s.last;
      && t.div == s.tempo
      && t.ticks == Wrap16(s.ticks + 1)
      && t.play == (if fired then s.play + 1 else s.play)
      && NoteCount(r.value.effects) == (if fired then 1 else 0)
      && (fired ==> Replay(s.log[s.play].note) in r.value.effects)
      && (s.transport == Recording ==> t.transport == Recording)
      && (s.transport == Playing ==> (t.transport == Idle <==> t.play >= s.last))
      && (Alert(100) in r.value.effects <==> s.transport == Playing && t.transport == Idle)
      && Clicks(s) <= r.value.effects
      && t.transport == (if stop then Idle else s.transport)
      && r.value.effects
         == Clicks(s) + (if fired then [Replay(s.log[s.play].note)] else []) + (if stop then [Alert(100)] else [])
      && t.log == s.log && t.rec == s.rec && t.last == s.last && t.tempo == s.tempo
  {
    if s.transport == Idle then Defined(Out(s, []))
    else if s.div != 0 then Defined(Out(s.(div := s.div - 1), []))
    else if s.play == Capacity then Undefined
    else
      var e := s.log[s.play];
      var fired := e.ticks == s.ticks;
      var play := if fired then s.play + 1 else s.play;
      var notes := if fired then [Replay(e.note)] else [];
      var stop := s.transport == Playing && play >= s.last;
      var ending := if stop then [Alert(100)] else [];
      var fx := Clicks(s) + notes + ending;
      NoteCountAppend(Clicks(s) + notes, ending);
      NoteCountAppend(Clicks(s), notes);
      NoteCountAlerts(Clicks(s));
      NoteCountAlerts(ending);
      Defined(Out(
        s.(div := s.tempo, play := play, transport := if stop then Idle else s.transport,
           ticks := Wrap16(s.ticks + 1)),
        fx))
  }

  /** `k` successive calls of `seq_tick` with nothing in between; the calls made are
      concatenated. */
  function Ticks(s: State, k: nat): (r: Outcome<Out>)
    requires Valid(s)
    ensures r.Defined? ==> Valid(r.value.state)
    decreases k
  {
    if k == 0 then Defined(Out(s, []))
    else
      match Tick(s)
      case Undefined => Undefined
      case Defined(o) =>
        match Ticks(o.state, k - 1)
        case Undefined => Undefined
        case Defined(o2) => Defined(Out(o2.state, o.effects + o2.effects))
  }

  /** While the divider is counting down, calls only decrement it. */
  lemma {:induction false} WaitCalls(s: State, k: nat)
    requires Valid(s) && s.transport != Idle && k <= s.div
    ensures Ticks(s, k) == Defined(Out(s.(div := s.div - k), []))
    decreases k
  {
    if k > 0 {
      var s1 := s.(div := s.div - 1);
      assert Tick(s) == Defined(Out(s1, []));
      WaitCalls(s1, k - 1);
      assert s1.(div := s1.div - (k - 1)) == s.(div := s.div - k);
      var none: seq<Effect> := [];
      assert none + none == none;
    }
  }

  /** After a step that keeps the transport running, the next step comes exactly
      `tempo + 1` calls later: `tempo` silent calls, then a step. */
  lemma StepPeriod(s: State)
    requires Valid(s) && IsStep(s) && s.play < Capacity
    requires Tick(s).value.state.transport != Idle
    ensures
      var t := Tick(s).value.state;
      && Ticks(t, s.tempo) == Defined(Out(t.(div := 0), []))
      && IsStep(t.(div := 0))
  {
    var t := Tick(s).value.state;
    WaitCalls(t, t.div);
  }

  /** `k` key events fed to the recorder. */
  function Record(s: State, notes: seq<(u8, bool)>): (r: Out)
    requires Valid(s)
    ensures Valid(r.state)
    decreases |notes|
  {
    if |notes| == 0 then Out(s, [])
    else
      var o := SeqNote(s, notes[0].0, notes[0].1);
      var o2 := Record(o.state, notes[1..]);
      Out(o2.state, o.effects + o2.effects)
  }

  /** Recording `n` notes into a log with room for them advances the record cursor by
      `n` and stays in recording. */
  lemma {:induction false} RecordFills(s: State, notes: seq<(u8, bool)>)
    requires Valid(s) && s.transport == Recording && s.rec + |notes| <= Capacity
    ensures Record(s, notes).state.transport == Recording
    ensures Record(s, notes).state.rec == s.rec + |notes|
    ensures Record(s, notes).state.last == s.last
    decreases |notes|
  {
    if |notes| > 0 {
      RecordFills(SeqNote(s, notes[0].0, notes[0].1).state, notes[1..]);
    }
  }

  /** The read past the end of the log is reachable from power-on: record 200 notes
      into an empty log, stop, and ask for the last event. */
  lemma LastReadsPastEnd(notes: seq<(u8, bool)>)
    requires |notes| == Capacity
    ensures
      var s0 := Init(PowerOn());
      var s1 := Cmd(s0, Rec).value;
      var s2 := Record(s1, notes).state;
      var s3 := Cmd(s2, Stop).value;
      s3.last == Capacity && Cmd(s3, Last) == Undefined
  {
    var s0 := Init(PowerOn());
    var s1 := Cmd(s0, Rec).value;
    RecordFills(s1, notes);
  }

  /** The sort after recording covers only a third of the log: events recorded later at
      earlier times stay out of order. */
  lemma StopLeavesLogUnsorted(s: State)
    requires Valid(s) && s.transport == Recording && s.rec == 3
    requires s.log[0].ticks == 10 && s.log[1].ticks == 20 && s.log[2].ticks == 5
    ensures !SortedByTicks(StopTransport(s).log[..StopTransport(s).last])
  {
    var r := StopTransport(s);
    assert r.log[1..] == s.log[1..];
    assert r.log[1] == s.log[1] && r.log[2] == s.log[2];
  }

  /** Replay of a recording: the event written by `seq_note` is fired, as the same key
      event, by any later step whose play cursor reaches it at its own time. */
  lemma RecordThenReplay(s: State, note: u8, pressed: bool, p: State)
    requires Valid(s) && s.transport == Recording && s.rec < Capacity && note < 128
    requires Valid(p) && IsStep(p) && p.play < Capacity
    requires p.log[p.play] == SeqNote(s, note, pressed).state.log[s.rec]
    requires p.ticks == s.ticks
    ensures Tick(p).Defined?
    ensures (if pressed then NoteOn(note) else NoteOff(note)) in Tick(p).value.effects
  {
    ReplayEncode(note, pressed);
  }

  /** The end of the run of events from `p` on whose time is `now`. */
  function RunEnd(log: seq<Event>, p: nat, now: u16): (e: nat)
    requires |log| == Capacity && p <= Capacity
    ensures p <= e <= Capacity
    ensures forall i :: p <= i < e ==> log[i].ticks == now
    ensures e == Capacity || log[e].ticks != now
    decreases Capacity - p
  {
    if p == Capacity || log[p].ticks != now then p else RunEnd(log, p + 1, now)
  }

  /** The note calls replaying `log[from..to]`, in log order. */
  function Fired(log: seq<Event>, from: nat, to: nat): (fx: seq<Effect>)
    requires from <= to <= |log|
    ensures |fx| == to - from
    ensures forall i :: 0 <= i < |fx| ==> fx[i] == Replay(log[from + i].note)
  {
    seq(to - from, i requires 0 <= i < to - from => Replay(log[from + i].note))
  }

  lemma {:induction false} NoteCountNotes(fx: seq<Effect>)
    requires forall i :: 0 <= i < |fx| ==> !fx[i].Alert?
    ensures NoteCount(fx) == |fx|
  {
    if |fx| > 0 {
      NoteCountNotes(fx[1..]);
    }
  }

  /** `seq_tick` with the step firing every event due now, as the per-step playback
      evidently intends: the play cursor moves past the whole run of events whose time
      is the current time. It never reads past the end of the log. */
  function TickIntended(s: State): (r: Out)
    requires Valid(s)
    ensures Valid(r.state)
    ensures s.transport == Idle ==> r == Out(s, [])
    ensures s.transport != Idle && s.div != 0 ==> r == Out(s.(div := s.div - 1), [])
    ensures IsStep(s) ==>
      var t := r.state;
      && t.div == s.tempo
      && t.ticks == Wrap16(s.ticks + 1)
      && s.play <= t.play
      && (forall i :: s.play <= i < t.play ==> s.log[i].ticks == s.ticks)
      && (t.play == Capacity || s.log[t.play].ticks != s.ticks)
      && NoteCount(r.effects) == t.play - s.play
      && (forall i :: s.play <= i < t.play ==> Replay(s.log[i].note) in r.effects)
      && (s.transport == Playing ==> (t.transport == Idle <==> t.play >= s.last))
      && t.log == s.log && t.rec == s.rec && t.last == s.last && t.tempo == s.tempo
  {
    if s.transport == Idle then Out(s, [])
    else if s.div != 0 then Out(s.(div := s.div - 1), [])
    else
      var play := RunEnd(s.log, s.play, s.ticks);
      var notes := Fired(s.log, s.play, play);
      var stop := s.transport == Playing && play >= s.last;
      var ending := if stop then [Alert(100)] else [];
      var fx := Clicks(s) + notes + ending;
      NoteCountAppend(Clicks(s) + notes, ending);
      NoteCountAppend(Clicks(s), notes);
      NoteCountAlerts(Clicks(s));
      NoteCountAlerts(ending);
      NoteCountNotes(notes);
      forall i | s.play <= i < play
        ensures Replay(s.log[i].note) in fx
      {
        assert fx[|Clicks(s)| + (i - s.play)] == notes[i - s.play];
      }
      Out(
        s.(div := s.tempo, play := play, transport := if stop then Idle else s.transport,
           ticks := Wrap16(s.ticks + 1)),
        fx)
  }

  /** Two events recorded at the same time: the step as written fires only the first,
      and the step after it, one time unit later, fires nothing and leaves the cursor on
      the second, whose time has passed. */
  lemma SimultaneousEventSkipped(s: State)
    requires Valid(s) && IsStep(s) && s.transport == Recording
    requires s.play + 1 < Capacity && s.ticks < 65535
    requires s.log[s.play].ticks == s.ticks && s.log[s.play + 1].ticks == s.ticks
    ensures Tick(s).Defined?
    ensures NoteCount(Tick(s).value.effects) == 1
    ensures
      var u := Tick(s).value.state.(div := 0);
      && u.play == s.play + 1
      && Tick(u).Defined?
      && NoteCount(Tick(u).value.effects) == 0
      && Tick(u).value.state.play == s.play + 1
  {
  }

  /** The corrected step fires both events at their shared time. */
  lemma SimultaneousEventsFire(s: State)
    requires Valid(s) && IsStep(s)
    requires s.play + 1 < Capacity
    requires s.log[s.play].ticks == s.ticks && s.log[s.play + 1].ticks == s.ticks
    ensures Replay(s.log[s.play].note) in TickIntended(s).effects
    ensures Replay(s.log[s.play + 1].note) in TickIntended(s).effects
    ensures TickIntended(s).state.play >= s.play + 2
  {
    var r := TickIntended(s);
    var t := r.state;
    assert s.play <= t.play && (t.play == Capacity || s.log[t.play].ticks != s.ticks);
    assert t.play != s.play && t.play != s.play + 1;
    assert s.play < t.play && s.play + 1 < t.play;
  }
}
