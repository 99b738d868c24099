/**
 The earlier synthesis generation of piano.c: a four-slot pool allocated purely round
 robin, an envelope that moves one step every `a`, `d` or `r` ticks with exact-equality
 transitions in `uint8_t` arithmetic, one slot's envelope updated per call, a key-number
 to note mapping, and a mixer whose output is offset for the PWM register.

 One timer interrupt drives both the mixer (every third call) and the envelope updates
 (every eighth call).
 */
module Piano {
  import opened Machine
  import opened Tables
  import opened Voice

  /** The envelope every `note_on` starts: attack 1, decay 8, sustain 100, release 2. */
  const NoteOnAdsr := Adsr(1, 8, 100, 2, 0, Attack)

  /** `handle_key`: key numbers map to notes 20 higher, pressed at full velocity. */
  const KeyOffset := 20
  const KeyVelocity := 255

  /** The file's statics: the pool, `cur_osc`, the index static inside `update_oscs`
      and the counter static inside the timer interrupt. */
  datatype State = State(oscs: seq<Osc>, curOsc: u8, updIdx: u8, isrT: u8)

  predicate Valid(s: State) {
    IsPool(s.oscs) && s.curOsc < NumOscs && s.updIdx < NumOscs
  }

  function PowerOn(): (s: State)
    ensures Valid(s)
  {
    State(seq(NumOscs, _ => ZeroOsc), 0, 0, 0)
  }

  /** An envelope update is defined: the current stage's rate is not zero, since the
      update computes `ticks % rate`. */
  predicate UpdateDefined(o: Osc) {
    && (o.adsr.state == Attack ==> o.adsr.a > 0)
    && (o.adsr.state == Decay ==> o.adsr.d > 0)
    && (o.adsr.state == Release ==> o.adsr.r > 0)
  }

  /** All three rates set, as `note_on` leaves them. */
  predicate Ready(o: Osc) {
    o.adsr.a > 0 && o.adsr.d > 0 && o.adsr.r > 0
  }

  /** A zero-initialised slot is in attack with rate 0: updating it before any `note_on`
      has claimed it divides by zero. */
  lemma ZeroSlotUndefined()
    ensures !UpdateDefined(ZeroOsc)
    ensures !UpdateDefined(PowerOn().oscs[PowerOn().updIdx])
  {
  }

  /** `(i + 1) % NUM_OSCS` for a slot index: the next slot, wrapping after the last. */
  function NextSlot(i: nat): (n: nat)
    requires i < NumOscs
    ensures n < NumOscs
    ensures n == (i + 1) % NumOscs
  {
    if i == NumOscs - 1 then 0 else i + 1
  }

  /** `note_on`: the free-slot loop's result is overwritten, so the slot written is always
      `cur_osc`, which then moves on by one modulo 4. */
  function NoteOn(s: State, note: u8, vel: u8): (r: State)
    requires Valid(s)
    ensures Valid(r)
    ensures r.curOsc == NextSlot(s.curOsc)
    ensures r.updIdx == s.updIdx && r.isrT == s.isrT
    ensures |r.oscs| == NumOscs
    ensures forall j :: 0 <= j < NumOscs && j != s.curOsc ==> r.oscs[j] == s.oscs[j]
    ensures var o := r.oscs[s.curOsc];
      && o.note == note
      && o.step == StepFor(note)
      && o.vel == vel
      && o.ticks == 0
      && o.adsr == NoteOnAdsr
      && o.off == s.oscs[s.curOsc].off
      && Ready(o)
  {
    var k := s.curOsc;
    var o := s.oscs[k];
    s.(oscs := s.oscs[k := o.(note := note, step := StepFor(note), vel := vel, ticks := 0, adsr := NoteOnAdsr)],
       curOsc := NextSlot(k))
  }

  /** Four note-ons in a row write four different slots, one each, and bring `cur_osc`
      back where it started: the oldest note is always the one replaced. */
  lemma NoteOnRoundRobin(s: State, n0: u8, n1: u8, n2: u8, n3: u8)
    requires Valid(s)
    ensures
      var r := NoteOn(NoteOn(NoteOn(NoteOn(s, n0, KeyVelocity), n1, KeyVelocity), n2, KeyVelocity), n3, KeyVelocity);
      && r.curOsc == s.curOsc
      && r.oscs[s.curOsc].note == n0
      && r.oscs[NextSlot(s.curOsc)].note == n1
      && r.oscs[NextSlot(NextSlot(s.curOsc))].note == n2
      && r.oscs[NextSlot(NextSlot(NextSlot(s.curOsc)))].note == n3
  {
    var s1 := NoteOn(s, n0, KeyVelocity);
    var s2 := NoteOn(s1, n1, KeyVelocity);
    var s3 := NoteOn(s2, n2, KeyVelocity);
    RoundRobinStep(s, s1, n0);
    RoundRobinStep(s1, s2, n1);
    RoundRobinStep(s2, s3, n2);
  }

  /** One note-on of the round: the slot written holds `note`, and every other slot
      keeps its note. */
  lemma RoundRobinStep(s: State, r: State, note: u8)
    requires Valid(s) && r == NoteOn(s, note, KeyVelocity)
    ensures r.oscs[s.curOsc].note == note
    ensures forall j :: 0 <= j < NumOscs && j != s.curOsc ==> r.oscs[j].note == s.oscs[j].note
  {
  }

  /** `note_off` on the piano pool. */
  function NoteOffPool(s: State, note: u8): (r: State)
    requires Valid(s)
    ensures Valid(r)
    ensures r.curOsc == s.curOsc && r.updIdx == s.updIdx && r.isrT == s.isrT
    ensures forall j :: 0 <= j < NumOscs && s.oscs[j].note == note ==> r.oscs[j] == Released(s.oscs[j])
    ensures forall j :: 0 <= j < NumOscs && s.oscs[j].note != note ==> r.oscs[j] == s.oscs[j]
  {
    s.(oscs := NoteOff(s.oscs, note))
  }

  /** Whether this update's tick is a multiple of `rate`. */
  function OnBeat(o: Osc, rate: u8): (b: bool)
    requires rate > 0
  {
    o.ticks % rate == 0
  }

  /** `update_osc`: one envelope step in `uint8_t` arithmetic. */
  function UpdateOsc(o: Osc): (r: Osc)
    requires UpdateDefined(o)
    ensures Ready(o) ==> Ready(r)
    ensures r.ticks == Wrap16(o.ticks + 1)
    ensures r.note == o.note && r.off == o.off && r.step == o.step
    ensures r.adsr == o.adsr.(vel := r.adsr.vel, state := r.adsr.state)
    ensures o.adsr.state != Finished ==> r.vel == o.vel
    // Attack: one step up every `a` ticks; decay begins exactly at 255.
    ensures o.adsr.state == Attack ==>
      && r.adsr.vel == Wrap8(o.adsr.vel + (if OnBeat(o, o.adsr.a) then 1 else 0))
      && (r.adsr.state == Decay <==> r.adsr.vel == 255)
      && (r.adsr.state == Attack || r.adsr.state == Decay)
    // Decay: one step down every `d` ticks; sustain begins exactly at `s`.
    ensures o.adsr.state == Decay ==>
      && r.adsr.vel == Wrap8(o.adsr.vel - (if OnBeat(o, o.adsr.d) then 1 else 0))
      && (r.adsr.state == Sustain <==> r.adsr.vel == o.adsr.s)
      && (r.adsr.state == Decay || r.adsr.state == Sustain)
    ensures o.adsr.state == Sustain ==> r.adsr == o.adsr
    // Release: one step down every `r` ticks; finished exactly at 0.
    ensures o.adsr.state == Release ==>
      && r.adsr.vel == Wrap8(o.adsr.vel - (if OnBeat(o, o.adsr.r) then 1 else 0))
      && (r.adsr.state == Finished <==> r.adsr.vel == 0)
      && (r.adsr.state == Release || r.adsr.state == Finished)
    // Finished: the slot's own velocity is zeroed; the note is kept.
    ensures o.adsr.state == Finished ==> r.adsr == o.adsr && r.vel == 0
  {
    var a := o.adsr;
    var next: (u8, EnvState) :=
      match a.state
      case Attack =>
        var v := Wrap8(a.vel + (if OnBeat(o, a.a) then 1 else 0));
        (v, if v == 255 then Decay else Attack)
      case Decay =>
        var v := Wrap8(a.vel - (if OnBeat(o, a.d) then 1 else 0));
        (v, if v == a.s then Sustain else Decay)
      case Sustain => (a.vel, Sustain)
      case Release =>
        var v := Wrap8(a.vel - (if OnBeat(o, a.r) then 1 else 0));
        (v, if v == 0 then Finished else Release)
      case Finished => (a.vel, Finished);
    o.(vel := if a.state == Finished then 0 else o.vel,
       adsr := a.(vel := next.0, state := next.1),
       ticks := Wrap16(o.ticks + 1))
  }

  /** Releasing a slot whose amplitude is still 0 (released before its first attack
      step) wraps the amplitude to 255 instead of finishing. */
  lemma ReleaseFromZeroWraps(o: Osc)
    requires o.adsr.state == Release && o.adsr.r > 0 && o.adsr.vel == 0 && o.ticks % o.adsr.r == 0
    ensures UpdateOsc(o).adsr.vel == 255
    ensures UpdateOsc(o).adsr.state == Release
  {
  }

  /** The finished stage never frees the slot: the note stays set for good. */
  lemma FinishedKeepsNote(o: Osc)
    requires o.adsr.state == Finished && o.note != 0
    ensures UpdateOsc(o).note == o.note && UpdateOsc(o).adsr.state == Finished
  {
  }

  /** `update_oscs`: one slot per call, in round-robin order. */
  function UpdateOscs(s: State): (r: State)
    requires Valid(s) && UpdateDefined(s.oscs[s.updIdx])
    ensures Valid(r)
    ensures r.updIdx == NextSlot(s.updIdx)
    ensures r.curOsc == s.curOsc && r.isrT == s.isrT
    ensures r.oscs == s.oscs[s.updIdx := UpdateOsc(s.oscs[s.updIdx])]
  {
    var i := s.updIdx;
    s.(oscs := s.oscs[i := UpdateOsc(s.oscs[i])], updIdx := NextSlot(i))
  }

  predicate AllReady(oscs: seq<Osc>) {
    forall i :: 0 <= i < |oscs| ==> Ready(oscs[i])
  }

  /** Four consecutive calls update every slot exactly once and return the index to
      where it started. */
  lemma FourUpdatesEachSlotOnce(s: State)
    requires Valid(s) && AllReady(s.oscs)
    ensures
      var s1 := UpdateOscs(s);
      var s2 := UpdateOscs(s1);
      var s3 := UpdateOscs(s2);
      var s4 := UpdateOscs(s3);
      && s4.updIdx == s.updIdx
      && forall j :: 0 <= j < NumOscs ==> s4.oscs[j] == UpdateOsc(s.oscs[j])
  {
    var s1 := UpdateOscs(s);
    assert AllReady(s1.oscs);
    var s2 := UpdateOscs(s1);
    assert AllReady(s2.oscs);
    var s3 := UpdateOscs(s2);
    assert AllReady(s3.oscs);
    var s4 := UpdateOscs(s3);
  }

  /** `handle_key`: key `keynum` plays note `keynum + 20` (stored in a `uint8_t`). */
  function HandleKey(s: State, keynum: u8, pressed: bool): (r: State)
    requires Valid(s)
    ensures Valid(r)
    ensures pressed ==>
      && r.curOsc == NextSlot(s.curOsc)
      && r.oscs[s.curOsc].note == Wrap8(keynum + KeyOffset)
      && r.oscs[s.curOsc].vel == 255
      && r.oscs[s.curOsc].adsr == NoteOnAdsr
    ensures !pressed ==> r.curOsc == s.curOsc && forall j :: 0 <= j < NumOscs ==>
      r.oscs[j] == (if s.oscs[j].note == Wrap8(keynum + KeyOffset) then Released(s.oscs[j]) else s.oscs[j])
  {
    var note := Wrap8(keynum + KeyOffset);
    if pressed then NoteOn(s, note, KeyVelocity) else NoteOffPool(s, note)
  }

  /** Pressing and releasing a key leaves the slot the press claimed in release, with
      the key's note and full velocity. */
  lemma PressThenRelease(s: State, keynum: u8)
    requires Valid(s)
    ensures
      var r := HandleKey(HandleKey(s, keynum, true), keynum, false);
      && r.oscs[s.curOsc].note == Wrap8(keynum + KeyOffset)
      && r.oscs[s.curOsc].adsr.state == Release
      && r.oscs[s.curOsc].vel == KeyVelocity
  {
  }

  /** `audio_set`: the signed sample arrives as a `uint8_t` and `v + 128` is stored into
      the 8-bit register. */
  function AudioSet(v: u8): (level: u8)
    ensures v < 128 ==> level == v + 128
    ensures v >= 128 ==> level == v - 128
  {
    Wrap8(v + 128)
  }

  /** The mixing loop: every slot contributes, sounding or not, and every phase
      advances. The output is the voice sum offset by 128 and lies in [4, 252]. */
  function MixSample(s: State): (r: (State, u8))
    requires Valid(s)
    ensures Valid(r.0)
    ensures r.0 == s.(oscs := Advance(s.oscs))
    ensures r.1 == VoiceSum(s.oscs, false) + 128
    ensures 4 <= r.1 <= 252
  {
    MixBounded(s.oscs, false);
    var c := MixFold(0, s.oscs, false);
    (s.(oscs := Advance(s.oscs)), AudioSet(Wrap8(c)))
  }

  /** The first half of the timer interrupt: the counter advances and, on multiples of
      3, a sample is mixed. No envelope changes. */
  function Tock(s: State): (r: (State, Dac))
    requires Valid(s)
    ensures Valid(r.0)
    ensures r.0.isrT == Wrap8(s.isrT + 1)
    ensures r.0.curOsc == s.curOsc && r.0.updIdx == s.updIdx
    ensures r.0.oscs == (if r.0.isrT % 3 == 0 then Advance(s.oscs) else s.oscs)
    ensures forall j :: 0 <= j < NumOscs ==> r.0.oscs[j].adsr == s.oscs[j].adsr
    ensures r.1.Write? <==> r.0.isrT % 3 == 0
    ensures r.1.Write? ==> r.1 == Write(MixSample(s).1)
  {
    var t := Wrap8(s.isrT + 1);
    var s1 := s.(isrT := t);
    if t % 3 == 0 then
      var m := MixSample(s1);
      (m.0, Write(m.1))
    else (s1, Hold)
  }

  /** The timer interrupt: the 8-bit counter advances; on multiples of 3 a sample is
      mixed and written, on multiples of 8 one envelope is updated. That update is
      undefined when the slot's current rate is 0. */
  function Isr(s: State): (r: Outcome<(State, Dac)>)
    requires Valid(s)
    ensures r.Undefined? <==> Wrap8(s.isrT + 1) % 8 == 0 && !UpdateDefined(s.oscs[s.updIdx])
    ensures r.Defined? ==>
      && Valid(r.value.0)
      && r.value.0.isrT == Wrap8(s.isrT + 1)
      && r.value.0.curOsc == s.curOsc
      && (Wrap8(s.isrT + 1) % 8 != 0 ==> forall j :: 0 <= j < NumOscs ==> r.value.0.oscs[j].adsr == s.oscs[j].adsr)
      && (r.value.1.Write? <==> Wrap8(s.isrT + 1) % 3 == 0)
      && (r.value.1.Write? ==> r.value.1 == Write(MixSample(s).1))
      && r.value.0.updIdx == (if Wrap8(s.isrT + 1) % 8 == 0 then NextSlot(s.updIdx) else s.updIdx)
    ensures r.Defined? ==>
      var t := Wrap8(s.isrT + 1);
      var m := if t % 3 == 0 then Advance(s.oscs) else s.oscs;
      r.value.0.oscs == (if t % 8 == 0 then m[s.updIdx := UpdateOsc(m[s.updIdx])] else m)
  {
    var m := Tock(s);
    var s2 := m.0;
    if s2.isrT % 8 != 0 then Defined(m)
    else if UpdateDefined(s2.oscs[s2.updIdx]) then Defined((UpdateOscs(s2), m.1))
    else Undefined
  }

  /** `k` consecutive interrupts, stopping at the first undefined one. */
  function Isrs(s: State, k: nat): (r: Outcome<State>)
    requires Valid(s)
    ensures r.Defined? ==> Valid(r.value)
    decreases k
  {
    if k == 0 then Defined(s)
    else
      var o := Isr(s);
      if o.Undefined? then Undefined else Isrs(o.value.0, k - 1)
  }

  /** Power-on state with only the interrupt counter moved on. */
  predicate Untouched(s: State) {
    s == PowerOn().(isrT := s.isrT)
  }

  /** One interrupt on an untouched pool before the counter reaches 8 changes only the
      counter: every phase step is 0, so mixing leaves the phases where they are. */
  lemma UntouchedStep(s: State)
    requires Untouched(s) && s.isrT < 7
    ensures Isr(s).Defined? && Untouched(Isr(s).value.0) && Isr(s).value.0.isrT == s.isrT + 1
  {
    var zeros := seq(NumOscs, _ => ZeroOsc);
    assert Advance(zeros) == zeros;
  }

  /** The eighth interrupt updates slot 0, whose attack rate is still 0. */
  lemma UntouchedLast(s: State)
    requires Untouched(s) && s.isrT == 7
    ensures Isr(s).Undefined?
  {
    assert !UpdateDefined(s.oscs[s.updIdx]);
  }

  lemma {:induction false} UntouchedRun(s: State, k: nat)
    requires Untouched(s) && s.isrT <= 7 && s.isrT + k <= 8
    ensures s.isrT + k <= 7 ==> Isrs(s, k).Defined?
    ensures s.isrT + k == 8 ==> Isrs(s, k).Undefined?
    decreases k
  {
    if k > 0 {
      if s.isrT == 7 {
        UntouchedLast(s);
      } else {
        UntouchedStep(s);
        UntouchedRun(Isr(s).value.0, k - 1);
        assert Isrs(s, k) == Isrs(Isr(s).value.0, k - 1);
      }
    }
  }

  /** From power-on, the eighth interrupt updates slot 0 while its attack rate is still
      0: unless a key has been pressed by then, the program computes `ticks % 0`. */
  lemma PowerOnDividesByZero()
    ensures Isrs(PowerOn(), 7).Defined?
    ensures Isrs(PowerOn(), 8).Undefined?
  {
    UntouchedRun(PowerOn(), 7);
    UntouchedRun(PowerOn(), 8);
  }

  /** Where the 8-bit counter wraps (255 to 0), two consecutive calls both mix, since 256
      is not a multiple of 3: the sample period jitters once every 256 calls. */
  lemma IsrWrapMixesTwice(s: State)
    requires Valid(s) && s.isrT == 254
    ensures Tock(s).1.Write? && Tock(s).0.isrT == 255
    ensures Tock(Tock(s).0).1.Write? && Tock(Tock(s).0).0.isrT == 0
    ensures Isr(s).Defined? && Isr(s).value == Tock(s)
  {
    var t1 := Tock(s);
    assert t1.0.isrT == 255 && t1.0.isrT % 8 == 7;
    assert Isr(s) == Defined(t1);
    assert Wrap8(t1.0.isrT + 1) == 0;
  }

}
