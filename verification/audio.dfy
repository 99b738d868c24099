/**
 The current synthesis engine of audio.c: a four-slot voice pool with first-free
 allocation, a five-stage envelope updated once every eleven tick interrupts, and a
 mixer run once every three audio interrupts that sums the sounding voices, adds the
 alert tone and the metronome clicks, attenuates by a right shift and offsets the
 result for the PWM output.

 Each interrupt body and each call is one atomic step on an immutable `State`.
 */
module Audio {
  import opened Machine
  import opened Tables
  import opened Voice

  /** `t++ == 10`: the tick interrupt updates envelopes on one call in eleven. */
  const TickDivide := 10

  /** The audio interrupt mixes on every third call. */
  const SampleDivide := 3

  /** `bip()` length in mixed samples and the alert tone's phase increment. */
  const BipLength := 1000
  const BipStep := 10000

  /** The envelope every `note_on` starts: attack 70, decay 5, sustain 100, release 10. */
  const NoteOnAdsr := Adsr(70, 5, 100, 10, 0, Attack)

  /** The file's statics, plus the dividers static inside the two interrupts. */
  datatype State = State(
    oscs: seq<Osc>,
    masterVol: u8,
    metronome: u8,
    ticks: u8,
    bipOff: u16,
    bipT: u16,
    tickDiv: u8,
    sampleDiv: u8)

  /** An envelope update is defined: the release stage computes `ticks % r`. */
  predicate ReleaseSafe(o: Osc) {
    o.adsr.state == Release ==> o.adsr.r > 0
  }

  /** A slot that holds a note went through `note_on`, so its release rate is set. */
  predicate SlotInv(o: Osc) {
    && ReleaseSafe(o)
    && (o.note != 0 ==> o.adsr.r > 0)
  }

  predicate PoolInv(oscs: seq<Osc>) {
    IsPool(oscs) && forall i :: 0 <= i < |oscs| ==> SlotInv(oscs[i])
  }

  predicate Valid(s: State) {
    PoolInv(s.oscs)
  }

  /** All statics zero at power-on. */
  function PowerOn(): (s: State)
    ensures Valid(s)
  {
    State(seq(NumOscs, _ => ZeroOsc), 0, 0, 0, 0, 0, 0, 0)
  }

  /** The slot-search loop of `note_on`, from slot `i` on: it stops at the first free
      slot, and when it runs off the end the pointer is left at the last slot. */
  function FreeSlotFrom(oscs: seq<Osc>, i: nat): (k: nat)
    requires IsPool(oscs) && i < NumOscs
    ensures i <= k < NumOscs
    ensures forall j :: i <= j < k ==> oscs[j].note != 0
    ensures oscs[k].note == 0 || k == NumOscs - 1
    decreases NumOscs - i
  {
    if i == NumOscs - 1 || oscs[i].note == 0 then i else FreeSlotFrom(oscs, i + 1)
  }

  /** The slot `note_on` writes: the first free one, or slot 3 when all are taken. */
  function SlotFor(oscs: seq<Osc>): (k: nat)
    requires IsPool(oscs)
    ensures k < NumOscs
    ensures (exists j :: 0 <= j < NumOscs && oscs[j].note == 0) ==>
      oscs[k].note == 0 && forall j :: 0 <= j < k ==> oscs[j].note != 0
    ensures (forall j :: 0 <= j < NumOscs ==> oscs[j].note != 0) ==> k == NumOscs - 1
  {
    FreeSlotFrom(oscs, 0)
  }

  /** `note_on`: claim a slot, set its note, its phase increment for the note and a fresh
      attack envelope. The phase `off` and the slot's `vel` are not reset. The claimed
      slot gets release rate 10, so a note-on repairs the slot it claims: the pool is
      valid afterwards when every other slot was. */
  function NoteOn(s: State, note: u8): (r: State)
    requires IsPool(s.oscs)
    ensures |r.oscs| == NumOscs
    ensures SlotInv(r.oscs[SlotFor(s.oscs)])
    ensures (forall j :: 0 <= j < NumOscs && j != SlotFor(s.oscs) ==> SlotInv(s.oscs[j])) ==> Valid(r)
    ensures Valid(s) ==> Valid(r)
    ensures var k := SlotFor(s.oscs);
      && r == s.(oscs := r.oscs)
      && |r.oscs| == NumOscs
      && (forall j :: 0 <= j < NumOscs && j != k ==> r.oscs[j] == s.oscs[j])
      && r.oscs[k].note == note
      && r.oscs[k].step == StepFor(note)
      && r.oscs[k].ticks == 0
      && r.oscs[k].adsr == NoteOnAdsr
      && r.oscs[k].off == s.oscs[k].off
      && r.oscs[k].vel == s.oscs[k].vel
  {
    var k := SlotFor(s.oscs);
    var o := s.oscs[k];
    s.(oscs := s.oscs[k := o.(note := note, step := StepFor(note), ticks := 0, adsr := NoteOnAdsr)])
  }

  /** Allocation under pressure never loses a slot: a note-on adds one sounding voice
      while any slot is free, and with all four busy it replaces one. */
  lemma NoteOnActiveCount(s: State, note: u8)
    requires IsPool(s.oscs) && note != 0
    ensures ActiveCount(NoteOn(s, note).oscs) ==
      if ActiveCount(s.oscs) < NumOscs then ActiveCount(s.oscs) + 1 else NumOscs
  {
    var k := SlotFor(s.oscs);
    var r := NoteOn(s, note);
    assert r.oscs == s.oscs[k := r.oscs[k]];
    ActiveCountUpdate(s.oscs, k, r.oscs[k]);
    ActiveCountFull(s.oscs);
  }

  /** `note_off` on the audio pool; every slot holding `note` enters release. Releasing
      a real note keeps the pool invariant; releasing note 0 does not (see below). */
  function NoteOffPool(s: State, note: u8): (r: State)
    requires IsPool(s.oscs)
    ensures note != 0 && Valid(s) ==> Valid(r)
    ensures |r.oscs| == NumOscs
    ensures forall j :: 0 <= j < NumOscs && s.oscs[j].note == note ==> r.oscs[j] == Released(s.oscs[j])
    ensures forall j :: 0 <= j < NumOscs && s.oscs[j].note != note ==> r.oscs[j] == s.oscs[j]
    ensures r == s.(oscs := r.oscs)
  {
    var oscs := NoteOff(s.oscs, note);
    assert forall i :: 0 <= i < |oscs| ==> SameButState(oscs[i], s.oscs[i]);
    s.(oscs := oscs)
  }

  /** A press then a release of the same note leaves the claimed slot releasing that
      note at rate 10, so it is free again 27 envelope updates later. */
  lemma NoteOnThenOff(s: State, note: u8)
    requires IsPool(s.oscs) && note != 0
    ensures
      var k := SlotFor(s.oscs);
      var o := NoteOffPool(NoteOn(s, note), note).oscs[k];
      && o.note == note && o.adsr.state == Release && o.adsr.r == 10
      && Updates(o, 27).note == 0
  {
    var k := SlotFor(s.oscs);
    var o := NoteOffPool(NoteOn(s, note), note).oscs[k];
    ReleaseWithin26(o);
  }

  /** A release of note 0 reaches the never-used slots, whose release rate is 0: the next
      envelope update of such a slot divides by zero. */
  lemma NoteOffZeroUnsafe()
    ensures !ReleaseSafe(NoteOff(PowerOn().oscs, 0)[0])
  {
  }

  /** The first `k` slots hold notes and keep the invariant; the rest are free. */
  predicate FilledUpTo(oscs: seq<Osc>, k: nat) {
    && IsPool(oscs)
    && (forall j :: 0 <= j < k && j < |oscs| ==> oscs[j].note != 0 && SlotInv(oscs[j]))
    && (forall j :: k <= j < |oscs| ==> oscs[j].note == 0)
  }

  /** With the first `k` slots taken, a note-on of a real note claims slot `k`. */
  lemma ClaimNext(s: State, note: u8, k: nat)
    requires FilledUpTo(s.oscs, k) && k < NumOscs && note != 0
    ensures SlotFor(s.oscs) == k
    ensures FilledUpTo(NoteOn(s, note).oscs, k + 1)
  {
    assert s.oscs[k].note == 0;
  }

  /** The damage of a `note_off(0)` is undone by note-ons: after it, four note-ons of
      real notes claim the four slots in order and the pool is valid again. */
  lemma NoteOnsRepairZeroRelease(n0: u8, n1: u8, n2: u8, n3: u8)
    requires n0 != 0 && n1 != 0 && n2 != 0 && n3 != 0
    ensures !Valid(NoteOffPool(PowerOn(), 0))
    ensures Valid(NoteOn(NoteOn(NoteOn(NoteOn(NoteOffPool(PowerOn(), 0), n0), n1), n2), n3))
  {
    var s0 := NoteOffPool(PowerOn(), 0);
    assert !SlotInv(s0.oscs[0]);
    assert FilledUpTo(s0.oscs, 0);
    ClaimNext(s0, n0, 0);
    var s1 := NoteOn(s0, n0);
    ClaimNext(s1, n1, 1);
    var s2 := NoteOn(s1, n1);
    ClaimNext(s2, n2, 2);
    var s3 := NoteOn(s2, n2);
    ClaimNext(s3, n3, 3);
  }

  /** Whether a release update takes its extra step of 2 (`ticks % r == 0`). */
  function ReleaseBonus(o: Osc): (b: int)
    requires o.adsr.r > 0
    ensures b == 0 || b == 2
  {
    if o.ticks % o.adsr.r == 0 then 2 else 0
  }

  /** The release stage of `update_adsr`, before the store: the fall by `r` clamps at 0
      and finishes there, then every `r`-th tick takes 2 more off and finishes at 1 or
      below. The stage is finished exactly when the amplitude has reached 1. */
  function ReleaseNext(o: Osc): (n: (int, EnvState))
    requires o.adsr.state == Release && o.adsr.r > 0
    ensures n.0 == (if o.adsr.vel <= o.adsr.r then 0 else o.adsr.vel - o.adsr.r) - ReleaseBonus(o)
    ensures n.1 == (if n.0 <= 1 then Finished else Release)
    ensures n.1 == Finished ==> -2 <= n.0 <= 1
  {
    var a := o.adsr;
    var v1 := a.vel - a.r;
    var clamped: (int, EnvState) := if v1 <= 0 then (0, Finished) else (v1, Release);
    var v2 := if o.ticks % a.r == 0 then clamped.0 - 2 else clamped.0;
    (v2, if v2 <= 1 then Finished else clamped.1)
  }

  /** `update_adsr`: one envelope step. The amplitude is computed in an `int16_t` and
      stored back into the `uint8_t`; `ticks` counts every update. */
  function UpdateAdsr(o: Osc): (r: Osc)
    requires ReleaseSafe(o)
    ensures ReleaseSafe(r)
    ensures r.ticks == Wrap16(o.ticks + 1)
    ensures r.off == o.off && r.step == o.step && r.vel == o.vel
    ensures r.adsr == o.adsr.(vel := r.adsr.vel, state := r.adsr.state)
    ensures r.note == (if o.adsr.state == Finished then 0 else o.note)
    // Attack: rises by `a`, clamped at 255, where decay begins.
    ensures o.adsr.state == Attack ==>
      && r.adsr.vel >= o.adsr.vel
      && r.adsr.vel == (if o.adsr.vel + o.adsr.a >= 255 then 255 else o.adsr.vel + o.adsr.a)
      && (r.adsr.state == Decay <==> o.adsr.vel + o.adsr.a >= 255)
      && (r.adsr.state == Decay || r.adsr.state == Attack)
    // Decay: falls by `d`, clamped at the sustain level, where sustain begins.
    ensures o.adsr.state == Decay ==>
      && (o.adsr.vel >= o.adsr.s ==> o.adsr.s <= r.adsr.vel <= o.adsr.vel)
      && r.adsr.vel == (if o.adsr.vel - o.adsr.d <= o.adsr.s then o.adsr.s else o.adsr.vel - o.adsr.d)
      && (r.adsr.state == Sustain <==> o.adsr.vel - o.adsr.d <= o.adsr.s)
      && (r.adsr.state == Sustain || r.adsr.state == Decay)
    // Sustain and the finished stage hold the amplitude.
    ensures o.adsr.state in {Sustain, Finished} ==> r.adsr == o.adsr
    // Release: falls by `r` plus 2 on every `r`-th tick; finished once at most 1.
    ensures o.adsr.state == Release ==>
      var target := o.adsr.vel - o.adsr.r - ReleaseBonus(o);
      && (r.adsr.state == Finished <==> target <= 1)
      && (r.adsr.state == Release || r.adsr.state == Finished)
      && (r.adsr.state == Release ==> r.adsr.vel == target)
      && (r.adsr.state == Finished ==> r.adsr.vel in {0, 1, 254, 255})
      // The stored amplitude: the subtraction clamps at 0 before the bonus is taken off.
      && (r.adsr.state == Finished ==>
            r.adsr.vel == Wrap8((if o.adsr.vel <= o.adsr.r then 0 else o.adsr.vel - o.adsr.r) - ReleaseBonus(o)))
      && (r.adsr.state == Finished ==>
            (r.adsr.vel >= 254 <==> o.adsr.vel <= o.adsr.r + 1 && ReleaseBonus(o) == 2))
  {
    var a := o.adsr;
    var next: (int, EnvState) :=
      match a.state
      case Attack =>
        if a.vel + a.a >= 255 then (255, Decay) else (a.vel + a.a, Attack)
      case Decay =>
        if a.vel - a.d <= a.s then (a.s as int, Sustain) else (a.vel - a.d, Decay)
      case Sustain => (a.vel as int, Sustain)
      case Release => ReleaseNext(o)
      case Finished => (a.vel as int, Finished);
    o.(note := if a.state == Finished then 0 else o.note,
       adsr := a.(vel := Wrap8(next.0), state := next.1),
       ticks := Wrap16(o.ticks + 1))
  }

  /** The end of a release can wrap the stored amplitude to 254, and the slot still holds
      its note until the following update: it sounds near full scale for one more tick. */
  lemma ReleaseEndWraps(o: Osc)
    requires o.note != 0 && o.adsr.state == Release && o.adsr.r == 10 && o.adsr.vel == 10
    requires o.ticks % 10 == 0
    ensures UpdateAdsr(o).adsr.state == Finished
    ensures UpdateAdsr(o).adsr.vel == 254
    ensures UpdateAdsr(o).note == o.note
    ensures Term(UpdateAdsr(o), true) == Sample(UpdateAdsr(o))
  {
  }

  /** `k` successive envelope updates of one slot. */
  function Updates(o: Osc, k: nat): (r: Osc)
    requires ReleaseSafe(o)
    ensures ReleaseSafe(r)
    decreases k
  {
    if k == 0 then o else Updates(UpdateAdsr(o), k - 1)
  }

  /** Once finished, a slot stays finished and is free after the next update. */
  lemma {:induction false} FinishedStays(o: Osc, k: nat)
    requires o.adsr.state == Finished
    ensures Updates(o, k).adsr.state == Finished
    ensures k > 0 ==> Updates(o, k).note == 0
    decreases k
  {
    if k > 0 {
      FinishedStays(UpdateAdsr(o), k - 1);
    }
  }

  /** A release from amplitude at most `r * k` is finished within `k` updates. */
  lemma {:induction false} ReleaseFinishes(o: Osc, k: nat)
    requires o.adsr.state == Release && o.adsr.r > 0 && k >= 1
    requires o.adsr.vel <= o.adsr.r * k
    ensures Updates(o, k).adsr.state == Finished
    decreases k
  {
    var o1 := UpdateAdsr(o);
    if o1.adsr.state == Finished {
      FinishedStays(o1, k - 1);
    } else {
      assert o.adsr.r * k == o.adsr.r * (k - 1) + o.adsr.r;
      if k == 1 {
        assert false;
      } else {
        ReleaseFinishes(o1, k - 1);
      }
    }
  }

  /** With the rate `note_on` sets, any release is over within 26 updates and the slot
      is free after the 27th. */
  lemma ReleaseWithin26(o: Osc)
    requires o.adsr.state == Release && o.adsr.r == 10
    ensures Updates(o, 26).adsr.state == Finished
    ensures Updates(o, 27).note == 0
  {
    ReleaseFinishes(o, 26);
    FinishedStays(Updates(o, 26), 1);
    UpdatesSplit(o, 26, 1);
  }

  lemma {:induction false} UpdatesSplit(o: Osc, j: nat, k: nat)
    requires ReleaseSafe(o)
    ensures Updates(o, j + k) == Updates(Updates(o, j), k)
    decreases j
  {
    if j > 0 {
      var o1 := UpdateAdsr(o);
      var i: nat := j - 1;
      assert Updates(o, i + 1 + k) == Updates(o1, i + k);
      assert Updates(o, i + 1) == Updates(o1, i);
      UpdatesSplit(o1, i, k);
    }
  }

  /** Every slot advanced by one envelope update. */
  function UpdateAll(oscs: seq<Osc>): (r: seq<Osc>)
    requires PoolInv(oscs)
    ensures PoolInv(r)
    ensures forall i :: 0 <= i < NumOscs ==> r[i] == UpdateAdsr(oscs[i])
  {
    seq(NumOscs, i requires 0 <= i < NumOscs => UpdateAdsr(oscs[i]))
  }

  /** The tick interrupt: ten calls count the divider up, the eleventh updates all four
      envelopes and advances `ticks` modulo 256. */
  function TickIsr(s: State): (r: State)
    requires Valid(s)
    ensures Valid(r)
    ensures s.tickDiv == TickDivide ==>
      r == s.(tickDiv := 0, oscs := UpdateAll(s.oscs), ticks := Wrap8(s.ticks + 1))
    ensures s.tickDiv < TickDivide ==> r == s.(tickDiv := s.tickDiv + 1)
  {
    if s.tickDiv == TickDivide then
      s.(tickDiv := 0, oscs := UpdateAll(s.oscs), ticks := Wrap8(s.ticks + 1))
    else
      s.(tickDiv := Wrap8(s.tickDiv + 1))
  }

  function TickIsrs(s: State, k: nat): (r: State)
    requires Valid(s)
    ensures Valid(r)
    decreases k
  {
    if k == 0 then s else TickIsrs(TickIsr(s), k - 1)
  }

  /** Calls before the divider reaches ten only count. */
  lemma {:induction false} TickIsrCounts(s: State, k: nat)
    requires Valid(s) && s.tickDiv + k <= TickDivide
    ensures TickIsrs(s, k) == s.(tickDiv := s.tickDiv + k)
    decreases k
  {
    if k > 0 {
      TickIsrCounts(TickIsr(s), k - 1);
    }
  }

  /** Any eleven consecutive tick interrupts update every envelope exactly once, advance
      `ticks` once, and leave the divider where it was. */
  lemma {:induction false} ElevenTicksOneUpdate(s: State)
    requires Valid(s) && s.tickDiv <= TickDivide
    ensures TickIsrs(s, TickDivide + 1) ==
      s.(oscs := UpdateAll(s.oscs), ticks := Wrap8(s.ticks + 1))
  {
    var d := s.tickDiv;
    var n: nat := TickDivide - d;
    CountThenUpdate(s, n, d);
    assert n + (d + 1) == TickDivide + 1;
  }

  /** `n` calls count the divider up to ten, the next updates, and `d` more count it
      back to where it was. */
  lemma {:induction false} CountThenUpdate(s: State, n: nat, d: nat)
    requires Valid(s) && s.tickDiv + n == TickDivide && d == s.tickDiv
    ensures TickIsrs(s, n + (d + 1)) ==
      s.(oscs := UpdateAll(s.oscs), ticks := Wrap8(s.ticks + 1))
  {
    var s1 := s.(tickDiv := TickDivide);
    TickIsrCounts(s, n);
    TickIsrsSplit(s, n, d + 1);
    FromFullDivider(s1, d);
    calc {
      TickIsrs(s, n + (d + 1));
      TickIsrs(TickIsrs(s, n), d + 1);
      TickIsrs(s1, d + 1);
      s1.(tickDiv := d, oscs := UpdateAll(s1.oscs), ticks := Wrap8(s1.ticks + 1));
    }
  }

  /** From a full divider, the next call updates and the following `d` only count. */
  lemma {:induction false} FromFullDivider(s: State, d: nat)
    requires Valid(s) && s.tickDiv == TickDivide && d <= TickDivide
    ensures TickIsrs(s, d + 1) ==
      s.(tickDiv := d, oscs := UpdateAll(s.oscs), ticks := Wrap8(s.ticks + 1))
  {
    var s2 := TickIsr(s);
    TickIsrsSplit(s, 1, d);
    assert TickIsrs(s, 1) == s2;
    TickIsrCounts(s2, d);
  }

  lemma {:induction false} TickIsrsSplit(s: State, j: nat, k: nat)
    requires Valid(s)
    ensures TickIsrs(s, j + k) == TickIsrs(TickIsrs(s, j), k)
    decreases j
  {
    if j > 0 {
      TickIsrsSplit(TickIsr(s), j - 1, k);
    }
  }

  /** `bip()`: start the alert tone. */
  function Bip(s: State): (r: State)
    ensures r.bipT == BipLength && r == s.(bipT := r.bipT)
  {
    s.(bipT := BipLength)
  }

  /** The alert tone's term: `sintab[bip_off >> 8] / 32` while the countdown runs. */
  function BipTerm(s: State): (t: int)
    ensures -3 <= t <= 3
    ensures s.bipT == 0 ==> t == 0
  {
    if s.bipT != 0 then TruncDiv(Sin(s.bipOff / 256), 32) else 0
  }

  /** The metronome's additions: 16 on every 32nd tick and 32 on every 128th. */
  function MetronomeTerm(s: State): (k: int)
    ensures s.metronome == 0 ==> k == 0
    ensures 0 <= k <= 48
  {
    (if s.metronome != 0 && s.ticks % 32 == 0 then 16 else 0)
      + (if s.metronome != 0 && s.ticks % 128 == 0 then 32 else 0)
  }

  /** The value of `c` before attenuation: voices, alert tone, then the metronome clicks,
      each stored into the `int8_t` accumulator. The stores wrap at most once overall:
      the result is the plain total stored once into an `int8_t`. */
  function Accumulate(s: State): (c: i8)
    requires IsPool(s.oscs)
    ensures c == ToInt8(VoiceSum(s.oscs, true) + BipTerm(s) + MetronomeTerm(s))
    ensures s.metronome == 0 ==> c == VoiceSum(s.oscs, true) + BipTerm(s)
    ensures s.metronome == 0 ==> -127 <= c <= 127
  {
    MixBounded(s.oscs, true);
    var voices := MixFold(0, s.oscs, true);
    var b := BipTerm(s);
    var small := s.metronome != 0 && s.ticks % 32 == 0;
    var big := s.metronome != 0 && s.ticks % 128 == 0;
    assert (if small then 16 else 0) + (if big then 32 else 0) == MetronomeTerm(s);
    Stores(voices + b, small, big)
  }

  /** The alert store and the two optional click stores into the `int8_t` accumulator
      wrap exactly like one store of the total. */
  function Stores(x: int, small: bool, big: bool): (c: i8)
    ensures c == ToInt8(x + (if small then 16 else 0) + (if big then 32 else 0))
  {
    var withBip := ToInt8(x);
    var click := if small then ToInt8(withBip + 16) else withBip;
    ToInt8Absorb(x, if small then 16 else 0);
    ToInt8Absorb(x + (if small then 16 else 0), if big then 32 else 0);
    if big then ToInt8(click + 32) else click
  }

  /** The state after one mixed sample: every slot's phase advances and the alert
      countdown runs down while it is nonzero. */
  function MixState(s: State): (r: State)
    requires IsPool(s.oscs)
    ensures IsPool(r.oscs)
    ensures Valid(s) ==> Valid(r)
    ensures r.oscs == Advance(s.oscs)
    ensures s.bipT != 0 ==> r.bipT == s.bipT - 1 && r.bipOff == Wrap16(s.bipOff + BipStep)
    ensures s.bipT == 0 ==> r.bipT == 0 && r.bipOff == s.bipOff
    ensures r == s.(oscs := r.oscs, bipT := r.bipT, bipOff := r.bipOff)
  {
    var oscs := Advance(s.oscs);
    assert forall i :: 0 <= i < NumOscs ==> (SlotInv(s.oscs[i]) ==> SlotInv(oscs[i])) by {
      forall i | 0 <= i < NumOscs ensures SlotInv(s.oscs[i]) ==> SlotInv(oscs[i]) {
        assert oscs[i].note == s.oscs[i].note && oscs[i].adsr == s.oscs[i].adsr;
      }
    }
    if s.bipT != 0 then s.(oscs := oscs, bipOff := Wrap16(s.bipOff + BipStep), bipT := s.bipT - 1)
    else s.(oscs := oscs)
  }

  /** One mixed sample: the new state, and the output, which is the attenuated
      accumulator offset by 128. Without the metronome the accumulator cannot wrap. */
  function Mix(s: State): (r: (State, u8))
    requires IsPool(s.oscs)
    ensures r.0 == MixState(s)
    ensures r.1 == ShiftRight(Accumulate(s), s.masterVol) + 128
    ensures s.metronome == 0 ==>
      r.1 == ShiftRight(VoiceSum(s.oscs, true) + BipTerm(s), s.masterVol) + 128
  {
    var a := Accumulate(s);
    var c := ShiftRight(a, s.masterVol);
    assert -128 <= c <= 127;
    (MixState(s), Wrap8(c + 128))
  }

  /** With neither alert nor metronome sounding, the output lies in [4, 252]. */
  lemma MixOutputBounded(s: State)
    requires IsPool(s.oscs) && s.metronome == 0 && s.bipT == 0
    ensures 4 <= Mix(s).1 <= 252
  {
    MixBounded(s.oscs, true);
  }

  /** Four voices at the sine peak (`sintab` holds 127 at indices 61 to 67), the alert
      tone at its peak and both metronome clicks overflow the `int8_t` accumulator:
      124 + 3 + 16 + 32 wraps to -81, and the sample comes out near the bottom of the
      range instead of the top. */
  lemma MetronomeOverflow(s: State)
    requires IsPool(s.oscs)
    requires forall i :: 0 <= i < NumOscs ==>
      s.oscs[i].note != 0 && s.oscs[i].adsr.vel == 255 && Sin(s.oscs[i].off / 256) == 127
    requires s.bipT != 0 && Sin(s.bipOff / 256) == 127
    requires s.metronome != 0 && s.ticks == 0 && s.masterVol == 0
    ensures VoiceSum(s.oscs, true) + BipTerm(s) + 16 + 32 == 175
    ensures Accumulate(s) == -81
    ensures Mix(s).1 == 47
  {
    var o := s.oscs;
    FullScaleTerm(o[0]);
    FullScaleTerm(o[1]);
    FullScaleTerm(o[2]);
    FullScaleTerm(o[3]);
    var ts := Terms(o, true);
    assert ts == [31, 31, 31, 31];
    assert Sum(ts[3..]) == 31;
    assert Sum(ts[2..]) == 62 by { assert ts[2..][1..] == ts[3..]; }
    assert Sum(ts[1..]) == 93 by { assert ts[1..][1..] == ts[2..]; }
    assert Sum(ts) == 124;
    assert VoiceSum(o, true) == 124;
    assert BipTerm(s) == 3;
    assert MetronomeTerm(s) == 48;
    assert Accumulate(s) == ToInt8(175) == -81;
    assert ShiftRight(-81, 0) == -81;
  }

  /** A sounding voice at full amplitude on the sine peak contributes 31. */
  lemma FullScaleTerm(o: Osc)
    requires o.note != 0 && o.adsr.vel == 255 && Sin(o.off / 256) == 127
    ensures Term(o, true) == 31
  {
    assert Product(o) == 32385;
  }

  /** The audio interrupt: mixes on every third call and leaves the output alone on the
      others. */
  function AudioIsr(s: State): (r: (State, Dac))
    requires IsPool(s.oscs)
    ensures IsPool(r.0.oscs)
    ensures Valid(s) ==> Valid(r.0)
    ensures Wrap8(s.sampleDiv + 1) == SampleDivide ==>
      r == (Mix(s).0.(sampleDiv := 0), Write(Mix(s).1))
    ensures Wrap8(s.sampleDiv + 1) != SampleDivide ==>
      r == (s.(sampleDiv := Wrap8(s.sampleDiv + 1)), Hold)
  {
    var t := Wrap8(s.sampleDiv + 1);
    if t == SampleDivide then
      var m := Mix(s);
      (m.0.(sampleDiv := 0), Write(m.1))
    else
      (s.(sampleDiv := t), Hold)
  }

  /** From a freshly reset divider, the first two calls hold and the third writes. */
  lemma ThirdCallWrites(s: State)
    requires IsPool(s.oscs) && s.sampleDiv == 0
    ensures AudioIsr(s).1 == Hold
    ensures AudioIsr(AudioIsr(s).0).1 == Hold
    ensures AudioIsr(AudioIsr(AudioIsr(s).0).0).1.Write?
    ensures AudioIsr(AudioIsr(AudioIsr(s).0).0).0.sampleDiv == 0
  {
  }

  /** `k` mixed samples in a row. */
  function Mixes(s: State, k: nat): (r: State)
    requires IsPool(s.oscs)
    ensures IsPool(r.oscs)
    ensures Valid(s) ==> Valid(r)
    decreases k
  {
    if k == 0 then s else Mixes(MixState(s), k - 1)
  }

  /** The alert countdown drops by one per mixed sample while it runs. */
  lemma {:induction false} BipCountdown(s: State, k: nat)
    requires IsPool(s.oscs) && k <= s.bipT
    ensures Mixes(s, k).bipT == s.bipT - k
    decreases k
  {
    if k > 0 {
      BipCountdown(MixState(s), k - 1);
    }
  }

  /** `bip()` sounds for exactly 1000 mixed samples. */
  lemma BipLastsThousandSamples(s: State)
    requires IsPool(s.oscs)
    ensures forall k :: 0 <= k < BipLength ==> Mixes(Bip(s), k).bipT != 0
    ensures Mixes(Bip(s), BipLength).bipT == 0
  {
    forall k | 0 <= k < BipLength
      ensures Mixes(Bip(s), k).bipT != 0
    {
      BipCountdown(Bip(s), k);
    }
    BipCountdown(Bip(s), BipLength);
  }
}
