/**
 The oscillator slot (`struct osc`) and its envelope (`struct adsr`), identical in both
 synthesis generations, together with the operations both generations share verbatim:
 releasing every slot that holds a note, one slot's contribution to a mixed sample,
 and advancing the phase accumulators.
 */
module Voice {
  import opened Machine
  import opened Tables

  const NumOscs := 4

  /** The envelope stage, stored in C as the numbers 0 to 4. */
  datatype EnvState = Attack | Decay | Sustain | Release | Finished

  /** `struct adsr`: rates `a`, `d`, `r`, sustain level `s`, amplitude `vel`. */
  datatype Adsr = Adsr(a: u8, d: u8, s: u8, r: u8, vel: u8, state: EnvState)

  /** `struct osc`: `note` 0 means the slot is free; `off` is the phase accumulator,
      `step` its per-sample increment, `ticks` counts envelope updates since note-on,
      and `vel` is a per-slot velocity separate from the envelope amplitude. */
  datatype Osc = Osc(note: u8, off: u16, step: u16, ticks: u16, vel: u8, adsr: Adsr)

  /** What an audio interrupt does to the PWM compare register `OCR2A`. */
  datatype Dac = Hold | Write(level: u8)

  /** The zero-initialised static slot every pool starts with. */
  const ZeroOsc := Osc(0, 0, 0, 0, 0, Adsr(0, 0, 0, 0, 0, Attack))

  /** A pool of exactly four slots. */
  predicate IsPool(oscs: seq<Osc>) {
    |oscs| == NumOscs
  }

  /** `osc` with its envelope switched to Release and nothing else touched. */
  function Released(o: Osc): (r: Osc)
    ensures r.adsr.state == Release
  {
    o.(adsr := o.adsr.(state := Release))
  }

  /** Two slots that agree on every field except possibly the envelope stage. */
  predicate SameButState(x: Osc, y: Osc) {
    x.(adsr := x.adsr.(state := Attack)) == y.(adsr := y.adsr.(state := Attack))
  }

  /** `note_off`: every slot whose note equals `note` enters Release; nothing else changes.
      Both generations write this loop identically. */
  function NoteOff(oscs: seq<Osc>, note: u8): (r: seq<Osc>)
    ensures |r| == |oscs|
    ensures forall i :: 0 <= i < |oscs| && oscs[i].note == note ==> r[i].adsr.state == Release
    ensures forall i :: 0 <= i < |oscs| && oscs[i].note != note ==> r[i] == oscs[i]
    ensures forall i :: 0 <= i < |oscs| ==> SameButState(r[i], oscs[i])
  {
    if |oscs| == 0 then []
    else
      var head := if oscs[0].note == note then Released(oscs[0]) else oscs[0];
      [head] + NoteOff(oscs[1..], note)
  }

  /** Releasing the same note twice is the same as releasing it once. */
  lemma NoteOffIdempotent(oscs: seq<Osc>, note: u8)
    ensures NoteOff(NoteOff(oscs, note), note) == NoteOff(oscs, note)
  {
    var once := NoteOff(oscs, note);
    var twice := NoteOff(once, note);
    assert |twice| == |once|;
    forall i | 0 <= i < |once|
      ensures twice[i] == once[i]
    {
      if oscs[i].note == note {
        assert once[i].note == note;
        assert SameButState(twice[i], once[i]);
      }
    }
  }

  /** `osc->adsr.vel * sintab[osc->off >> 8]`: the product fits a 16-bit `int`. */
  function Product(o: Osc): (p: int)
    ensures -32385 <= p <= 32385
  {
    var v := Sin(o.off / 256);
    ProductBound(o.adsr.vel, v);
    o.adsr.vel * v
  }

  lemma ProductBound(a: int, b: int)
    requires 0 <= a <= 255 && -127 <= b <= 127
    ensures -32385 <= a * b <= 32385
  {
    if a > 0 {
      if b >= 0 {
        MulMono(b, 127, a);
        MulMono(a, 255, 127);
      } else {
        MulMono(-b, 127, a);
        MulMono(a, 255, 127);
      }
    }
  }

  /** One slot's contribution to a sample: the product divided, truncating, by
      `256 * NUM_OSCS`, so four full-scale voices cannot exceed an `int8_t`. */
  function Sample(o: Osc): (t: int)
    ensures -31 <= t <= 31
    ensures o.adsr.vel == 0 ==> t == 0
  {
    var p := Product(o);
    var q := TruncDiv(p, 256 * NumOscs);
    assert p - q * 1024 == p - 1024 * q;
    q
  }

  /** The slot's term in the mix: `gated` is the audio.c variant that skips free slots. */
  function Term(o: Osc, gated: bool): (t: int)
    ensures -31 <= t <= 31
    ensures gated && o.note == 0 ==> t == 0
  {
    if gated && o.note == 0 then 0 else Sample(o)
  }

  /** The slots' terms, in pool order. */
  function Terms(oscs: seq<Osc>, gated: bool): (ts: seq<int>)
    ensures |ts| == |oscs|
    ensures forall i :: 0 <= i < |oscs| ==> ts[i] == Term(oscs[i], gated)
    ensures forall i :: 0 <= i < |ts| ==> -31 <= ts[i] <= 31
  {
    seq(|oscs|, i requires 0 <= i < |oscs| => Term(oscs[i], gated))
  }

  /** The mathematical sum of a list of terms. */
  function Sum(ts: seq<int>): int
    decreases |ts|
  {
    if |ts| == 0 then 0 else ts[0] + Sum(ts[1..])
  }

  /** Terms of magnitude at most 31 sum to at most `31 * n` in magnitude. */
  lemma {:induction false} SumBounded(ts: seq<int>)
    requires forall i :: 0 <= i < |ts| ==> -31 <= ts[i] <= 31
    ensures -31 * |ts| <= Sum(ts) <= 31 * |ts|
    decreases |ts|
  {
    if |ts| > 0 {
      SumBounded(ts[1..]);
    }
  }

  /** The mathematical sum of the slots' terms. */
  function VoiceSum(oscs: seq<Osc>, gated: bool): (sum: int)
    ensures -31 * |oscs| <= sum <= 31 * |oscs|
  {
    SumBounded(Terms(oscs, gated));
    Sum(Terms(oscs, gated))
  }

  /** `c = c + term` for each term in turn, every sum stored into the `int8_t c`. */
  function Fold8(c: i8, ts: seq<int>): i8
    decreases |ts|
  {
    if |ts| == 0 then c else Fold8(ToInt8(c + ts[0]), ts[1..])
  }

  /** However often the intermediate stores wrap, the fold is the plain sum stored once. */
  lemma {:induction false} Fold8Wraps(c: i8, ts: seq<int>)
    ensures Fold8(c, ts) == ToInt8(c + Sum(ts))
    decreases |ts|
  {
    if |ts| > 0 {
      Fold8Wraps(ToInt8(c + ts[0]), ts[1..]);
      ToInt8Absorb(c + ts[0], Sum(ts[1..]));
    }
  }

  /** The mixing loop as written: each slot's term is added into `int8_t c`. */
  function MixFold(c: i8, oscs: seq<Osc>, gated: bool): i8 {
    Fold8(c, Terms(oscs, gated))
  }

  /** Whatever the per-slot stores wrap, the mixing loop yields the plain sum of the
      voices stored once into an `int8_t`. */
  lemma MixFoldWraps(c: i8, oscs: seq<Osc>, gated: bool)
    ensures MixFold(c, oscs, gated) == ToInt8(c + VoiceSum(oscs, gated))
  {
    Fold8Wraps(c, Terms(oscs, gated));
  }

  /** As long as the running sum has headroom, the per-slot `int8_t` stores never wrap:
      the fold equals the plain sum. */
  lemma MixFoldNoWrap(c: i8, oscs: seq<Osc>, gated: bool)
    requires -127 + 31 * |oscs| <= c <= 127 - 31 * |oscs|
    ensures MixFold(c, oscs, gated) == c + VoiceSum(oscs, gated)
  {
    MixFoldWraps(c, oscs, gated);
  }

  /** For a four-slot pool the mixed value stays in [-124, 124]. */
  lemma MixBounded(oscs: seq<Osc>, gated: bool)
    requires IsPool(oscs)
    ensures MixFold(0, oscs, gated) == VoiceSum(oscs, gated)
    ensures -124 <= MixFold(0, oscs, gated) <= 124
  {
    MixFoldNoWrap(0, oscs, gated);
  }

  /** `osc->off += osc->step` on every slot, modulo 2^16. */
  function Advance(oscs: seq<Osc>): (r: seq<Osc>)
    ensures |r| == |oscs|
    ensures forall i :: 0 <= i < |oscs| ==>
      r[i] == oscs[i].(off := r[i].off) && (r[i].off - oscs[i].off - oscs[i].step) % 65536 == 0
  {
    seq(|oscs|, i requires 0 <= i < |oscs| => oscs[i].(off := Wrap16(oscs[i].off + oscs[i].step)))
  }

  /** Number of slots holding a note. */
  function ActiveCount(oscs: seq<Osc>): (n: nat)
    ensures n <= |oscs|
  {
    if |oscs| == 0 then 0 else (if oscs[0].note != 0 then 1 else 0) + ActiveCount(oscs[1..])
  }

  /** Overwriting one slot changes the count by that slot's own activity only. */
  lemma {:induction false} ActiveCountUpdate(oscs: seq<Osc>, i: nat, o: Osc)
    requires i < |oscs|
    ensures ActiveCount(oscs[i := o]) ==
      ActiveCount(oscs) - (if oscs[i].note != 0 then 1 else 0) + (if o.note != 0 then 1 else 0)
  {
    if i > 0 {
      ActiveCountUpdate(oscs[1..], i - 1, o);
      assert oscs[i := o][1..] == oscs[1..][i - 1 := o];
    }
  }

  /** All slots busy exactly when the count reaches the pool size. */
  lemma {:induction false} ActiveCountFull(oscs: seq<Osc>)
    ensures ActiveCount(oscs) == |oscs| <==> forall i :: 0 <= i < |oscs| ==> oscs[i].note != 0
  {
    if |oscs| > 0 {
      ActiveCountFull(oscs[1..]);
      if ActiveCount(oscs) == |oscs| {
        forall i | 0 <= i < |oscs|
          ensures oscs[i].note != 0
        {
          if i > 0 {
            assert oscs[i] == oscs[1..][i - 1];
          }
        }
      }
      if forall i :: 0 <= i < |oscs| ==> oscs[i].note != 0 {
        forall i | 0 <= i < |oscs| - 1
          ensures oscs[1..][i].note != 0
        {
          assert oscs[1..][i] == oscs[i + 1];
        }
      }
    }
  }
}
