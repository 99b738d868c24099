/**
 The two read-only lookup tables shared by both synthesis generations: a 256-entry
 signed sine table indexed by the high byte of a phase accumulator, and a 12-entry
 semitone table of phase increments for the lowest octave.
 */
module Tables {
  import opened Machine

  /** A sine-table entry: an `int8_t` that is never -128. */
  type SinSample = v: int | -127 <= v <= 127

  /** A semitone phase increment for the lowest octave. */
  type SemitoneStep = v: int | 130 <= v <= 246 witness 130

  /** `sintab`: one period of a sine wave scaled to plus or minus 127, kept as sixteen
      rows of sixteen entries; row `k` holds entries `16 * k` to `16 * k + 15`. */
  function SinRow(k: nat): (row: seq<SinSample>)
    requires k < 16
    ensures |row| == 16
  {
    if k == 0 then [0, 3, 6, 9, 12, 16, 19, 22, 25, 28, 31, 34, 37, 40, 43, 46]
    else if k == 1 then [49, 52, 54, 57, 60, 63, 66, 68, 71, 73, 76, 78, 81, 83, 86, 88]
    else if k == 2 then [90, 92, 94, 96, 98, 100, 102, 104, 106, 108, 109, 111, 112, 114, 115, 116]
    else if k == 3 then [118, 119, 120, 121, 122, 123, 123, 124, 125, 125, 126, 126, 126, 127, 127, 127]
    else if k == 4 then [127, 127, 127, 127, 126, 126, 125, 125, 124, 124, 123, 122, 121, 120, 119, 118]
    else if k == 5 then [117, 116, 114, 113, 112, 110, 108, 107, 105, 103, 101, 99, 97, 95, 93, 91]
    else if k == 6 then [89, 87, 84, 82, 80, 77, 75, 72, 69, 67, 64, 61, 59, 56, 53, 50]
    else if k == 7 then [47, 44, 41, 39, 36, 32, 29, 26, 23, 20, 17, 14, 11, 8, 5, 2]
    else if k == 8 then [-2, -5, -8, -11, -14, -17, -20, -23, -26, -29, -32, -36, -39, -41, -44, -47]
    else if k == 9 then [-50, -53, -56, -59, -61, -64, -67, -69, -72, -75, -77, -80, -82, -84, -87, -89]
    else if k == 10 then [-91, -93, -95, -97, -99, -101, -103, -105, -107, -108, -110, -112, -113, -114, -116, -117]
    else if k == 11 then [-118, -119, -120, -121, -122, -123, -124, -124, -125, -125, -126, -126, -127, -127, -127, -127]
    else if k == 12 then [-127, -127, -127, -126, -126, -126, -125, -125, -124, -123, -123, -122, -121, -120, -119, -118]
    else if k == 13 then [-116, -115, -114, -112, -111, -109, -108, -106, -104, -102, -100, -98, -96, -94, -92, -90]
    else if k == 14 then [-88, -86, -83, -81, -78, -76, -73, -71, -68, -66, -63, -60, -57, -54, -52, -49]
    else [-46, -43, -40, -37, -34, -31, -28, -25, -22, -19, -16, -12, -9, -6, -3, 0]
  }

  const NoteTab: seq<SemitoneStep> := [130, 138, 146, 155, 164, 174, 184, 195, 207, 220, 233, 246]

  /** `sintab[i]`: every entry fits in an `int8_t` and is never -128. */
  function Sin(i: u8): (v: int)
    ensures -127 <= v <= 127
  {
    SinFrom(0, i)
  }

  /** The table lookup done row by row, from row `k` on, so that only the row that
      holds entry `i` is ever opened. */
  function SinFrom(k: nat, i: u8): (v: int)
    requires k <= i / 16
    ensures -127 <= v <= 127
    decreases 16 - k
  {
    if i / 16 == k then SinRow(k)[i % 16] else SinFrom(k + 1, i)
  }

  lemma {:induction false} SinFromRow(k: nat, i: u8)
    requires k <= i / 16
    ensures SinFrom(k, i) == SinRow(i / 16)[i % 16]
    decreases 16 - k
  {
    if i / 16 != k {
      SinFromRow(k + 1, i);
    }
  }

  /** Entry `i` is entry `i % 16` of row `i / 16`. */
  lemma SinIsRow(i: u8)
    ensures Sin(i) == SinRow(i / 16)[i % 16]
  {
    SinFromRow(0, i);
  }

  /** Entry `i` is entry `i - 16 * k` of row `k`, for the row `k` that holds it. */
  lemma SinInRow(i: u8, k: nat)
    requires k < 16 && 16 * k <= i < 16 * k + 16
    ensures Sin(i) == SinRow(k)[i - 16 * k]
  {
    SinIsRow(i);
    assert i / 16 == k && i % 16 == i - 16 * k;
  }

  /** Entries 240 to 255 mirror entries 0 to 15, negated. */
  lemma MirrorRow0()
    ensures forall i: u8 :: 0 <= i < 16 ==> Sin(255 - i) == -Sin(i)
  {
    assert forall j :: 0 <= j < 16 ==> SinRow(15)[15 - j] == -SinRow(0)[j];
    forall i: u8 | 0 <= i < 16
      ensures Sin(255 - i) == -Sin(i)
    {
      SinInRow(i, 0);
      SinInRow(255 - i, 15);
    }
  }

  /** Entries 224 to 239 mirror entries 16 to 31, negated. */
  lemma MirrorRow1()
    ensures forall i: u8 :: 16 <= i < 32 ==> Sin(255 - i) == -Sin(i)
  {
    assert forall j :: 0 <= j < 16 ==> SinRow(14)[15 - j] == -SinRow(1)[j];
    forall i: u8 | 16 <= i < 32
      ensures Sin(255 - i) == -Sin(i)
    {
      SinInRow(i, 1);
      SinInRow(255 - i, 14);
    }
  }

  /** Entries 208 to 223 mirror entries 32 to 47, negated. */
  lemma MirrorRow2()
    ensures forall i: u8 :: 32 <= i < 48 ==> Sin(255 - i) == -Sin(i)
  {
    assert forall j :: 0 <= j < 16 ==> SinRow(13)[15 - j] == -SinRow(2)[j];
    forall i: u8 | 32 <= i < 48
      ensures Sin(255 - i) == -Sin(i)
    {
      SinInRow(i, 2);
      SinInRow(255 - i, 13);
    }
  }

  /** Entries 192 to 207 mirror entries 48 to 63, negated. */
  lemma MirrorRow3()
    ensures forall i: u8 :: 48 <= i < 64 ==> Sin(255 - i) == -Sin(i)
  {
    assert forall j :: 0 <= j < 16 ==> SinRow(12)[15 - j] == -SinRow(3)[j];
    forall i: u8 | 48 <= i < 64
      ensures Sin(255 - i) == -Sin(i)
    {
      SinInRow(i, 3);
      SinInRow(255 - i, 12);
    }
  }

  /** Entries 176 to 191 mirror entries 64 to 79, negated. */
  lemma MirrorRow4()
    ensures forall i: u8 :: 64 <= i < 80 ==> Sin(255 - i) == -Sin(i)
  {
    assert forall j :: 0 <= j < 16 ==> SinRow(11)[15 - j] == -SinRow(4)[j];
    forall i: u8 | 64 <= i < 80
      ensures Sin(255 - i) == -Sin(i)
    {
      SinInRow(i, 4);
      SinInRow(255 - i, 11);
    }
  }

  /** Entries 160 to 175 mirror entries 80 to 95, negated. */
  lemma MirrorRow5()
    ensures forall i: u8 :: 80 <= i < 96 ==> Sin(255 - i) == -Sin(i)
  {
    assert forall j :: 0 <= j < 16 ==> SinRow(10)[15 - j] == -SinRow(5)[j];
    forall i: u8 | 80 <= i < 96
      ensures Sin(255 - i) == -Sin(i)
    {
      SinInRow(i, 5);
      SinInRow(255 - i, 10);
    }
  }

  /** Entries 144 to 159 mirror entries 96 to 111, negated. */
  lemma MirrorRow6()
    ensures forall i: u8 :: 96 <= i < 112 ==> Sin(255 - i) == -Sin(i)
  {
    assert forall j :: 0 <= j < 16 ==> SinRow(9)[15 - j] == -SinRow(6)[j];
    forall i: u8 | 96 <= i < 112
      ensures Sin(255 - i) == -Sin(i)
    {
      SinInRow(i, 6);
      SinInRow(255 - i, 9);
    }
  }

  /** Entries 128 to 143 mirror entries 112 to 127, negated. */
  lemma MirrorRow7()
    ensures forall i: u8 :: 112 <= i < 128 ==> Sin(255 - i) == -Sin(i)
  {
    assert forall j :: 0 <= j < 16 ==> SinRow(8)[15 - j] == -SinRow(7)[j];
    forall i: u8 | 112 <= i < 128
      ensures Sin(255 - i) == -Sin(i)
    {
      SinInRow(i, 7);
      SinInRow(255 - i, 8);
    }
  }

  /** The table is odd about its midpoint: entry `255 - i` is entry `i` negated, so
      the second half-period is the first one upside down. */
  lemma SinOdd(i: u8)
    ensures Sin(255 - i) == -Sin(i)
  {
    var h: u8 := if i < 128 then i else 255 - i;
    if h < 16 { MirrorRow0(); }
    else if h < 32 { MirrorRow1(); }
    else if h < 48 { MirrorRow2(); }
    else if h < 64 { MirrorRow3(); }
    else if h < 80 { MirrorRow4(); }
    else if h < 96 { MirrorRow5(); }
    else if h < 112 { MirrorRow6(); }
    else { MirrorRow7(); }
    assert Sin(255 - h) == -Sin(h);
  }


  /** `notetab[i]` */
  function Semitone(i: nat): (v: int)
    requires i < 12
    ensures 130 <= v <= 246
  {
    NoteTab[i]
  }

  /** `notetab[note % 12] << (note / 12)` stored into a `uint16_t` step. Below note 96
      the shift stays inside a 16-bit `int`. */
  function StepFor(note: u8): (step: u16)
    ensures note < 96 ==> step == ShiftLeft(Semitone(note % 12), note / 12) < 32768
    ensures note < 96 ==> step >= 130
  {
    var base := Semitone(note % 12);
    if note < 96 then
      ShiftLeftBelow(base, note / 12);
      OctaveShiftFits(note / 12);
      ShiftLeft(base, note / 12)
    else Wrap16(ShiftLeft(base, note / 12))
  }

  /** The step is the semitone's base step times 2 to the octave. */
  lemma StepIsProduct(note: u8)
    requires note < 96
    ensures StepFor(note) == Semitone(note % 12) * Pow2(note / 12)
  {
    ShiftLeftIsProduct(Semitone(note % 12), note / 12);
  }

  /** A note an octave up has exactly twice the step. */
  lemma OctaveDoubles(note: u8)
    requires note < 84
    ensures StepFor(note + 12) == 2 * StepFor(note)
  {
    assert (note + 12) % 12 == note % 12;
    assert (note + 12) / 12 == note / 12 + 1;
  }

  lemma OctaveShiftFits(k: nat)
    requires k <= 7
    ensures Pow2(k) <= 128
  {
    Pow2Monotone(k, 7);
  }
}
