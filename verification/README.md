# zevv/piano: sequencer, voice pool and mixer in Dafny

This project models the core of an AVR keyboard instrument written in C. The core has
three sequential, integer-only state machines:

- **Sequencer** (`seq.c`). It has a transport (idle / playing / recording) and a fixed
  200-entry event log of `{ticks: u16, note: u8}` records. Bit 7 of the note byte
  records a press. It keeps three cursors: `play`, `rec` and `last`. A tempo divider
  gates the per-tick playback step. It also has a recording path (`seq_note`), a
  command dispatcher (`seq_cmd`) and a sort that runs after recording.
- **Current voice engine** (`audio.c`). It has a four-slot voice pool with first-free
  allocation, falling back to slot 3. Each slot has a five-stage envelope
  (`update_adsr`) that computes in `int16_t` and stores into `uint8_t`. A tick
  interrupt updates every envelope once in eleven calls. The audio interrupt mixes one
  sample every three calls: the voice sum, the alert tone ("bip"), the metronome
  clicks, a right shift by the master volume, and a +128 offset for the PWM output.
- **Earlier voice engine** (`piano.c`). Slots are allocated round robin. Its envelope
  moves one step every `a`, `d` or `r` ticks, uses exact-equality transitions and wraps
  in `uint8_t`. Each update call advances one slot's envelope. It has a key-to-note
  mapping and one timer interrupt that drives both the mixer and the envelope updates.

Modules, leaves first:

| file | module | contents |
|---|---|---|
| `machine.dfy` | `Machine` | AVR integer semantics: `uint8_t`/`uint16_t` wrap, `int8_t` stores, C's truncating `/`, arithmetic `>>`, and `Outcome` (defined or undefined behaviour) |
| `tables.dfy` | `Tables` | `sintab`, `notetab` and the phase step `notetab[n % 12] << (n / 12)` |
| `voice.dfy` | `Voice` | `struct osc` / `struct adsr`, plus what both engines share: `note_off`, one slot's mixed term, the `int8_t` mixing fold, phase advance |
| `seqlog.dfy` | `SeqLog` | `struct seq`, `seq_cmp`, and the prefix sort |
| `sequencer.dfy` | `Sequencer` | `seq_init`, `seq_note`, `seq_cmd`, `seq_tick` |
| `audio.dfy` | `Audio` | `note_on`, `note_off`, `update_adsr`, `bip`, both interrupts |
| `piano.dfy` | `Piano` | `note_on`, `note_off`, `update_osc`, `update_oscs`, `handle_key`, `audio_set`, the timer interrupt |

Each interrupt body and each call is one atomic step on an immutable state value.
Calls from the sequencer into the audio engine (`note_on`, `note_off`, `bip`) come back
as a list of `Effect`s, in call order. What an interrupt writes to the PWM register
comes back as a `Dac` value.

Undefined behaviour in C is modelled in one of two ways. Where a cursor can point one
past the end of the log, the operation returns `Undefined`. Where an envelope update
would compute `x % 0`, the piano timer interrupt returns `Undefined`. In the audio
engine, only the envelope update divides by a value that can be zero (`ticks % r`,
audio.c:137); the mixer's divisors are constants. So `Audio.UpdateAdsr` asks only that
its slot have a nonzero release rate when releasing (`Audio.ReleaseSafe`), and only the
tick interrupt asks for the pool invariant `Audio.Valid`: every slot that is busy or
releasing has a nonzero release rate. Every other audio operation
takes any four-slot pool and says whether it keeps the invariant. `note_off(0)` breaks
it, because it puts never-used slots into release with rate 0. A later `note_on`
repairs the slot it claims (`Audio.NoteOnsRepairZeroRelease`).

Where the code departs from what it evidently intends, the model follows the code:

- A playback step fires at most one event, even when several events share a time
  (seq.c:162-167). See Findings.
- Playback also runs while recording (seq.c:161).
- `LAST` and `seq_tick` read the event under a cursor even when that cursor is at
  index 200 (seq.c:102, 162). `Sequencer.LastReadsPastEnd` shows that this is
  reachable from power-on.
- The cursors do not stay inside `[0, last]`:
  - While recording, `rec` runs past `last`.
  - A step that fires the event at `last` moves `play` past `last`.
- `DEL`, the metronome commands and the one-key commands have no case in `seq_cmd`.
  They change nothing; there is no delete and no fall-through.
- `note_on` does not reset the phase accumulator.
- seq.c and audio.h disagree on the signature of `bip`. seq.c calls `bip(100)`,
  `bip(5)` and `bip(25)`, but audio.h:7 declares `void bip(void)`, so seq.c as written
  does not compile against it. The model abstracts every such call as an
  `Effect.Alert` that carries the argument, only to tell the calls apart.
- Tempo moves in steps of 10 within [0, 250]. A smaller divider plays faster.
- The audio engine finishes a release at amplitude 1 or below, not 0. The stored
  amplitude can wrap to 254 or 255 (`Audio.ReleaseEndWraps`).
- The piano engine's free-slot search has no effect: the slot written is always
  `cur_osc`.

## Model

| member | source | states |
|---|---|---|
| Machine.Wrap8 | audio.c:187 | storing into a `uint8_t` keeps values in [0, 255] unchanged, adds 256 to a value in [-256, 0), and is congruent to the input modulo 256 |
| Machine.Wrap16 | audio.c:217 | storing into a `uint16_t` keeps values in [0, 65535] unchanged and is congruent modulo 65536 |
| Machine.ToInt8 | audio.c:216 | storing into `int8_t c` maps into [-128, 127] and is the identity there |
| Machine.ToInt8Absorb | audio.c:216 | an intermediate store into `int8_t` changes nothing modulo 256: storing, adding and storing again equals adding and storing once |
| Machine.TruncDiv | audio.c:216 | C division by a positive divisor truncates toward zero: the quotient has the dividend's sign and at most its magnitude, and the remainder `a - q * b` is smaller than the divisor and has the dividend's sign |
| Machine.TruncDivOdd | audio.c:216 | negating the dividend negates the quotient |
| Machine.ShiftRight | audio.c:232 | `c >>= n` keeps the sign of `c` and never increases its magnitude |
| Machine.ShiftRightMonotone | audio.c:232 | one more step of master-volume shift never gives a larger magnitude, for either sign |
| Machine.Pow2Monotone | audio.c:79 | the octave shift factor grows with the octave |
| Machine.ShiftLeft | audio.c:79 | a left shift of a natural number never makes it smaller |
| Machine.ShiftLeftIsProduct | audio.c:79 | `x << k` equals `x * 2^k` |
| Machine.ShiftLeftBelow | audio.c:79 | a value below 256 shifted left by `k` stays below `256 * 2^k` |
| Tables.Sin | audio.c:16 | every `sintab` entry is in [-127, 127] |
| Tables.SinOdd | audio.c:16 | for every index `i`, entry `255 - i` is entry `i` negated: the second half-period mirrors the first |
| Tables.Semitone | audio.c:17 | every `notetab` entry is in [130, 246] |
| Tables.StepFor | audio.c:79 | for notes below 96, the step is the semitone entry shifted left by the octave, at least 130 and below 2^15 |
| Tables.StepIsProduct | audio.c:79 | for notes below 96, the step is `notetab[note % 12] * 2^(note / 12)` |
| Tables.OctaveDoubles | audio.c:79 | a note twelve semitones higher has exactly twice the step, for notes up to 95 |
| Tables.OctaveShiftFits | audio.c:79 | octaves 0 to 7 shift by at most 128 |
| Voice.Released | audio.c:102-104 | a released slot is in the release stage |
| Voice.NoteOff | audio.c:93-106 | exactly the slots holding `note` enter release; every other slot, and every other field, is unchanged |
| Voice.NoteOffIdempotent | audio.c:100-105 | releasing a note twice is the same as releasing it once |
| Voice.Product | audio.c:216 | the amplitude-times-sine product fits a 16-bit `int` |
| Voice.Sample | audio.c:216 | one voice's term lies in [-31, 31] and is 0 at amplitude 0 |
| Voice.Term | audio.c:216 | a free slot adds nothing in the audio engine's mixer |
| Voice.Terms | audio.c:214-218 | one term per slot, in pool order, each the slot's own term in [-31, 31] |
| Voice.SumBounded | audio.c:214-218 | `n` terms of magnitude at most 31 sum to at most `31n` in magnitude |
| Voice.VoiceSum | audio.c:214-218 | the sum of `n` terms lies in [-31n, 31n] |
| Voice.Fold8Wraps | audio.c:214-218 | adding terms one by one into an `int8_t`, storing after each, gives the plain sum stored once |
| Voice.MixFoldWraps | audio.c:214-218 | the mixing loop as written, whatever its stores wrap, yields the voice sum stored once into `int8_t` |
| Voice.MixFoldNoWrap | audio.c:216 | while there is headroom, the per-slot `int8_t` stores never wrap, so the fold equals the sum |
| Voice.MixBounded | piano.c:218-222 | for four slots, the mixed value equals the voice sum and lies in [-124, 124] |
| Voice.Advance | audio.c:217 | every slot's phase advances by its step modulo 2^16, and nothing else changes |
| Voice.ActiveCount | audio.c:72-76 | the number of busy slots is at most the pool size |
| Voice.ActiveCountUpdate | audio.c:78 | overwriting one slot changes the busy count by that slot's own activity only |
| Voice.ActiveCountFull | audio.c:72-76 | the count reaches the pool size exactly when every slot is busy |
| SeqLog.Compare | seq.c:33-40 | the comparator is negative, zero or positive exactly as the first event's time is below, equal to or above the second's |
| SeqLog.CompareIsOrdering | seq.c:33-40 | the comparator is antisymmetric, reflexive and transitive, as `qsort` needs |
| SeqLog.Insert | seq.c:48 | inserting adds exactly the one event, and the result starts with it or with the old first event |
| SeqLog.InsertSorted | seq.c:48 | inserting into a time-ordered list keeps it time-ordered |
| SeqLog.InsertionSort | seq.c:48 | the result is sorted by time and is a permutation of the input |
| SeqLog.SortPrefix | seq.c:43-49 | the first `n` entries become a sorted permutation of themselves; the rest is untouched |
| SeqLog.RemoveAt | seq.c:43-49 | taking out entry `k` shifts the later entries down by one and removes exactly that event |
| SeqLog.RemoveAtSorted | seq.c:43-49 | taking an entry out of a time-ordered list leaves it time-ordered |
| SeqLog.FindHead | seq.c:43-49 | the first of a time-ordered list is found in any time-ordered rearrangement of it, at the earliest time |
| SeqLog.HeadRunAgrees | seq.c:43-49 | agreement in time of the tails, with the removed entry in the leading run, gives agreement of the whole lists |
| SeqLog.SortedPermutationsAgree | seq.c:43-49 | any two time-ordered rearrangements of the same events have the same time at every position, so the times `qsort` leaves do not depend on how it orders equal events |
| SeqLog.SortSortedKeepsTimes | seq.c:43-49 | sorting a prefix that is already in time order leaves the time at every position unchanged, whatever order `qsort` gives events with equal times |
| Sequencer.PowerOn | seq.c:52-60 | the state `seq_init` leaves on zeroed statics, with `seq_tempo` at 140, satisfies the cursor bounds |
| Sequencer.Init | seq.c:52-60 | cursors and time reset, transport idle; log, tempo and divider kept |
| Sequencer.EncodeNote | seq.c:68-70 | the logged byte keeps the low seven bits and sets bit 7 for a press |
| Sequencer.Replay | seq.c:163-165 | bit 7 selects `note_on` or `note_off` of the low seven bits |
| Sequencer.ReplayEncode | seq.c:68-70 | a recorded note below 128 replays as the same press or release |
| Sequencer.ReplayHighNote | seq.c:70 | a note of 128 or more replays its release as a press of `note - 128` |
| Sequencer.SeqNote | seq.c:64-77 | outside recording nothing changes; with room, the event is written at `rec`, `rec` moves on and nothing else changes; on a full log, an alert and idle with the log and `last` untouched |
| Sequencer.SortCount | seq.c:45-46 | the as-written count hands `qsort` fewer than `last` entries once `last >= 3` |
| Sequencer.StopTransport | seq.c:128-134 | STOP always ends idle; leaving a recording sets `last = rec` and sorts only the first `rec / 3` entries |
| Sequencer.StopIntended | seq.c:128-134 | with the intended count, the whole recorded prefix `[0, last)` ends sorted and is a permutation of what was recorded |
| Sequencer.NextIndex | seq.c:111 | NEXT advances by one exactly when `play < last`, and never past `last` |
| Sequencer.PrevIndex | seq.c:106 | PREV steps back by one exactly when `play > 0`, and never below 0 |
| Sequencer.Cmd | seq.c:84-144 | each command's effect as the whole new state, case by case (CLEAR, FIRST, LAST, PREV, NEXT, PLAY, REC, STOP, tempo, commands without a case); undefined exactly for LAST or NEXT landing on index 200; tempo stays in [0, 250] |
| Sequencer.PrevUndoesNext | seq.c:105-113 | NEXT then PREV returns the cursor to where it was |
| Sequencer.NextUndoesPrev | seq.c:105-113 | PREV then NEXT returns the cursor to where it was |
| Sequencer.Clicks | seq.c:156-159 | only while recording: the short alert exactly when time is a multiple of 64, the long one exactly when it is a multiple of 256, the short one first |
| Sequencer.NoteCount | seq.c:165 | the note calls among the effects are at most all of them |
| Sequencer.NoteCountAppend | seq.c:165 | note calls add up over concatenated effect lists |
| Sequencer.NoteCountAlerts | seq.c:157-158 | a list of alerts holds no note calls |
| Sequencer.Tick | seq.c:147-180 | idle changes nothing; otherwise the divider counts down; a step makes exactly the recording clicks, then the one event under `play` if it is due, then the end alert if playback stops at `play >= last`; the transport changes only by that stop; time advances modulo 2^16; undefined exactly when a step reads at index 200 |
| Sequencer.Ticks | seq.c:147-180 | repeated ticks keep the cursor bounds |
| Sequencer.WaitCalls | seq.c:153 | between steps, calls only decrement the divider |
| Sequencer.StepPeriod | seq.c:153-154 | steps come exactly `tempo + 1` calls apart |
| Sequencer.Record | seq.c:64-77 | feeding key events to the recorder keeps the cursor bounds |
| Sequencer.RecordFills | seq.c:67-71 | `n` events into a log with room advance `rec` by `n` and keep recording |
| Sequencer.LastReadsPastEnd | seq.c:100-103 | recording 200 events from power-on, then STOP, then LAST reads past the end of the log |
| Sequencer.StopLeavesLogUnsorted | seq.c:45-46 | three events at times 10, 20, 5 stay unsorted after STOP |
| Sequencer.RecordThenReplay | seq.c:162-165 | an event written by `seq_note` is replayed as the same key event when the playback step reaches it at its time |
| Sequencer.RunEnd | seq.c:162-167 | the run of events due now ends at the first event that is not due, or at the end of the log |
| Sequencer.Fired | seq.c:163-165 | replaying a slice of the log yields one note call per event, in order |
| Sequencer.NoteCountNotes | seq.c:165 | a list of note calls counts all of them |
| Sequencer.TickIntended | seq.c:147-180 | a step that fires every event due now moves `play` past the whole run and makes one note call per event |
| Sequencer.SimultaneousEventSkipped | seq.c:162-167 | of two events at the same time, the step fires one; the next step fires nothing and the second event's time has passed |
| Sequencer.SimultaneousEventsFire | seq.c:162-167 | the corrected step fires both events |
| Audio.PowerOn | audio.c:38-43 | all statics zero satisfy the pool invariant |
| Audio.FreeSlotFrom | audio.c:72-76 | the search stops at the first free slot, or runs out at the last slot |
| Audio.SlotFor | audio.c:72-76 | `note_on` writes the first free slot, or slot 3 when all four are busy |
| Audio.NoteOn | audio.c:65-90 | the chosen slot gets the note, its step, `ticks = 0` and the envelope {70, 5, 100, 10, 0, attack}; phase and slot velocity are kept; other slots are untouched; on any pool, the claimed slot then keeps the invariant, so the pool is valid when the other slots were |
| Audio.NoteOnActiveCount | audio.c:65-90 | a note-on adds one busy slot while one is free, and with all four busy there are still four |
| Audio.NoteOffPool | audio.c:93-106 | matching slots are released and nothing else changes; releasing a nonzero note keeps the pool invariant |
| Audio.NoteOnThenOff | audio.c:65-106 | press then release leaves the claimed slot releasing that note, and the slot is free 27 updates later |
| Audio.NoteOffZeroUnsafe | audio.c:131-137 | releasing note 0 puts a never-used slot, whose release rate is 0, into release |
| Audio.ClaimNext | audio.c:65-90 | with the first `k` slots holding notes and the rest free, a note-on of a real note claims slot `k` and keeps that shape one slot further |
| Audio.NoteOnsRepairZeroRelease | audio.c:65-106 | after `note_off(0)` from power-on the pool is invalid, and four note-ons of real notes make it valid again |
| Audio.ReleaseBonus | audio.c:137 | the extra release step is 0 or 2 |
| Audio.ReleaseNext | audio.c:131-139 | the release step's `int16_t` amplitude is the fall by `r` clamped at 0, minus the bonus; the stage is finished exactly when that is 1 or below, and then it lies in [-2, 1] |
| Audio.UpdateAdsr | audio.c:109-148 | attack rises by `a` and clamps at 255 into decay; decay falls by `d` and clamps at `s` into sustain; sustain holds; release falls by `r`, plus 2 on every `r`-th tick, and finishes at 1 or below, storing the fall clamped at 0 minus the bonus, which wraps to 254 or 255 exactly when the bonus takes it below 0; the finished stage frees the slot; `ticks` always advances |
| Audio.ReleaseEndWraps | audio.c:131-145 | a release can finish with the stored amplitude wrapped to 254 while the note still sounds |
| Audio.Updates | audio.c:109-148 | repeated updates keep the release rate safe |
| Audio.FinishedStays | audio.c:140-142 | a finished slot stays finished and is free after the next update |
| Audio.ReleaseFinishes | audio.c:131-139 | a release from amplitude at most `r * k` is finished within `k` updates |
| Audio.ReleaseWithin26 | audio.c:131-142 | at release rate 10, any release finishes within 26 updates and frees the slot by the 27th |
| Audio.UpdatesSplit | audio.c:109-148 | `j + k` updates are `j` updates followed by `k` |
| Audio.UpdateAll | audio.c:184-186 | the tick step updates every slot once and keeps the pool invariant |
| Audio.TickIsr | audio.c:175-190 | the tick interrupt counts its divider up to 10; the next call updates all envelopes, advances `ticks` modulo 256 and resets the divider |
| Audio.TickIsrs | audio.c:175-190 | repeated tick interrupts keep the pool invariant |
| Audio.TickIsrCounts | audio.c:180 | calls before the divider reaches 10 only count |
| Audio.ElevenTicksOneUpdate | audio.c:175-190 | any eleven consecutive tick interrupts update every envelope exactly once and advance `ticks` once |
| Audio.CountThenUpdate | audio.c:175-190 | `n` counting calls up to 10, one updating call and `d` more counting calls update every envelope once and return the divider to `d` |
| Audio.FromFullDivider | audio.c:180-187 | from a divider of 10, the next call updates, and the following `d` calls count back up to `d` |
| Audio.TickIsrsSplit | audio.c:175-190 | `j + k` tick interrupts are `j` followed by `k` |
| Audio.Bip | audio.c:151-154 | `bip` sets the countdown to 1000 and changes nothing else |
| Audio.BipTerm | audio.c:220-221 | the alert tone adds at most 3 in magnitude, and nothing when the countdown is 0 |
| Audio.MetronomeTerm | audio.c:227-230 | the clicks add 16 on every 32nd tick and 32 on every 128th, at most 48, and nothing without the metronome |
| Audio.Stores | audio.c:220-230 | the alert store and the two optional click stores into `int8_t` wrap like one store of the total |
| Audio.Accumulate | audio.c:214-230 | the accumulator is the total of voices, alert tone and clicks stored once into `int8_t`; without the metronome it is exactly the voice sum plus the alert term and cannot wrap |
| Audio.MixState | audio.c:214-224 | a mix advances every phase, runs the alert countdown down by one while it is nonzero, moves the alert phase only then, keeps the pool invariant when it held, and changes nothing else |
| Audio.Mix | audio.c:210-233 | the state is that of `MixState`; the output is the accumulator shifted by the master volume, plus 128, and without the metronome it is the voice sum plus the alert term, shifted, plus 128 |
| Audio.FullScaleTerm | audio.c:216 | a sounding slot at amplitude 255 on the sine peak adds exactly 31 |
| Audio.MixOutputBounded | audio.c:214-233 | with neither alert nor metronome, the output lies in [4, 252] |
| Audio.MetronomeOverflow | audio.c:227-230 | four voices at full scale, the alert tone and both clicks wrap the `int8_t` accumulator to -81, and the output drops to 47 |
| Audio.AudioIsr | audio.c:199-237 | the third call of each group mixes and writes the output; the others only count; the pool invariant is kept when it held |
| Audio.ThirdCallWrites | audio.c:206-211 | from a reset divider, two calls hold and the third writes |
| Audio.Mixes | audio.c:210-233 | repeated mixes keep the four-slot pool, and the pool invariant when it held |
| Audio.BipCountdown | audio.c:220-224 | each mixed sample takes one off a running countdown |
| Audio.BipLastsThousandSamples | audio.c:151-154 | one `bip` sounds for exactly 1000 mixed samples |
| Piano.PowerOn | piano.c:37-39 | the zeroed pool and indices form a valid state |
| Piano.ZeroSlotUndefined | piano.c:69-70 | a zero-initialised slot cannot be updated: its attack rate is 0 |
| Piano.NextSlot | piano.c:128 | the next slot index is `(i + 1) % 4` and stays inside the pool |
| Piano.NoteOn | piano.c:102-130 | slot `cur_osc` gets the note, its step, the velocity, `ticks = 0` and the envelope {1, 8, 100, 2, 0, attack}; phase kept; other slots untouched; `cur_osc` moves on modulo 4 |
| Piano.NoteOnRoundRobin | piano.c:114-128 | four note-ons write four different slots in turn and bring `cur_osc` back |
| Piano.NoteOffPool | piano.c:133-146 | exactly the slots holding `note` enter release; nothing else changes |
| Piano.UpdateOsc | piano.c:63-91 | attack adds 1 on every `a`-th tick and enters decay exactly at 255; decay subtracts 1 on every `d`-th tick and enters sustain exactly at `s`; release subtracts 1 on every `r`-th tick and finishes exactly at 0; all in `uint8_t`; the finished stage zeroes the slot velocity and keeps the note; `ticks` always advances |
| Piano.ReleaseFromZeroWraps | piano.c:79-88 | a release from amplitude 0 wraps to 255 instead of finishing |
| Piano.FinishedKeepsNote | piano.c:83-85 | a finished slot keeps its note for good |
| Piano.UpdateOscs | piano.c:94-99 | one call updates exactly the slot at the index and moves the index on modulo 4 |
| Piano.FourUpdatesEachSlotOnce | piano.c:94-99 | four consecutive calls update every slot exactly once and return the index to its start |
| Piano.HandleKey | piano.c:159-169 | key `k` plays note `k + 20` stored in a `uint8_t`: a press claims a slot at velocity 255, a release releases the matching slots |
| Piano.PressThenRelease | piano.c:159-169 | press then release of a key leaves the claimed slot releasing that key's note |
| Piano.AudioSet | piano.c:57-60 | the register gets `v + 128` modulo 256 |
| Piano.MixSample | piano.c:215-225 | every phase advances and the output is the voice sum plus 128, in [4, 252] |
| Piano.Tock | piano.c:211-226 | the counter advances modulo 256; on multiples of 3 every phase advances and the mixed sample is written, otherwise the slots are unchanged; no envelope, slot index or update index changes |
| Piano.Isr | piano.c:204-236 | the 8-bit counter advances; multiples of 3 advance every phase and write the mix; multiples of 8 then update the one slot at the update index, undefined exactly when its current rate is 0; the new slots are exactly these changes |
| Piano.Isrs | piano.c:204-236 | repeated interrupts keep the state valid while defined |
| Piano.UntouchedStep | piano.c:211-226 | before any key, an interrupt that does not update an envelope changes only the counter |
| Piano.UntouchedRun | piano.c:204-236 | from an untouched pool, interrupts stay defined until the counter reaches 8, and that one is undefined |
| Piano.PowerOnDividesByZero | piano.c:230-233 | with no key pressed, the eighth interrupt after power-on computes `ticks % 0` |
| Piano.IsrWrapMixesTwice | piano.c:207-215 | at counter 254, the next two calls both mix (at 255 and at 0, since 256 is not a multiple of 3), and the first of them updates no envelope |

## Left out

- Hardware setup and register writes are not modelled: `audio_init`, `keys_init`, the timer and port registers, and the `PORTB` debug-pin toggles. They are I/O with no behaviour to state. The value written to `OCR2A` is returned as `Dac`.
- keyboard.c, `keys_scan` and `main` are not modelled. They scan ports with busy-wait delays, and `main` uses `rand()` and an endless loop. The key number reaches the model as a parameter of `Piano.HandleKey`.
- Interrupt preemption and `volatile` are not modelled. Each interrupt body and each call is one atomic step.
- `qsort` internals are not modelled. The sort is specified as a sorted permutation of the prefix, and an insertion sort realises it. The order of events with equal times is not part of the contract, because `qsort` is not stable.
- `metronome_set` and `master_vol_set` are not separate operations. They assign a field, and the model takes `metronome` and `masterVol` as fields of `Audio.State`.
- The caller of `seq_tick`, `seq_note` and `seq_cmd` is not part of this model, so the sequencer and the audio engine are not composed. Sequencer effects are returned as a list instead.
- Audio.TickIsr: it is defined only on pools where every busy or releasing slot has a nonzero release rate (`Audio.Valid`), because its envelope update divides by that rate. After `note_off(0)` breaks this, the next tick update divides by zero unless note-ons have claimed every broken slot first (`Audio.NoteOffZeroUnsafe`, `Audio.NoteOnsRepairZeroRelease`); the tick interrupt on a broken pool is not modelled.
- Sequencer.PowerOn: in C, `seq_play`, `seq_rec` and `seq_last` are null pointers until `seq_init` runs (seq.c:28-30). The model starts the cursors at the start of the log, as `seq_init` sets them, so a command or tick before `seq_init`, which dereferences a null pointer, is not represented. No caller of `seq_init` is part of this model.
- Machine.ShiftRight: a master volume of 16 or more is undefined in C for a 16-bit `int`. The model treats it as a floor division by a larger power of two.
- Tables.StepFor: for notes of 96 or more, the shift overflows a 16-bit `int`, which C leaves undefined. The model truncates to 16 bits, and the contract states only the in-range case.
- FM and wavetable voices, `all_off`, log deletion and measure-length accents are not modelled. None of them exists in this code.

## Findings

| source | as written | input that shows it | evidently intended | confidence | as-written member | corrected member |
|---|---|---|---|---|---|---|
| seq.c:45-46 | `nmemb = (seq_last - seq_list) / sizeof *seq_list`: a pointer difference already counts elements, so dividing by 3 sorts only the first third of the recording | record three events at times 10, 20 and 5, then STOP: only the first event is in the sort, and 20 stays before 5 | `nmemb = seq_last - seq_list`, so that the whole prefix `[0, last)` is sorted | high; not executed | Sequencer.StopLeavesLogUnsorted | Sequencer.StopIntended |
| seq.c:162-167 | `if (seq_ticks == seq_play->ticks)` fires one event per step, then time advances | two events recorded at the same time (a chord) while the play cursor is on the first: the step fires one, and the next step fires nothing because the second event's time has passed | fire every event whose time is now (`while` instead of `if`) | medium; not executed | Sequencer.SimultaneousEventSkipped | Sequencer.TickIntended |
