/**
 The sequencer's event record (`struct seq`), the comparator `seq_cmp` and the sort the
 sequencer applies to the recorded prefix of its log. The C code hands the prefix to the
 library `qsort`; the model uses an insertion sort driven by the same comparator, and
 promises only what `qsort` promises: the prefix becomes a permutation of itself ordered
 by `ticks`, and the rest of the array is not touched. (`qsort` is not stable, so the
 relative order of events with equal `ticks` is not part of the contract.)
 */
module SeqLog {
  import opened Machine

  /** One logged key event: the sequencer time it happened at and the note byte,
      whose top bit is set for a press. */
  datatype Event = Event(ticks: u16, note: u8)

  /** `seq_cmp`: three-way comparison of two events by time. */
  function Compare(a: Event, b: Event): (c: int)
    ensures c in {-1, 0, 1}
    ensures c < 0 <==> a.ticks < b.ticks
    ensures c > 0 <==> a.ticks > b.ticks
  {
    if a.ticks > b.ticks then 1
    else if a.ticks < b.ticks then -1
    else 0
  }

  /** The comparator is antisymmetric and transitive, as `qsort` requires of it. */
  lemma CompareIsOrdering(a: Event, b: Event, c: Event)
    ensures Compare(a, b) == -Compare(b, a)
    ensures Compare(a, a) == 0
    ensures Compare(a, b) <= 0 && Compare(b, c) <= 0 ==> Compare(a, c) <= 0
  {
  }

  predicate SortedByTicks(xs: seq<Event>) {
    forall i, j :: 0 <= i < j < |xs| ==> xs[i].ticks <= xs[j].ticks
  }

  /** Places `e` before the first element that does not compare below it. */
  function Insert(e: Event, xs: seq<Event>): (r: seq<Event>)
    ensures multiset(r) == multiset(xs) + multiset{e}
    ensures |r| == |xs| + 1
    ensures r[0] == e || (|xs| > 0 && r[0] == xs[0])
    decreases |xs|
  {
    if |xs| == 0 then [e]
    else if Compare(e, xs[0]) <= 0 then [e] + xs
    else
      assert xs == [xs[0]] + xs[1..];
      [xs[0]] + Insert(e, xs[1..])
  }

  /** Inserting into a time-ordered list keeps it time-ordered. */
  lemma {:induction false} InsertSorted(e: Event, xs: seq<Event>)
    requires SortedByTicks(xs)
    ensures SortedByTicks(Insert(e, xs))
    decreases |xs|
  {
    if |xs| > 0 && Compare(e, xs[0]) > 0 {
      var rest := Insert(e, xs[1..]);
      InsertSorted(e, xs[1..]);
      assert xs[0].ticks <= rest[0].ticks;
      var r := Insert(e, xs);
      assert r == [xs[0]] + rest;
      assert forall j :: 0 < j < |r| ==> r[j] == rest[j - 1];
    }
  }

  function InsertionSort(xs: seq<Event>): (r: seq<Event>)
    ensures SortedByTicks(r)
    ensures multiset(r) == multiset(xs)
    ensures |r| == |xs|
  {
    if |xs| == 0 then []
    else
      assert xs == [xs[0]] + xs[1..];
      InsertSorted(xs[0], InsertionSort(xs[1..]));
      Insert(xs[0], InsertionSort(xs[1..]))
  }

  /** `qsort(list, n, size, seq_cmp)`: the first `n` entries are sorted in place. */
  function SortPrefix(list: seq<Event>, n: nat): (r: seq<Event>)
    requires n <= |list|
    ensures |r| == |list|
    ensures SortedByTicks(r[..n])
    ensures multiset(r[..n]) == multiset(list[..n])
    ensures r[n..] == list[n..]
  {
    var r := InsertionSort(list[..n]) + list[n..];
    assert r[..n] == InsertionSort(list[..n]);
    assert r[n..] == list[n..];
    r
  }

  /** `xs` with the entry at `k` taken out. */
  function RemoveAt(xs: seq<Event>, k: nat): (r: seq<Event>)
    requires k < |xs|
    ensures |r| == |xs| - 1
    ensures forall i :: 0 <= i < k ==> r[i] == xs[i]
    ensures forall i :: k <= i < |r| ==> r[i] == xs[i + 1]
    ensures multiset(r) == multiset(xs) - multiset{xs[k]}
  {
    assert xs == xs[..k] + [xs[k]] + xs[k + 1..];
    xs[..k] + xs[k + 1..]
  }

  /** Taking an entry out of a time-ordered list leaves it time-ordered. */
  lemma RemoveAtSorted(xs: seq<Event>, k: nat)
    requires k < |xs| && SortedByTicks(xs)
    ensures SortedByTicks(RemoveAt(xs, k))
  {
    var r := RemoveAt(xs, k);
    forall i, j | 0 <= i < j < |r|
      ensures r[i].ticks <= r[j].ticks
    {
      var i' := if i < k then i else i + 1;
      var j' := if j < k then j else j + 1;
      assert r[i] == xs[i'] && r[j] == xs[j'] && i' < j';
    }
  }

  /** Two time-ordered arrangements of the same events agree on the time at every
      position: only events with equal times can trade places. */
  lemma {:induction false} SortedPermutationsAgree(xs: seq<Event>, ys: seq<Event>)
    requires SortedByTicks(xs) && SortedByTicks(ys) && multiset(xs) == multiset(ys)
    ensures |xs| == |ys|
    ensures forall i :: 0 <= i < |xs| ==> xs[i].ticks == ys[i].ticks
    decreases |xs|
  {
    assert |xs| == |multiset(xs)| == |multiset(ys)| == |ys|;
    if |xs| > 0 {
      var k := FindHead(xs, ys);
      RemoveAtSorted(ys, k);
      SortedPermutationsAgree(xs[1..], RemoveAt(ys, k));
      HeadRunAgrees(xs, ys, k);
    }
  }

  /** The first event of `xs` sits somewhere in `ys`, at the earliest time of both. */
  lemma FindHead(xs: seq<Event>, ys: seq<Event>) returns (k: nat)
    requires SortedByTicks(xs) && SortedByTicks(ys) && multiset(xs) == multiset(ys)
    requires |xs| > 0
    ensures k < |ys| && ys[k] == xs[0] && ys[0].ticks == xs[0].ticks
    ensures multiset(xs[1..]) == multiset(RemoveAt(ys, k))
  {
    var x := xs[0];
    assert x in multiset(ys);
    k :| 0 <= k < |ys| && ys[k] == x;
    assert ys[0] in multiset(xs);
    var m :| 0 <= m < |xs| && xs[m] == ys[0];
    assert xs == [x] + xs[1..];
  }

  /** If the tail of `xs` agrees in time with `ys` less its entry `k`, and `ys[k]` has
      the time of `ys[0]` and `xs[0]`, then `xs` agrees in time with `ys`. */
  lemma HeadRunAgrees(xs: seq<Event>, ys: seq<Event>, k: nat)
    requires SortedByTicks(ys) && |xs| == |ys| && k < |ys|
    requires ys[k].ticks == ys[0].ticks == xs[0].ticks
    requires forall i :: 0 <= i < |xs| - 1 ==> xs[1..][i].ticks == RemoveAt(ys, k)[i].ticks
    ensures forall i :: 0 <= i < |xs| ==> xs[i].ticks == ys[i].ticks
  {
    var rest := RemoveAt(ys, k);
    forall i | 0 < i < |xs|
      ensures xs[i].ticks == ys[i].ticks
    {
      assert xs[i].ticks == rest[i - 1].ticks by { assert xs[i] == xs[1..][i - 1]; }
      if i <= k {
        // Everything from `ys[0]` up to `ys[k]` has the time of `xs[0]`.
        assert rest[i - 1] == ys[i - 1];
        assert ys[0].ticks <= ys[i - 1].ticks <= ys[k].ticks;
        assert ys[0].ticks <= ys[i].ticks <= ys[k].ticks;
      } else {
        assert rest[i - 1] == ys[i];
      }
    }
  }

  /** `qsort` may leave events with equal times in any order, but sorting a prefix that
      is already in time order leaves the time at every position as it was. */
  lemma SortSortedKeepsTimes(list: seq<Event>, n: nat)
    requires n <= |list| && SortedByTicks(list[..n])
    ensures forall i :: 0 <= i < n ==> SortPrefix(list, n)[i].ticks == list[i].ticks
  {
    var r := SortPrefix(list, n);
    SortedPermutationsAgree(r[..n], list[..n]);
    assert forall i :: 0 <= i < n ==> r[..n][i] == r[i] && list[..n][i] == list[i];
  }
}
