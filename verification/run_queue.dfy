/** The queue of level runs that discovers isolating run sequences while
    runs are enqueued (BD13 of UAX #9, section 3.1.3).

    The source keeps runs in chained 8-slot blocks. Here `runs` holds every
    run enqueued so far in arrival order; the live queue is `runs[front..]`
    and `pending` is the index of the innermost isolate initiator still
    waiting for its terminator, or -1. Runs are values, so the attachment
    that the source performs on shared run objects updates `runs` in place. */
module RunQueue {
  import opened BidiTypes
  import opened LevelRun

  datatype RunQueue = RunQueue(runs: seq<LevelRun>, front: nat, pending: int)

  /** No run in `runs[lo..hi]` is a partial isolate. */
  predicate NonePartial(runs: seq<LevelRun>, lo: int, hi: int)
    requires 0 <= lo && hi <= |runs|
  {
    forall i :: lo <= i < hi ==> !runs[i].partial
  }

  /** The queue's invariant: a partial run is always an initiator, `next`
      indices stay inside the table, and the pending run, when recorded, is
      a partial initiator later than any other partial run; when none is
      recorded no live run is partial. */
  predicate Valid(q: RunQueue) {
    && q.front <= |q.runs|
    && (forall i :: 0 <= i < |q.runs| ==> q.runs[i].partial ==> q.runs[i].isolate)
    && (forall i :: 0 <= i < |q.runs| ==> q.runs[i].next.Some? ==> q.runs[i].next.value < |q.runs|)
    && (q.pending == -1 ==> NonePartial(q.runs, q.front, |q.runs|))
    && (q.pending != -1 ==>
          && 0 <= q.pending < |q.runs|
          && q.runs[q.pending].isolate && q.runs[q.pending].partial
          && NonePartial(q.runs, q.pending + 1, |q.runs|))
  }

  function NewRunQueue(): (q: RunQueue)
    ensures Valid(q)
    ensures Count(q) == 0 && ShouldDequeue(q)
  {
    RunQueue([], 0, -1)
  }

  function Count(q: RunQueue): int {
    |q.runs| - q.front
  }

  predicate IsEmpty(q: RunQueue) {
    Count(q) == 0
  }

  /** No isolate initiator is waiting for its terminator. */
  predicate ShouldDequeue(q: RunQueue) {
    q.pending == -1
  }

  /** The index of the latest partial run in `runs[front..from]` (both ends
      included), or -1 when there is none. */
  function FindPreviousIncompleteRun(runs: seq<LevelRun>, from: int, front: nat): (i: int)
    requires from < |runs|
    ensures i == -1 || (front <= i <= from && runs[i].partial)
    ensures i == -1 ==> forall j :: front <= j <= from ==> !runs[j].partial
    ensures i != -1 ==> forall j :: i < j <= from ==> !runs[j].partial
    decreases from - front + 1
  {
    if from < front then -1
    else if runs[from].partial then from
    else FindPreviousIncompleteRun(runs, from - 1, front)
  }

  /** Appends `run`. A terminator that arrives while an initiator is pending
      completes that initiator, and the nearest earlier partial run (or
      none) becomes pending; an initiator then becomes pending itself. */
  function Enqueue(q: RunQueue, run: LevelRun): (r: RunQueue)
    requires Valid(q)
    requires Fresh(run)
    requires q.pending != -1 && run.terminating ==> q.runs[q.pending].level == run.level
    ensures Valid(r)
    ensures |r.runs| == |q.runs| + 1 && r.front == q.front
    ensures Count(r) == Count(q) + 1
    ensures forall j :: 0 <= j < |q.runs| ==> r.runs[j].level == q.runs[j].level
    ensures r.runs[|q.runs|].level == run.level
    ensures run.isolate ==> r.pending == |q.runs|
  {
    var n := |q.runs|;
    if q.pending != -1 && run.terminating then
      var (initiator, terminator) := AttachLevelRun(q.runs[q.pending], run, n);
      var runs := q.runs[q.pending := initiator] + [terminator];
      var pending := if run.isolate then n else FindPreviousIncompleteRun(runs, q.pending, q.front);
      RunQueue(runs, q.front, pending)
    else
      RunQueue(q.runs + [run], q.front, if run.isolate then n else q.pending)
  }

  /** The oldest live run. */
  function Peek(q: RunQueue): LevelRun
    requires Valid(q) && !IsEmpty(q)
  {
    q.runs[q.front]
  }

  /** Removes the oldest live run. */
  function Dequeue(q: RunQueue): (r: RunQueue)
    requires Valid(q) && !IsEmpty(q)
    ensures Valid(r)
    ensures Count(r) == Count(q) - 1
    ensures r.runs == q.runs && r.pending == q.pending
    ensures r.runs[r.front..] == q.runs[q.front + 1..]
  {
    q.(front := q.front + 1)
  }

  /** Enqueue appends at the rear: the runs already live keep their order,
      the oldest stays at the front, and the new run is the last one. The
      only run it may rewrite is the pending initiator. */
  lemma EnqueueIsFifo(q: RunQueue, run: LevelRun)
    requires Valid(q) && Fresh(run)
    requires q.pending != -1 && run.terminating ==> q.runs[q.pending].level == run.level
    ensures var r := Enqueue(q, run);
            && (forall i :: 0 <= i < |q.runs| && i != q.pending ==> r.runs[i] == q.runs[i])
            && r.runs[|q.runs|] == run.(attached := r.runs[|q.runs|].attached)
            && (!IsEmpty(q) ==> Peek(r).firstLink == Peek(q).firstLink)
  {
  }

  /** The attachment rule. A terminator arriving while an initiator is
      pending completes it: the initiator continues into the terminator,
      stops being partial, the terminator is marked attached, and the
      nearest earlier partial run becomes pending unless the terminator is
      itself an initiator. With no pending initiator, nothing is attached. */
  lemma EnqueueAttaches(q: RunQueue, run: LevelRun)
    requires Valid(q) && Fresh(run)
    requires q.pending != -1 && run.terminating ==> q.runs[q.pending].level == run.level
    ensures var r := Enqueue(q, run);
            var n := |q.runs|;
            if q.pending != -1 && run.terminating then
              && r.runs[q.pending].next == Some(n)
              && !r.runs[q.pending].partial
              && r.runs[n].attached
              && r.pending == (if run.isolate then n
                               else FindPreviousIncompleteRun(r.runs, q.pending, q.front))
              && (!run.isolate && r.pending != -1 ==>
                    && q.front <= r.pending < q.pending && r.runs[r.pending].partial
                    && NonePartial(r.runs, r.pending + 1, n + 1))
              && (!run.isolate && r.pending == -1 ==> NonePartial(r.runs, q.front, n + 1))
            else
              && r.runs == q.runs + [run]
              && !r.runs[n].attached
              && r.pending == (if run.isolate then n else q.pending)
  {
  }

  /** Two nested isolates, initiator A, initiator B, terminator of B,
      terminator of A: each initiator continues into its own terminator, the
      inner pair first, and the queue is back to the initiator that was
      pending before A. */
  lemma NestedIsolatesComplete(q: RunQueue, outer: LevelRun, inner: LevelRun, innerEnd: LevelRun, outerEnd: LevelRun)
    requires Valid(q) && Fresh(outer) && Fresh(inner) && Fresh(innerEnd) && Fresh(outerEnd)
    requires outer.isolate && !outer.terminating && inner.isolate && !inner.terminating
    requires innerEnd.terminating && !innerEnd.isolate && outerEnd.terminating && !outerEnd.isolate
    requires inner.level == innerEnd.level && outer.level == outerEnd.level
    ensures var n := |q.runs|;
            var r := Enqueue(Enqueue(Enqueue(Enqueue(q, outer), inner), innerEnd), outerEnd);
            && !r.runs[n].partial && r.runs[n].next == Some(n + 3)
            && !r.runs[n + 1].partial && r.runs[n + 1].next == Some(n + 2)
            && r.runs[n + 2].attached && r.runs[n + 3].attached
            && r.pending == (if q.pending >= q.front then q.pending else -1)
  {
    var n := |q.runs|;
    var q1 := Enqueue(q, outer);
    var q2 := Enqueue(q1, inner);
    assert q2.pending == n + 1;
    var q3 := Enqueue(q2, innerEnd);
    assert q3.runs[n].partial;
    assert q3.pending == n;
    var r := Enqueue(q3, outerEnd);
    assert r.runs[n + 1] == q3.runs[n + 1] && r.runs[n + 2] == q3.runs[n + 2];
    if q.pending >= q.front {
      assert r.runs[q.pending].partial;
      assert forall j :: q.pending < j <= n ==> !r.runs[j].partial;
    } else {
      assert forall j :: q.front <= j <= n ==> !r.runs[j].partial;
    }
  }

  /** `ShouldDequeue` holds exactly when no initiator is pending; when it
      holds no live run is a partial isolate, and when it does not the
      pending run is a partial initiator. */
  lemma ShouldDequeueMeansNoOpenIsolate(q: RunQueue)
    requires Valid(q)
    ensures ShouldDequeue(q) ==> forall i :: q.front <= i < |q.runs| ==> !q.runs[i].partial
    ensures !ShouldDequeue(q) ==> q.runs[q.pending].isolate && q.runs[q.pending].partial
  {
  }

  /** An initiator followed directly by a terminator of the same level: the
      initiator ends complete and continues into the terminator, which is
      attached. */
  lemma IsolatePairCompletes(q: RunQueue, initiator: LevelRun, terminator: LevelRun)
    requires Valid(q) && Fresh(initiator) && Fresh(terminator)
    requires initiator.isolate && !initiator.terminating
    requires terminator.terminating && !terminator.isolate
    requires initiator.level == terminator.level
    ensures var n := |q.runs|;
            var r := Enqueue(Enqueue(q, initiator), terminator);
            && !r.runs[n].partial && r.runs[n].next == Some(n + 1)
            && r.runs[n + 1].attached
            && r.pending == (if q.pending >= q.front then q.pending else -1)
  {
    var n := |q.runs|;
    var q1 := Enqueue(q, initiator);
    assert q1.pending == n;
    var r := Enqueue(q1, terminator);
    assert !r.runs[n].partial;
    if q.pending >= q.front {
      assert r.runs[q.pending].partial;
      assert forall j :: q.pending < j <= n ==> !r.runs[j].partial;
    } else {
      assert forall j :: q.front <= j <= n ==> !r.runs[j].partial;
    }
  }
}
