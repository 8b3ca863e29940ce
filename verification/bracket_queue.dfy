/** The queue of candidate bracket pairs of one isolating run sequence, used
    by rule N0 (BD16 and N0 of UAX #9, sections 3.1.4 and 3.3.5).

    Pairs are dequeued oldest first, but a closing bracket matches the
    newest open pair. The source keeps pairs in chained 8-slot blocks; here
    `pairs` holds every pair enqueued since the last `Clear`, and the live
    queue is `pairs[front..]`. Links are positions in the sequence being
    resolved; `None` is a null link. */
module BracketQueue {
  import opened BidiTypes

  /** A candidate pair: its opening and closing links, the opening bracket
      character, the nearest strong link before the opening bracket, and
      the strong type recorded for its interior. */
  datatype BracketPair = BracketPair(
    openingLink: Option<nat>,
    closingLink: Option<nat>,
    bracket: char,
    priorStrongLink: Option<nat>,
    strongType: CharType)

  /** Both brackets of the pair are known. */
  predicate IsComplete(pair: BracketPair) {
    pair.openingLink.Some? && pair.closingLink.Some?
  }

  /** A pair that still waits for its closing bracket. */
  predicate IsOpen(pair: BracketPair) {
    pair.openingLink.Some? && pair.closingLink.None?
  }

  datatype BracketQueue = BracketQueue(pairs: seq<BracketPair>, front: nat, direction: CharType, shouldDequeue: bool)

  predicate Valid(q: BracketQueue) {
    q.front <= |q.pairs|
  }

  function Count(q: BracketQueue): int {
    |q.pairs| - q.front
  }

  predicate IsEmpty(q: BracketQueue) {
    Count(q) == 0
  }

  /** Empties the queue, records the embedding direction of the sequence
      and lowers the dequeue flag. */
  function Clear(direction: CharType): (q: BracketQueue)
    ensures Valid(q) && IsEmpty(q)
    ensures q.direction == direction && !q.shouldDequeue
  {
    BracketQueue([], 0, direction, false)
  }

  function Enqueue(q: BracketQueue, pair: BracketPair): (r: BracketQueue)
    requires Valid(q)
    ensures Valid(r)
    ensures Count(r) == Count(q) + 1
    ensures r.pairs[r.front..] == q.pairs[q.front..] + [pair]
    ensures r.front == q.front && r.direction == q.direction && r.shouldDequeue == q.shouldDequeue
  {
    q.(pairs := q.pairs + [pair])
  }

  /** The oldest live pair. */
  function Peek(q: BracketQueue): BracketPair
    requires Valid(q) && !IsEmpty(q)
  {
    q.pairs[q.front]
  }

  /** Removes the oldest live pair; an empty queue is a fault. The dequeue
      flag is left as it is. */
  function Dequeue(q: BracketQueue): (r: Result<BracketQueue>)
    requires Valid(q)
    ensures r.Fault? <==> IsEmpty(q)
    ensures r.Ok? ==> Valid(r.value) && Count(r.value) == Count(q) - 1
    ensures r.Ok? ==> r.value.pairs[r.value.front..] == q.pairs[q.front + 1..]
    ensures r.Ok? ==> r.value.shouldDequeue == q.shouldDequeue && r.value.direction == q.direction
  {
    if IsEmpty(q) then Fault("The queue is empty.") else Ok(q.(front := q.front + 1))
  }

  /** Whether `SetStrongType` overwrites this pair's strong type. */
  predicate TakesStrongType(pair: BracketPair, direction: CharType) {
    pair.closingLink.None? && pair.strongType != direction
  }

  /** Records `strongType` in every live pair that has no closing link yet
      and has not already seen the embedding direction. Callers only use it
      on a non-empty queue. */
  function SetStrongType(q: BracketQueue, strongType: CharType): (r: BracketQueue)
    requires Valid(q) && !IsEmpty(q)
    ensures Valid(r)
    ensures |r.pairs| == |q.pairs| && r.front == q.front
    ensures r.direction == q.direction && r.shouldDequeue == q.shouldDequeue
    ensures forall i :: 0 <= i < |q.pairs| ==>
              r.pairs[i] == (if q.front <= i && TakesStrongType(q.pairs[i], q.direction)
                             then q.pairs[i].(strongType := strongType) else q.pairs[i])
  {
    q.(pairs := seq(|q.pairs|, i requires 0 <= i < |q.pairs| =>
                      if q.front <= i && TakesStrongType(q.pairs[i], q.direction)
                      then q.pairs[i].(strongType := strongType) else q.pairs[i]))
  }

  /** The index of the newest live open pair whose bracket is `bracket`, or
      -1 when there is none. */
  function FindMatch(pairs: seq<BracketPair>, front: nat, hi: int, bracket: char): (m: int)
    requires hi <= |pairs|
    ensures m == -1 || (front <= m < hi && IsOpen(pairs[m]) && pairs[m].bracket == bracket)
    ensures m == -1 ==> forall j :: front <= j < hi ==> !(IsOpen(pairs[j]) && pairs[j].bracket == bracket)
    ensures m != -1 ==> forall j :: m < j < hi ==> !(IsOpen(pairs[j]) && pairs[j].bracket == bracket)
    decreases hi - front
  {
    if hi <= front then -1
    else if IsOpen(pairs[hi - 1]) && pairs[hi - 1].bracket == bracket then hi - 1
    else FindMatch(pairs, front, hi - 1, bracket)
  }

  /** Drops the opening link of every pair after `m` that is still open. */
  function InvalidatePairs(pairs: seq<BracketPair>, m: int): (r: seq<BracketPair>)
    ensures |r| == |pairs|
    ensures forall j :: 0 <= j < |pairs| ==>
              r[j] == (if j > m && IsOpen(pairs[j]) then pairs[j].(openingLink := None) else pairs[j])
  {
    seq(|pairs|, j requires 0 <= j < |pairs| =>
          if j > m && IsOpen(pairs[j]) then pairs[j].(openingLink := None) else pairs[j])
  }

  /** Closes the newest live open pair whose bracket equals `bracket` with
      `closingLink`, invalidates every later pair still open, and raises the
      dequeue flag when the closed pair is the oldest one. Without a match
      the queue is unchanged. Callers only use it on a non-empty queue. */
  function ClosePair(q: BracketQueue, closingLink: nat, bracket: char): (r: BracketQueue)
    requires Valid(q) && !IsEmpty(q)
    ensures Valid(r)
    ensures |r.pairs| == |q.pairs| && r.front == q.front && r.direction == q.direction
  {
    var m := FindMatch(q.pairs, q.front, |q.pairs|, bracket);
    if m == -1 then q
    else
      var closed := q.pairs[m := q.pairs[m].(closingLink := Some(closingLink))];
      q.(pairs := InvalidatePairs(closed, m), shouldDequeue := q.shouldDequeue || m == q.front)
  }

  /** What `ClosePair` does, pair by pair: the match is the newest open pair
      with an equal bracket; it receives the closing link; every later open
      pair loses its opening link; earlier pairs and all pairs on a miss are
      unchanged. */
  lemma ClosePairEffect(q: BracketQueue, closingLink: nat, bracket: char)
    requires Valid(q) && !IsEmpty(q)
    ensures var r := ClosePair(q, closingLink, bracket);
            var live := set j | q.front <= j < |q.pairs| && IsOpen(q.pairs[j]) && q.pairs[j].bracket == bracket;
            if live == {} then r == q
            else
              exists m ::
                && m in live
                && (forall j :: j in live ==> j <= m)
                && r.pairs[m] == q.pairs[m].(closingLink := Some(closingLink))
                && (forall j :: m < j < |q.pairs| && IsOpen(q.pairs[j]) ==> r.pairs[j].openingLink.None?)
                && (forall j :: m < j < |q.pairs| && !IsOpen(q.pairs[j]) ==> r.pairs[j] == q.pairs[j])
                && (forall j :: 0 <= j < m ==> r.pairs[j] == q.pairs[j])
                && (r.shouldDequeue <==> q.shouldDequeue || m == q.front)
  {
    var m := FindMatch(q.pairs, q.front, |q.pairs|, bracket);
    var live := set j | q.front <= j < |q.pairs| && IsOpen(q.pairs[j]) && q.pairs[j].bracket == bracket;
    if m == -1 {
      assert live == {};
    } else {
      assert m in live;
    }
  }

  /** Pair by pair, `ClosePair` either keeps a pair, gives it the closing
      link, or drops its opening link; nothing else about a pair changes. */
  lemma ClosePairChangesLinks(q: BracketQueue, closingLink: nat, bracket: char)
    requires Valid(q) && !IsEmpty(q)
    ensures forall j :: 0 <= j < |q.pairs| ==>
              var p := ClosePair(q, closingLink, bracket).pairs[j];
              || p == q.pairs[j]
              || p == q.pairs[j].(closingLink := Some(closingLink))
              || p == q.pairs[j].(openingLink := None)
  {
  }

  /** The dequeue flag is sticky: once raised, no operation other than
      `Clear` lowers it. */
  lemma ShouldDequeueIsSticky(q: BracketQueue, pair: BracketPair, t: CharType, closingLink: nat, bracket: char)
    requires Valid(q) && q.shouldDequeue
    ensures Enqueue(q, pair).shouldDequeue
    ensures !IsEmpty(q) ==> SetStrongType(q, t).shouldDequeue
    ensures !IsEmpty(q) ==> ClosePair(q, closingLink, bracket).shouldDequeue
    ensures Dequeue(q).Ok? ==> Dequeue(q).value.shouldDequeue
  {
  }

  /** A pair that has seen the embedding direction keeps it: later strong
      types never overwrite it. */
  lemma DirectionIsFinal(q: BracketQueue, t: CharType, i: int)
    requires Valid(q) && !IsEmpty(q)
    requires 0 <= i < |q.pairs| && q.pairs[i].strongType == q.direction
    ensures SetStrongType(q, t).pairs[i].strongType == q.direction
  {
  }

  /** An invalidated pair (no opening link) can never be closed again, and a
      closed pair stays closed, so a pair that is not complete after an
      invalidation never becomes complete. */
  lemma InvalidPairStaysIncomplete(q: BracketQueue, closingLink: nat, bracket: char, t: CharType, i: int)
    requires Valid(q) && !IsEmpty(q)
    requires 0 <= i < |q.pairs| && q.pairs[i].openingLink.None?
    ensures ClosePair(q, closingLink, bracket).pairs[i] == q.pairs[i]
    ensures SetStrongType(q, t).pairs[i].openingLink.None?
    ensures !IsComplete(ClosePair(q, closingLink, bracket).pairs[i])
  {
  }
}
