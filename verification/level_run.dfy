/** A level run: a maximal sub-chain of links at one embedding level, with
    the directions on either side of it (sor, eor) and its classification
    as isolate initiator, partial isolate, terminator and attached
    terminator (BD13 and X10 of UAX #9, sections 3.1.3 and 3.3.3). */
module LevelRun {
  import opened BidiTypes
  import opened BidiLink

  /** Links are arena indices; `next` is the index, in the table of runs
      the run queue keeps, of the run this one continues into. The source
      stores the four kind flags as one bit set and sor/eor as extrema bits
      of which only the "L" bits are ever read. */
  datatype LevelRun = LevelRun(
    firstLink: int,
    lastLink: int,
    subsequentLink: int,
    sorIsL: bool,
    eorIsL: bool,
    level: Byte,
    isolate: bool,
    partial: bool,
    terminating: bool,
    attached: bool,
    next: Option<nat>)

  function SOR(run: LevelRun): (t: CharType)
    ensures IsDirection(t)
  {
    if run.sorIsL then L else R
  }

  function EOR(run: LevelRun): (t: CharType)
    ensures IsDirection(t)
  {
    if run.eorIsL then L else R
  }

  /** No kind flag is set. */
  predicate IsSimple(run: LevelRun) {
    !run.isolate && !run.partial && !run.terminating && !run.attached
  }

  /** What holds of a run right after construction: the partial flag is set
      together with the isolate flag, and nothing is attached yet. */
  predicate Fresh(run: LevelRun) {
    run.partial == run.isolate && !run.attached && run.next == None
  }

  /** Builds the run spanning `firstLink` .. `lastLink`. Its level is the
      first link's level as read at construction; the subsequent link is the
      successor of the last link at that moment. A run ending in an isolate
      initiator is an initiator and still partial; a run starting with PDI
      is a terminator. */
  function NewLevelRun(a: Arena, firstLink: int, lastLink: int, sor: CharType, eor: CharType): (run: LevelRun)
    requires Addr(a, firstLink) && Addr(a, lastLink)
    requires IsDirection(sor) && IsDirection(eor)
    ensures Fresh(run)
    ensures SOR(run) == sor && EOR(run) == eor
    ensures run.level == a[firstLink].level
    ensures run.isolate <==> IsIsolateInitiator(a[lastLink].charType)
    ensures run.terminating <==> a[firstLink].charType == PDI
    ensures run.subsequentLink == a[lastLink].next
    ensures run.firstLink == firstLink && run.lastLink == lastLink
  {
    var isolate := IsIsolateInitiator(a[lastLink].charType);
    LevelRun(firstLink, lastLink, a[lastLink].next, sor == L, eor == L, a[firstLink].level,
             isolate, isolate, a[firstLink].charType == PDI, false, None)
  }

  /** The conditions under which one run may be attached to another: equal
      levels, a receiver that is not simple and not a completed initiator,
      and a terminator when the receiver is an initiator. */
  predicate CanAttach(run: LevelRun, other: LevelRun) {
    && run.level == other.level
    && !IsSimple(run)
    && !(run.isolate && !run.partial)
    && (run.isolate ==> other.terminating)
  }

  /** Continues `run` into `other` (stored at index `otherIndex`): a
      terminator is marked attached, an initiator stops being partial, and
      nothing else about either run changes. */
  function AttachLevelRun(run: LevelRun, other: LevelRun, otherIndex: nat): (r: (LevelRun, LevelRun))
    requires CanAttach(run, other)
    ensures r.0.next == Some(otherIndex)
    ensures r.0.partial <==> (run.partial && !run.isolate)
    ensures r.1.attached <==> (other.attached || other.terminating)
    ensures r.0 == run.(partial := r.0.partial, next := r.0.next)
    ensures r.1 == other.(attached := r.1.attached)
  {
    var other' := if other.terminating then other.(attached := true) else other;
    var run' := if run.isolate then run.(partial := false) else run;
    (run'.(next := Some(otherIndex)), other')
  }

  /** Attaching never changes the isolate or terminator classification, and
      an initiator that receives a terminator is complete afterwards. */
  lemma AttachKeepsClassification(run: LevelRun, other: LevelRun, otherIndex: nat)
    requires CanAttach(run, other)
    ensures var (run', other') := AttachLevelRun(run, other, otherIndex);
            && run'.isolate == run.isolate && run'.terminating == run.terminating
            && other'.isolate == other.isolate && other'.terminating == other.terminating
            && (run.isolate ==> !run'.partial && other'.attached)
  {
  }
}
