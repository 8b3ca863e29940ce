/** Rules N1 and N2 of UAX #9 (section 3.3.5) as the resolver applies them:
    one pass over the ring that gives every maximal run of neutrals and
    isolate controls the direction of its surroundings when both sides
    agree, and the embedding direction otherwise. Numbers count as R on
    either side; sos and eos stand in at the ends of the sequence.

    The pass reads and writes the types of the ring as a sequence indexed
    by position. */
module NeutralRules {
  import opened BidiTypes
  import Level

  /** How rules N1 and N2 read a type: L, R (numbers count as R), a
      neutral or isolate control, or a type the pass does not accept (an
      internal error in the source). */
  datatype Role = StrongL | StrongR | Neutral | Invalid

  function RoleOf(t: CharType): Role {
    match t
    case L => StrongL
    case R | EN | AN => StrongR
    case B | S | WS | ON | LRI | RLI | FSI | PDI => Neutral
    case _ => Invalid
  }

  /** The types N1 and N2 resolve: neutrals and isolate controls. */
  predicate IsNeutral(t: CharType) {
    RoleOf(t) == Neutral
  }

  /** The types the neutral pass accepts: strong types, numbers and
      neutrals. */
  predicate IsNeutralInput(t: CharType) {
    RoleOf(t) != Invalid
  }

  predicate AllNeutralInput(types: seq<CharType>) {
    forall k :: 0 <= k < |types| ==> IsNeutralInput(types[k])
  }

  /** The direction a non-neutral input type stands for. */
  function Side(t: CharType): (r: CharType)
    requires IsNeutralInput(t) && !IsNeutral(t)
    ensures IsDirection(r)
    ensures r == L <==> t == L
  {
    if RoleOf(t) == StrongL then L else R
  }

  // ---------------------------------------------------------------------
  // The reference: every neutral takes the verdict of its maximal run.
  // ---------------------------------------------------------------------

  /** The first position of the run of neutrals that ends at `k`. */
  function RunStart(types: seq<CharType>, k: nat): (a: nat)
    requires k < |types| && IsNeutral(types[k])
    ensures a <= k
  {
    if k == 0 || !IsNeutral(types[k - 1]) then k else RunStart(types, k - 1)
  }

  /** The run found by `RunStart` is all neutral and maximal on the left. */
  lemma {:induction false} RunStartIsMaximal(types: seq<CharType>, k: nat)
    requires k < |types| && IsNeutral(types[k])
    ensures forall j :: RunStart(types, k) <= j <= k ==> IsNeutral(types[j])
    ensures RunStart(types, k) == 0 || !IsNeutral(types[RunStart(types, k) - 1])
  {
    if k > 0 && IsNeutral(types[k - 1]) {
      RunStartIsMaximal(types, k - 1);
    }
  }

  /** The direction of the last non-neutral type before position `n`, or
      `sos` when there is none. */
  function DirectionBefore(types: seq<CharType>, n: nat, sos: CharType): (r: CharType)
    requires n <= |types| && AllNeutralInput(types) && IsDirection(sos)
    ensures IsDirection(r)
  {
    if n == 0 then sos
    else if IsNeutral(types[n - 1]) then DirectionBefore(types, n - 1, sos)
    else Side(types[n - 1])
  }

  /** The direction of the first non-neutral type after position `k`, or
      `eos` when there is none. */
  function DirectionAfter(types: seq<CharType>, k: nat, eos: CharType): (r: CharType)
    requires k < |types| && AllNeutralInput(types) && IsDirection(eos)
    ensures IsDirection(r)
    decreases |types| - k
  {
    if k + 1 == |types| then eos
    else if IsNeutral(types[k + 1]) then DirectionAfter(types, k + 1, eos)
    else Side(types[k + 1])
  }

  /** N1 and N2 for one position: a neutral takes the direction on both
      sides of its run when they agree, otherwise the embedding direction;
      every other type is left alone. */
  function NeutralReference(types: seq<CharType>, k: nat, sos: CharType, eos: CharType, level: Byte): (r: CharType)
    requires k < |types| && AllNeutralInput(types) && IsDirection(sos) && IsDirection(eos)
    ensures IsNeutral(types[k]) ==> IsDirection(r)
    ensures !IsNeutral(types[k]) ==> r == types[k]
  {
    if IsNeutral(types[k]) then
      var before := DirectionBefore(types, RunStart(types, k), sos);
      var after := DirectionAfter(types, k, eos);
      if before == after then before else Level.LevelToEmbeddingType(level)
    else types[k]
  }

  // ---------------------------------------------------------------------
  // The pass.
  // ---------------------------------------------------------------------

  /** The type the pass looks ahead to after position `i`: eos past the
      end, and numbers read as R. */
  function NextType(types: seq<CharType>, i: nat, eos: CharType): CharType
    requires i < |types|
  {
    if i + 1 == |types| then eos else StrongOf(types[i + 1])
  }

  /** `types` with positions `lo` .. `hi - 1` set to `t`. */
  function Fill(types: seq<CharType>, lo: nat, hi: nat, t: CharType): (r: seq<CharType>)
    requires lo <= hi <= |types|
    ensures |r| == |types|
    ensures forall k :: 0 <= k < |types| ==> r[k] == (if lo <= k < hi then t else types[k])
  {
    seq(|types|, k requires 0 <= k < |types| => if lo <= k < hi then t else types[k])
  }

  /** What the pass carries: the types so far, the strong type last seen,
      and the first link of the neutral run still waiting for its end. */
  datatype NeutralPass = NeutralPass(types: seq<CharType>, strongType: CharType, neutralStart: Option<nat>)

  /** Visits position `i`: strong types and numbers update the strong type;
      a neutral joins the pending run, and when the type ahead is L or R
      (after mapping) the whole run is resolved at once. */
  function NeutralStep(st: NeutralPass, i: nat, eos: CharType, level: Byte): (r: NeutralPass)
    requires i < |st.types|
    requires st.neutralStart.Some? ==> st.neutralStart.value <= i
    ensures |r.types| == |st.types|
  {
    var t := st.types[i];
    if t == L then st.(strongType := L)
    else if t == R || t == EN || t == AN then st.(strongType := R)
    else if IsNeutral(t) then
      var start := if st.neutralStart.None? then i else st.neutralStart.value;
      var nextType := NextType(st.types, i, eos);
      if nextType == R || nextType == L then
        var resolvedType := if st.strongType == nextType then st.strongType else Level.LevelToEmbeddingType(level);
        NeutralPass(Fill(st.types, start, i + 1, resolvedType), st.strongType, None)
      else st.(neutralStart := Some(start))
    else st
  }

  /** The first position of the pending run, or `n` when none is pending. */
  function Pending(st: NeutralPass, n: nat): nat {
    if st.neutralStart.Some? then st.neutralStart.value else n
  }

  /** The pass state after `n` positions agrees with the reference before
      the pending run and with the input from there on; the pending run is
      a maximal-on-the-left run of neutrals that continues at `n`. */
  predicate NeutralPassState(types: seq<CharType>, sos: CharType, eos: CharType, level: Byte, n: nat, st: NeutralPass)
    requires AllNeutralInput(types) && IsDirection(sos) && IsDirection(eos)
  {
    && n <= |types| == |st.types|
    && st.strongType == DirectionBefore(types, n, sos)
    && Pending(st, n) <= n
    && (forall k :: 0 <= k < Pending(st, n) ==> st.types[k] == NeutralReference(types, k, sos, eos, level))
    && (forall k :: Pending(st, n) <= k < |types| ==> st.types[k] == types[k])
    && (forall j :: Pending(st, n) <= j < n ==> IsNeutral(types[j]))
    && (st.neutralStart.Some? ==>
          && Pending(st, n) < n < |types| && IsNeutral(types[n])
          && (Pending(st, n) == 0 || !IsNeutral(types[Pending(st, n) - 1])))
    && (st.neutralStart.None? && 0 < n < |types| && IsNeutral(types[n - 1]) ==> !IsNeutral(types[n]))
  }

  /** A run of neutrals from `a` through `k` starting after a non-neutral
      (or at the start) has `a` as its start. */
  lemma {:induction false} RunStartIs(types: seq<CharType>, a: nat, k: nat)
    requires a <= k < |types|
    requires forall j :: a <= j <= k ==> IsNeutral(types[j])
    requires a == 0 || !IsNeutral(types[a - 1])
    ensures RunStart(types, k) == a
    decreases k - a
  {
    if k > a {
      RunStartIs(types, a, k - 1);
    }
  }

  /** Neutrals do not change the direction before them. */
  lemma {:induction false} DirectionBeforeSkipsNeutrals(types: seq<CharType>, a: nat, n: nat, sos: CharType)
    requires a <= n <= |types| && AllNeutralInput(types) && IsDirection(sos)
    requires forall j :: a <= j < n ==> IsNeutral(types[j])
    ensures DirectionBefore(types, n, sos) == DirectionBefore(types, a, sos)
    decreases n - a
  {
    if n > a {
      DirectionBeforeSkipsNeutrals(types, a, n - 1, sos);
    }
  }

  /** Every neutral of a run ending at `i` looks ahead to the same
      direction as `i`. */
  lemma {:induction false} DirectionAfterSkipsNeutrals(types: seq<CharType>, k: nat, i: nat, eos: CharType)
    requires k <= i < |types| && AllNeutralInput(types) && IsDirection(eos)
    requires forall j :: k < j <= i ==> IsNeutral(types[j])
    ensures DirectionAfter(types, k, eos) == DirectionAfter(types, i, eos)
    decreases i - k
  {
    if k < i {
      DirectionAfterSkipsNeutrals(types, k + 1, i, eos);
    }
  }

  /** Resolving a run at position `i` writes the reference verdict on every
      neutral of the run. */
  lemma ResolvedRunIsReference(types: seq<CharType>, sos: CharType, eos: CharType, level: Byte, a: nat, i: nat)
    requires a <= i < |types| && AllNeutralInput(types) && IsDirection(sos) && IsDirection(eos)
    requires forall j :: a <= j <= i ==> IsNeutral(types[j])
    requires a == 0 || !IsNeutral(types[a - 1])
    requires IsDirection(NextType(types, i, eos))
    ensures forall k :: a <= k <= i ==>
              NeutralReference(types, k, sos, eos, level)
              == (if DirectionBefore(types, i, sos) == NextType(types, i, eos) then DirectionBefore(types, i, sos)
                  else Level.LevelToEmbeddingType(level))
  {
    DirectionBeforeSkipsNeutrals(types, a, i, sos);
    forall k | a <= k <= i
      ensures RunStart(types, k) == a && DirectionAfter(types, k, eos) == NextType(types, i, eos)
    {
      RunStartIs(types, a, k);
      DirectionAfterSkipsNeutrals(types, k, i, eos);
    }
  }

  /** A strong type or number only moves the strong type along. */
  lemma StrongStepState(types: seq<CharType>, sos: CharType, eos: CharType, level: Byte, n: nat, st: NeutralPass)
    requires AllNeutralInput(types) && IsDirection(sos) && IsDirection(eos)
    requires n < |types| && NeutralPassState(types, sos, eos, level, n, st)
    requires !IsNeutral(types[n])
    ensures NeutralPassState(types, sos, eos, level, n + 1, NeutralStep(st, n, eos, level))
  {
    assert st.types[n] == types[n] && st.neutralStart.None?;
    assert NeutralStep(st, n, eos, level) == NeutralPass(st.types, Side(types[n]), None);
    StrongState(types, sos, eos, level, n, st.types);
  }

  /** Past a strong type or number nothing is pending, and the strong type
      is its direction. */
  lemma StrongState(types: seq<CharType>, sos: CharType, eos: CharType, level: Byte, n: nat, current: seq<CharType>)
    requires AllNeutralInput(types) && IsDirection(sos) && IsDirection(eos)
    requires n < |types| == |current| && !IsNeutral(types[n])
    requires forall k :: 0 <= k < n ==> current[k] == NeutralReference(types, k, sos, eos, level)
    requires forall k :: n <= k < |types| ==> current[k] == types[k]
    ensures NeutralPassState(types, sos, eos, level, n + 1, NeutralPass(current, Side(types[n]), None))
  {
    assert current[n] == NeutralReference(types, n, sos, eos, level);
    assert DirectionBefore(types, n + 1, sos) == Side(types[n]);
    assert forall k :: 0 <= k < n + 1 ==> current[k] == NeutralReference(types, k, sos, eos, level);
  }

  /** The pending run, extended by the neutral at `n`, starts after a
      non-neutral or at the start. */
  lemma PendingRunIsMaximal(types: seq<CharType>, sos: CharType, eos: CharType, level: Byte, n: nat, st: NeutralPass)
    requires AllNeutralInput(types) && IsDirection(sos) && IsDirection(eos)
    requires n < |types| && NeutralPassState(types, sos, eos, level, n, st)
    requires IsNeutral(types[n])
    ensures forall j :: Pending(st, n) <= j <= n ==> IsNeutral(types[j])
    ensures Pending(st, n) == 0 || !IsNeutral(types[Pending(st, n) - 1])
  {
  }

  /** A neutral whose look-ahead is L or R closes its run: the run gets the
      reference verdict. */
  lemma ResolveStepState(types: seq<CharType>, sos: CharType, eos: CharType, level: Byte, n: nat, st: NeutralPass)
    requires AllNeutralInput(types) && IsDirection(sos) && IsDirection(eos)
    requires n < |types| && NeutralPassState(types, sos, eos, level, n, st)
    requires IsNeutral(types[n]) && IsDirection(NextType(types, n, eos))
    ensures NeutralPassState(types, sos, eos, level, n + 1, NeutralStep(st, n, eos, level))
  {
    var start := Pending(st, n);
    PendingRunIsMaximal(types, sos, eos, level, n, st);
    assert st.types[n] == types[n] && NextType(st.types, n, eos) == NextType(types, n, eos);
    NeutralStepCloses(st, n, eos, level);
    ResolvedRunState(types, sos, eos, level, start, n, st.types, st.strongType);
  }

  /** Filling the pending run `start .. n` with the pass's verdict leaves
      nothing pending and agreement with the reference through `n`. */
  lemma ResolvedRunState(types: seq<CharType>, sos: CharType, eos: CharType, level: Byte,
                         start: nat, n: nat, current: seq<CharType>, strongType: CharType)
    requires AllNeutralInput(types) && IsDirection(sos) && IsDirection(eos)
    requires start <= n < |types| == |current|
    requires forall j :: start <= j <= n ==> IsNeutral(types[j])
    requires start == 0 || !IsNeutral(types[start - 1])
    requires IsDirection(NextType(types, n, eos))
    requires strongType == DirectionBefore(types, n, sos)
    requires forall k :: 0 <= k < start ==> current[k] == NeutralReference(types, k, sos, eos, level)
    requires forall k :: n < k < |types| ==> current[k] == types[k]
    ensures var resolvedType := if strongType == NextType(types, n, eos) then strongType
                                else Level.LevelToEmbeddingType(level);
            NeutralPassState(types, sos, eos, level, n + 1,
                             NeutralPass(Fill(current, start, n + 1, resolvedType), strongType, None))
  {
    var resolvedType := if strongType == NextType(types, n, eos) then strongType
                        else Level.LevelToEmbeddingType(level);
    FilledRunIsReference(types, sos, eos, level, start, n, current);
    DirectionBeforeSkipsNeutrals(types, n, n + 1, sos);
    LookAheadNotNeutral(types, n, eos);
    ClosedRunState(types, sos, eos, level, n, Fill(current, start, n + 1, resolvedType), strongType);
  }

  /** The step over a neutral whose look-ahead is L or R fills the pending
      run through it and leaves nothing pending. */
  lemma NeutralStepCloses(st: NeutralPass, n: nat, eos: CharType, level: Byte)
    requires n < |st.types| && IsNeutral(st.types[n])
    requires st.neutralStart.Some? ==> st.neutralStart.value <= n
    requires IsDirection(NextType(st.types, n, eos))
    ensures var resolvedType := if st.strongType == NextType(st.types, n, eos) then st.strongType
                                else Level.LevelToEmbeddingType(level);
            NeutralStep(st, n, eos, level)
              == NeutralPass(Fill(st.types, Pending(st, n), n + 1, resolvedType), st.strongType, None)
  {
  }

  /** A look-ahead of L or R is not a neutral. */
  lemma LookAheadNotNeutral(types: seq<CharType>, n: nat, eos: CharType)
    requires n < |types| && IsDirection(NextType(types, n, eos))
    ensures n + 1 < |types| ==> !IsNeutral(types[n + 1])
  {
  }

  /** Once the run through `n` is resolved, nothing is pending and the
      types agree with the reference through `n`. */
  lemma ClosedRunState(types: seq<CharType>, sos: CharType, eos: CharType, level: Byte,
                       n: nat, filled: seq<CharType>, strongType: CharType)
    requires AllNeutralInput(types) && IsDirection(sos) && IsDirection(eos)
    requires n < |types| == |filled|
    requires n + 1 < |types| ==> !IsNeutral(types[n + 1])
    requires strongType == DirectionBefore(types, n + 1, sos)
    requires forall k :: 0 <= k < n + 1 ==> filled[k] == NeutralReference(types, k, sos, eos, level)
    requires forall k :: n < k < |types| ==> filled[k] == types[k]
    ensures NeutralPassState(types, sos, eos, level, n + 1, NeutralPass(filled, strongType, None))
  {
  }

  /** Filling a run that starts after a non-neutral and ends before an L
      or R look-ahead with the pass's verdict extends the agreement with
      the reference through the run. */
  lemma FilledRunIsReference(types: seq<CharType>, sos: CharType, eos: CharType, level: Byte,
                             start: nat, n: nat, current: seq<CharType>)
    requires AllNeutralInput(types) && IsDirection(sos) && IsDirection(eos)
    requires start <= n < |types| == |current|
    requires forall j :: start <= j <= n ==> IsNeutral(types[j])
    requires start == 0 || !IsNeutral(types[start - 1])
    requires IsDirection(NextType(types, n, eos))
    requires forall k :: 0 <= k < start ==> current[k] == NeutralReference(types, k, sos, eos, level)
    requires forall k :: n < k < |types| ==> current[k] == types[k]
    ensures var resolvedType := if DirectionBefore(types, n, sos) == NextType(types, n, eos) then DirectionBefore(types, n, sos)
                                else Level.LevelToEmbeddingType(level);
            var filled := Fill(current, start, n + 1, resolvedType);
            && (forall k :: 0 <= k <= n ==> filled[k] == NeutralReference(types, k, sos, eos, level))
            && (forall k :: n < k < |types| ==> filled[k] == types[k])
  {
    ResolvedRunIsReference(types, sos, eos, level, start, n);
  }

  /** A neutral followed by another neutral extends the pending run. */
  lemma PendingStepState(types: seq<CharType>, sos: CharType, eos: CharType, level: Byte, n: nat, st: NeutralPass)
    requires AllNeutralInput(types) && IsDirection(sos) && IsDirection(eos)
    requires n < |types| && NeutralPassState(types, sos, eos, level, n, st)
    requires IsNeutral(types[n]) && !IsDirection(NextType(types, n, eos))
    ensures NeutralPassState(types, sos, eos, level, n + 1, NeutralStep(st, n, eos, level))
  {
    var start := Pending(st, n);
    PendingRunIsMaximal(types, sos, eos, level, n, st);
    assert NeutralStep(st, n, eos, level) == st.(neutralStart := Some(start)) by {
      assert st.types[n] == types[n];
      assert NextType(st.types, n, eos) == NextType(types, n, eos);
    }
    DirectionBeforeSkipsNeutrals(types, n, n + 1, sos);
    LookAheadNeutral(types, n, eos);
    PendingState(types, sos, eos, level, start, n, st.types, st.strongType);
  }

  /** A look-ahead that is neither L nor R is a neutral. */
  lemma LookAheadNeutral(types: seq<CharType>, n: nat, eos: CharType)
    requires n < |types| && AllNeutralInput(types) && IsDirection(eos)
    requires !IsDirection(NextType(types, n, eos))
    ensures n + 1 < |types| && IsNeutral(types[n + 1])
  {
  }

  /** A neutral followed by a neutral leaves its run pending. */
  lemma PendingState(types: seq<CharType>, sos: CharType, eos: CharType, level: Byte,
                     start: nat, n: nat, current: seq<CharType>, strongType: CharType)
    requires AllNeutralInput(types) && IsDirection(sos) && IsDirection(eos)
    requires start <= n && n + 1 < |types| == |current| && IsNeutral(types[n + 1])
    requires forall j :: start <= j <= n ==> IsNeutral(types[j])
    requires start == 0 || !IsNeutral(types[start - 1])
    requires strongType == DirectionBefore(types, n + 1, sos)
    requires forall k :: 0 <= k < start ==> current[k] == NeutralReference(types, k, sos, eos, level)
    requires forall k :: start <= k < |types| ==> current[k] == types[k]
    ensures NeutralPassState(types, sos, eos, level, n + 1, NeutralPass(current, strongType, Some(start)))
  {
  }

  /** One step keeps the pass state. */
  lemma NeutralStepState(types: seq<CharType>, sos: CharType, eos: CharType, level: Byte, n: nat, st: NeutralPass)
    requires AllNeutralInput(types) && IsDirection(sos) && IsDirection(eos)
    requires n < |types| && NeutralPassState(types, sos, eos, level, n, st)
    ensures NeutralPassState(types, sos, eos, level, n + 1, NeutralStep(st, n, eos, level))
  {
    if !IsNeutral(types[n]) {
      StrongStepState(types, sos, eos, level, n, st);
    } else if IsDirection(NextType(types, n, eos)) {
      ResolveStepState(types, sos, eos, level, n, st);
    } else {
      PendingStepState(types, sos, eos, level, n, st);
    }
  }

  /** The step over position `n - 1` brings the state to `n`. */
  lemma NeutralStepReaches(types: seq<CharType>, sos: CharType, eos: CharType, level: Byte, n: nat, st: NeutralPass)
    requires AllNeutralInput(types) && IsDirection(sos) && IsDirection(eos)
    requires 0 < n <= |types| && NeutralPassState(types, sos, eos, level, n - 1, st)
    ensures NeutralPassState(types, sos, eos, level, n, NeutralStep(st, n - 1, eos, level))
  {
    var m := n - 1;
    NeutralStepState(types, sos, eos, level, m, st);
    assert m + 1 == n;
  }

  /** The pass after the first `n` positions. */
  function NeutralPassUpTo(types: seq<CharType>, sos: CharType, eos: CharType, level: Byte, n: nat): (r: NeutralPass)
    requires AllNeutralInput(types) && IsDirection(sos) && IsDirection(eos)
    requires n <= |types|
    ensures NeutralPassState(types, sos, eos, level, n, r)
  {
    if n == 0 then
      assert NeutralPassState(types, sos, eos, level, 0, NeutralPass(types, sos, None)) by {}
      NeutralPass(types, sos, None)
    else
      var st := NeutralPassUpTo(types, sos, eos, level, n - 1);
      var r := NeutralStep(st, n - 1, eos, level);
      assert NeutralPassState(types, sos, eos, level, n, r) by {
        NeutralStepReaches(types, sos, eos, level, n, st);
      }
      r
  }

  /** Rules N1 and N2 over the ring: every position ends with its reference
      type, so only neutrals change, each to a strong direction, and the
      result holds only L, R, EN and AN. */
  function ResolveNeutrals(types: seq<CharType>, sos: CharType, eos: CharType, level: Byte): (r: seq<CharType>)
    requires AllNeutralInput(types) && IsDirection(sos) && IsDirection(eos)
    ensures |r| == |types|
    ensures forall k :: 0 <= k < |types| ==> r[k] == NeutralReference(types, k, sos, eos, level)
  {
    NeutralPassUpTo(types, sos, eos, level, |types|).types
  }

  /** After N1 and N2 nothing neutral is left: every type is a strong
      direction or a number. */
  lemma ResolveNeutralsLeavesNoNeutral(types: seq<CharType>, sos: CharType, eos: CharType, level: Byte)
    requires AllNeutralInput(types) && IsDirection(sos) && IsDirection(eos)
    ensures forall k :: 0 <= k < |types| ==>
              var t := ResolveNeutrals(types, sos, eos, level)[k];
              t == L || t == R || t == EN || t == AN
  {
  }

  /** N1: a run of neutrals between two links of the same direction (numbers
      counting as R) takes that direction. */
  lemma NeutralsBetweenSameDirection(types: seq<CharType>, sos: CharType, eos: CharType, level: Byte, a: nat, b: nat)
    requires AllNeutralInput(types) && IsDirection(sos) && IsDirection(eos)
    requires 0 < a <= b < |types|
    requires !IsNeutral(types[a - 1]) && !IsNeutral(types[b])
    requires forall j :: a <= j < b ==> IsNeutral(types[j])
    requires Side(types[a - 1]) == Side(types[b])
    ensures forall k :: a <= k < b ==> ResolveNeutrals(types, sos, eos, level)[k] == Side(types[b])
  {
    forall k | a <= k < b
      ensures NeutralReference(types, k, sos, eos, level) == Side(types[b])
    {
      RunStartIs(types, a, k);
      DirectionAfterSkipsNeutrals(types, k, b - 1, eos);
    }
  }
}
