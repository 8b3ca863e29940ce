/** A line of a resolved paragraph: rule L1 of UAX #9 (section 3.4) resets
    the levels of separators and trailing whitespace, the levels are cut
    into runs of equal level, and rule L2 reorders the runs for display.

    The paragraph's types and levels are parameters; the line is the stretch
    `offset .. offset + |levels|` of the paragraph, with `levels` its own
    copy of the levels. */
module Line {
  import opened BidiTypes

  // ---------------------------------------------------------------------
  // L1: resetting levels.
  // ---------------------------------------------------------------------

  /** How L1 treats a type: segment and paragraph separators are reset;
      whitespace and isolate controls are reset when they trail a line or a
      separator; characters removed by X9 follow whatever precedes them;
      everything else stops trailing whitespace. */
  datatype ResetClass = Separator | Space | Ignorable | Other

  function ClassOf(t: CharType): ResetClass {
    match t
    case B => Separator
    case S => Separator
    case WS => Space
    case LRI => Space
    case RLI => Space
    case FSI => Space
    case PDI => Space
    case LRE => Ignorable
    case RLE => Ignorable
    case LRO => Ignorable
    case RLO => Ignorable
    case PDF => Ignorable
    case BN => Ignorable
    case _ => Other
  }

  /** From position `i` on, only whitespace, isolate controls and removed
      characters come before the end of the line or the next separator. */
  predicate TrailingFrom(types: seq<CharType>, i: nat)
    requires i <= |types|
    decreases |types| - i
  {
    if i == |types| then true
    else match ClassOf(types[i])
      case Separator => true
      case Other => false
      case _ => TrailingFrom(types, i + 1)
  }

  /** Whether L1 resets position `j`: a separator always; whitespace or an
      isolate control when it trails; a removed character when the
      character before it is reset. */
  predicate IsReset(types: seq<CharType>, j: nat)
    requires j < |types|
  {
    match ClassOf(types[j])
    case Separator => true
    case Space => TrailingFrom(types, j + 1)
    case Ignorable => j > 0 && IsReset(types, j - 1)
    case Other => false
  }

  /** The levels L1 leaves: `baseLevel` where the line is reset, the
      resolved level elsewhere. */
  function ResetReference(types: seq<CharType>, levels: seq<Byte>, baseLevel: Byte): (r: seq<Byte>)
    requires |types| == |levels|
    ensures |r| == |levels|
  {
    seq(|levels|, j requires 0 <= j < |levels| => if IsReset(types, j) then baseLevel else levels[j])
  }

  /** The number of removed characters starting at position `i`. */
  function IgnorableRun(types: seq<CharType>, i: nat): (n: nat)
    requires i <= |types|
    ensures i + n <= |types|
    ensures forall j :: i <= j < i + n ==> ClassOf(types[j]) == Ignorable
    ensures i + n < |types| ==> ClassOf(types[i + n]) != Ignorable
    decreases |types| - i
  {
    if i < |types| && ClassOf(types[i]) == Ignorable then 1 + IgnorableRun(types, i + 1) else 0
  }

  /** SetNewLevel: positions `index .. index + count - 1` take `newLevel`. */
  function SetNewLevel(levels: seq<Byte>, index: nat, count: nat, newLevel: Byte): (r: seq<Byte>)
    requires index + count <= |levels|
    ensures |r| == |levels|
    ensures forall j :: 0 <= j < |levels| ==> r[j] == if index <= j < index + count then newLevel else levels[j]
  {
    seq(|levels|, j requires 0 <= j < |levels| => if index <= j < index + count then newLevel else levels[j])
  }

  /** What the backward scan of ResetLevels carries: the levels so far,
      whether the characters seen trail, and how many removed characters
      wait to be reset with the character before them. */
  datatype ResetState = ResetState(levels: seq<Byte>, reset: bool, resetLength: nat)

  /** One step of the backward scan at position `index`. `zeroSkippedSpace`
      chooses what whitespace that does not trail does to the pending
      count: the source keeps it (as written), the corrected scan drops it. */
  function ResetStep(types: seq<CharType>, st: ResetState, index: nat, baseLevel: Byte, zeroSkippedSpace: bool): (r: ResetState)
    requires index < |types| == |st.levels| && index + st.resetLength < |types|
    ensures |r.levels| == |st.levels|
    ensures forall j :: 0 <= j < |st.levels| ==> r.levels[j] == st.levels[j] || r.levels[j] == baseLevel
    ensures forall j :: 0 <= j < |st.levels| && (j < index || j > index + st.resetLength) ==> r.levels[j] == st.levels[j]
    ensures ClassOf(types[index]) == Separator ==> r.levels[index] == baseLevel && r.reset && r.resetLength == 0
    ensures ClassOf(types[index]) == Other ==> r == st.(reset := false, resetLength := 0)
    ensures ClassOf(types[index]) == Ignorable ==> r == st.(resetLength := st.resetLength + 1)
  {
    match ClassOf(types[index])
    case Separator =>
      ResetState(SetNewLevel(st.levels, index, st.resetLength + 1, baseLevel), true, 0)
    case Ignorable =>
      st.(resetLength := st.resetLength + 1)
    case Space =>
      if st.reset then ResetState(SetNewLevel(st.levels, index, st.resetLength + 1, baseLevel), true, 0)
      else if zeroSkippedSpace then st.(resetLength := 0)
      else st
    case Other =>
      st.(resetLength := 0, reset := false)
  }

  /** The scan after visiting the last `m` positions of the line. */
  function ResetUpTo(types: seq<CharType>, levels: seq<Byte>, baseLevel: Byte, m: nat, zeroSkippedSpace: bool)
    : (st: ResetState)
    requires |types| == |levels| && m <= |levels|
    ensures |st.levels| == |levels| && st.resetLength <= m
    ensures forall k :: |levels| - m <= k < |levels| - m + st.resetLength ==> ClassOf(types[k]) != Other
    ensures forall j :: 0 <= j < |levels| ==> st.levels[j] == levels[j] || st.levels[j] == baseLevel
    ensures forall j :: 0 <= j < |levels| && (j < |levels| - m || ClassOf(types[j]) == Other) ==> st.levels[j] == levels[j]
    ensures forall j :: |levels| - m <= j < |levels| && ClassOf(types[j]) == Separator ==> st.levels[j] == baseLevel
  {
    if m == 0 then ResetState(levels, true, 0)
    else ResetStep(types, ResetUpTo(types, levels, baseLevel, m - 1, zeroSkippedSpace), |levels| - m, baseLevel, zeroSkippedSpace)
  }

  /** ResetLevels as the source writes it: every level is kept or set to
      the paragraph level; separators always take the paragraph level; a
      character that is not a separator, whitespace, an isolate control or
      removed by X9 keeps its level. */
  function ResetLevelsAsWritten(types: seq<CharType>, levels: seq<Byte>, baseLevel: Byte): (r: seq<Byte>)
    requires |types| == |levels|
    ensures |r| == |levels|
    ensures forall j :: 0 <= j < |levels| ==> r[j] == levels[j] || r[j] == baseLevel
    ensures forall j :: 0 <= j < |levels| && ClassOf(types[j]) == Separator ==> r[j] == baseLevel
    ensures forall j :: 0 <= j < |levels| && ClassOf(types[j]) == Other ==> r[j] == levels[j]
  {
    ResetUpTo(types, levels, baseLevel, |levels|, false).levels
  }

  /** ResetLevels with whitespace that does not trail dropping the pending
      removed characters; the same bounds hold as for the scan as
      written, and `ResetLevelsIsReference` shows it computes L1. */
  function ResetLevels(types: seq<CharType>, levels: seq<Byte>, baseLevel: Byte): (r: seq<Byte>)
    requires |types| == |levels|
    ensures |r| == |levels|
    ensures forall j :: 0 <= j < |levels| ==> r[j] == levels[j] || r[j] == baseLevel
    ensures forall j :: 0 <= j < |levels| && ClassOf(types[j]) == Separator ==> r[j] == baseLevel
    ensures forall j :: 0 <= j < |levels| && ClassOf(types[j]) == Other ==> r[j] == levels[j]
  {
    ResetUpTo(types, levels, baseLevel, |levels|, true).levels
  }

  /** The line `B WS BN L`: the whitespace follows the separator and does
      not trail, yet the scan as written resets it, because the BN seen
      after the L is still pending when the separator is reached. */
  lemma ResetLevelsAsWrittenResetsInnerSpace()
    ensures !IsReset([B, WS, BN, L], 1)
    ensures ResetLevelsAsWritten([B, WS, BN, L], [1, 1, 1, 1], 0)[1] == 0
    ensures ResetLevels([B, WS, BN, L], [1, 1, 1, 1], 0)[1] == 1
  {
    var types: seq<CharType> := [B, WS, BN, L];
    var levels: seq<Byte> := [1, 1, 1, 1];
    assert !TrailingFrom(types, 3);
    assert !TrailingFrom(types, 2);
    var written := ResetUpTo(types, levels, 0, 3, false);
    assert written == ResetState(levels, false, 1);
    assert ResetLevelsAsWritten(types, levels, 0) == SetNewLevel(levels, 0, 2, 0);
    var corrected := ResetUpTo(types, levels, 0, 3, true);
    assert corrected == ResetState(levels, false, 0);
    assert ResetLevels(types, levels, 0) == SetNewLevel(levels, 0, 1, 0);
  }

  /** Without removed characters the pending count stays zero, so the scan
      as written and the corrected scan agree. */
  lemma {:induction false} ResetUpToWithoutIgnorables(types: seq<CharType>, levels: seq<Byte>, baseLevel: Byte, m: nat)
    requires |types| == |levels| && m <= |levels|
    requires forall j :: 0 <= j < |types| ==> ClassOf(types[j]) != Ignorable
    ensures ResetUpTo(types, levels, baseLevel, m, false) == ResetUpTo(types, levels, baseLevel, m, true)
    ensures ResetUpTo(types, levels, baseLevel, m, true).resetLength == 0
  {
    if m > 0 {
      ResetUpToWithoutIgnorables(types, levels, baseLevel, m - 1);
    }
  }

  /** On a line without removed characters, the scan as written computes
      L1. */
  lemma ResetLevelsAsWrittenWithoutIgnorables(types: seq<CharType>, levels: seq<Byte>, baseLevel: Byte)
    requires |types| == |levels|
    requires forall j :: 0 <= j < |types| ==> ClassOf(types[j]) != Ignorable
    ensures ResetLevelsAsWritten(types, levels, baseLevel) == ResetReference(types, levels, baseLevel)
  {
    ResetUpToWithoutIgnorables(types, levels, baseLevel, |levels|);
    ResetLevelsIsReference(types, levels, baseLevel);
  }

  /** Removed characters following position `i` share its reset. */
  lemma {:induction false} IgnorableFollowsReset(types: seq<CharType>, i: nat, j: nat)
    requires i < j < |types|
    requires forall k :: i < k <= j ==> ClassOf(types[k]) == Ignorable
    ensures IsReset(types, j) == IsReset(types, i)
    decreases j - i
  {
    if j > i + 1 {
      IgnorableFollowsReset(types, i, j - 1);
    }
  }

  /** Removed characters at the start of the line are never reset. */
  lemma {:induction false} LeadingIgnorableNotReset(types: seq<CharType>, j: nat)
    requires j < |types|
    requires forall k :: 0 <= k <= j ==> ClassOf(types[k]) == Ignorable
    ensures !IsReset(types, j)
  {
    if j > 0 {
      LeadingIgnorableNotReset(types, j - 1);
    }
  }

  /** The invariant of the corrected scan once positions `i ..` are seen:
      the pending count is the run of removed characters at `i`, the flag
      says whether `i ..` trails, the pending and unseen positions are
      untouched, and every position after the pending ones holds its final
      level. */
  predicate ResetInvariant(types: seq<CharType>, levels: seq<Byte>, baseLevel: Byte, i: nat, st: ResetState)
    requires |types| == |levels| && i <= |levels|
  {
    && |st.levels| == |levels|
    && st.resetLength == IgnorableRun(types, i)
    && st.reset == TrailingFrom(types, i)
    && (forall j :: 0 <= j < i + st.resetLength ==> st.levels[j] == levels[j])
    && (forall j :: i + st.resetLength <= j < |levels| ==>
          st.levels[j] == if IsReset(types, j) then baseLevel else levels[j])
  }

  /** A reset at `index` that covers its pending removed characters. */
  lemma ResetCoversPending(types: seq<CharType>, levels: seq<Byte>, baseLevel: Byte, index: nat, st: ResetState)
    requires |types| == |levels| && index < |levels|
    requires ResetInvariant(types, levels, baseLevel, index + 1, st)
    requires IsReset(types, index) && ClassOf(types[index]) != Ignorable
    ensures ResetInvariant(types, levels, baseLevel, index,
                           ResetState(SetNewLevel(st.levels, index, st.resetLength + 1, baseLevel), true, 0))
  {
    var r := SetNewLevel(st.levels, index, st.resetLength + 1, baseLevel);
    assert TrailingFrom(types, index) by {
      assert ClassOf(types[index]) == Separator || TrailingFrom(types, index + 1);
    }
    assert IgnorableRun(types, index) == 0;
    assert forall j :: 0 <= j < index ==> r[j] == levels[j];
    CoveredLevelsAreFinal(types, levels, baseLevel, index, st);
  }

  /** After the reset at `index`, every position from `index` on holds its
      final level. */
  lemma CoveredLevelsAreFinal(types: seq<CharType>, levels: seq<Byte>, baseLevel: Byte, index: nat, st: ResetState)
    requires |types| == |levels| && index < |levels|
    requires ResetInvariant(types, levels, baseLevel, index + 1, st)
    requires IsReset(types, index) && ClassOf(types[index]) != Ignorable
    ensures forall j :: index <= j < |levels| ==>
              SetNewLevel(st.levels, index, st.resetLength + 1, baseLevel)[j]
                == if IsReset(types, j) then baseLevel else levels[j]
  {
    var n := st.resetLength;
    var r := SetNewLevel(st.levels, index, n + 1, baseLevel);
    forall j | index <= j < |levels|
      ensures r[j] == if IsReset(types, j) then baseLevel else levels[j]
    {
      if j <= index + n {
        if j > index {
          IgnorableFollowsReset(types, index, j);
        }
        assert r[j] == baseLevel;
      } else {
        assert r[j] == st.levels[j];
      }
    }
  }

  /** A position that is not reset leaves its pending removed characters
      with their levels. */
  lemma SkipDropsPending(types: seq<CharType>, levels: seq<Byte>, baseLevel: Byte, index: nat, st: ResetState, reset: bool)
    requires |types| == |levels| && index < |levels|
    requires ResetInvariant(types, levels, baseLevel, index + 1, st)
    requires !IsReset(types, index) && ClassOf(types[index]) != Ignorable
    requires reset == TrailingFrom(types, index)
    ensures ResetInvariant(types, levels, baseLevel, index, st.(resetLength := 0, reset := reset))
  {
    var n := st.resetLength;
    forall j | index < j <= index + n ensures !IsReset(types, j) {
      IgnorableFollowsReset(types, index, j);
    }
  }

  /** One step of the corrected scan keeps the invariant. */
  lemma ResetStepKeepsInvariant(types: seq<CharType>, levels: seq<Byte>, baseLevel: Byte, index: nat, st: ResetState)
    requires |types| == |levels| && index < |levels|
    requires ResetInvariant(types, levels, baseLevel, index + 1, st)
    ensures index + st.resetLength < |types|
    ensures ResetInvariant(types, levels, baseLevel, index, ResetStep(types, st, index, baseLevel, true))
  {
    match ClassOf(types[index])
    case Separator =>
      ResetCoversPending(types, levels, baseLevel, index, st);
    case Ignorable =>
    case Space =>
      if st.reset {
        ResetCoversPending(types, levels, baseLevel, index, st);
      } else {
        SkipDropsPending(types, levels, baseLevel, index, st, st.reset);
      }
    case Other =>
      SkipDropsPending(types, levels, baseLevel, index, st, false);
  }

  lemma {:induction false} ResetUpToInvariant(types: seq<CharType>, levels: seq<Byte>, baseLevel: Byte, m: nat)
    requires |types| == |levels| && m <= |levels|
    ensures ResetInvariant(types, levels, baseLevel, |levels| - m, ResetUpTo(types, levels, baseLevel, m, true))
  {
    if m > 0 {
      ResetUpToInvariant(types, levels, baseLevel, m - 1);
      ResetStepKeepsInvariant(types, levels, baseLevel, |levels| - m, ResetUpTo(types, levels, baseLevel, m - 1, true));
    }
  }

  /** The corrected scan computes L1: separators, trailing whitespace and
      isolate controls, and the removed characters that follow them, take
      the paragraph level; every other position keeps its level. */
  lemma ResetLevelsIsReference(types: seq<CharType>, levels: seq<Byte>, baseLevel: Byte)
    requires |types| == |levels|
    ensures ResetLevels(types, levels, baseLevel) == ResetReference(types, levels, baseLevel)
  {
    ResetUpToInvariant(types, levels, baseLevel, |levels|);
    var st := ResetUpTo(types, levels, baseLevel, |levels|, true);
    forall j | 0 <= j < st.resetLength ensures !IsReset(types, j) {
      LeadingIgnorableNotReset(types, j);
    }
  }

  /** L1 never touches a strong, weak or neutral character other than
      whitespace and isolate controls. */
  lemma ResetKeepsInnerLevels(types: seq<CharType>, levels: seq<Byte>, baseLevel: Byte, j: nat)
    requires |types| == |levels| && j < |levels|
    requires ClassOf(types[j]) == Other
    ensures ResetLevels(types, levels, baseLevel)[j] == levels[j]
  {
    ResetLevelsIsReference(types, levels, baseLevel);
  }

  // ---------------------------------------------------------------------
  // Runs of equal level.
  // ---------------------------------------------------------------------

  /** A run of the line: its first position, its length and its level. */
  datatype Run = Run(offset: int, length: int, level: Byte)

  /** The runs tile positions `0 .. n - 1` in order, each non-empty. */
  predicate Tiles(runs: seq<Run>, n: int) {
    && |runs| > 0
    && runs[0].offset == 0
    && (forall k :: 0 <= k < |runs| ==> runs[k].length > 0)
    && (forall k :: 0 < k < |runs| ==> runs[k].offset == runs[k - 1].offset + runs[k - 1].length)
    && runs[|runs| - 1].offset + runs[|runs| - 1].length == n
  }

  /** Every position of a run has the run's level. */
  predicate Covers(runs: seq<Run>, levels: seq<Byte>) {
    forall k, j :: 0 <= k < |runs| && runs[k].offset <= j < runs[k].offset + runs[k].length && 0 <= j < |levels| ==>
      levels[j] == runs[k].level
  }

  /** Adjacent runs have different levels, so the runs are maximal. */
  predicate Maximal(runs: seq<Run>) {
    forall k :: 0 < k < |runs| ==> runs[k - 1].level != runs[k].level
  }

  /** DetermineRuns: cuts the levels into maximal runs of equal level and
      returns the highest level (0 when every level is 0). A line is never
      empty. */
  method DetermineRuns(levels: seq<Byte>) returns (runs: seq<Run>, maxLevel: Byte)
    requires |levels| > 0
    ensures Tiles(runs, |levels|) && Covers(runs, levels) && Maximal(runs)
    ensures forall j :: 0 <= j < |levels| ==> levels[j] <= maxLevel
    ensures exists j :: 0 <= j < |levels| && levels[j] == maxLevel
  {
    runs := [];
    var priorOffset := 0;
    var priorLevel := levels[0];
    maxLevel := 0;
    var maxAt := 0;
    var index := 0;
    while index < |levels|
      invariant 0 <= priorOffset <= index <= |levels|
      invariant index > 0 ==> priorOffset < index
      invariant priorLevel == levels[priorOffset]
      invariant forall j :: priorOffset <= j < index ==> levels[j] == priorLevel
      invariant |runs| == 0 ==> priorOffset == 0
      invariant |runs| > 0 ==> Tiles(runs, priorOffset) && runs[|runs| - 1].level != priorLevel
      invariant Covers(runs, levels) && Maximal(runs)
      invariant forall j :: 0 <= j < index ==> levels[j] <= maxLevel
      invariant 0 <= maxAt < |levels| && (index == 0 ==> maxLevel == 0) && (index > 0 ==> levels[maxAt] == maxLevel)
    {
      var level := levels[index];
      if level > maxLevel {
        maxLevel := level;
        maxAt := index;
      } else if index == 0 {
        maxAt := 0;
      }
      if level != priorLevel {
        ExtendRuns(runs, Run(priorOffset, index - priorOffset, priorLevel), levels, index);
        runs := runs + [Run(priorOffset, index - priorOffset, priorLevel)];
        priorOffset := index;
        priorLevel := level;
      }
      index := index + 1;
    }
    ExtendRuns(runs, Run(priorOffset, |levels| - priorOffset, priorLevel), levels, |levels|);
    runs := runs + [Run(priorOffset, |levels| - priorOffset, priorLevel)];
  }

  /** A run of one level appended right after a tiling, at another level
      than the last run, extends the tiling. */
  lemma ExtendRuns(runs: seq<Run>, x: Run, levels: seq<Byte>, n: int)
    requires |runs| == 0 ==> x.offset == 0
    requires |runs| > 0 ==> Tiles(runs, x.offset) && runs[|runs| - 1].level != x.level
    requires x.length > 0 && x.offset + x.length == n
    requires Covers(runs, levels) && Maximal(runs)
    requires forall j :: x.offset <= j < n && 0 <= j < |levels| ==> levels[j] == x.level
    ensures Tiles(runs + [x], n) && Covers(runs + [x], levels) && Maximal(runs + [x])
  {
    var t := runs + [x];
    assert forall k :: 0 <= k < |runs| ==> t[k] == runs[k];
  }

  // ---------------------------------------------------------------------
  // L2: reordering runs.
  // ---------------------------------------------------------------------

  /** The runs `index .. index + count - 1` in reverse order, the rest in
      place. */
  function ReverseRange(runs: seq<Run>, index: nat, count: nat): (r: seq<Run>)
    requires index + count <= |runs|
    ensures |r| == |runs|
  {
    seq(|runs|, j requires 0 <= j < |runs| =>
          if index <= j < index + count then runs[index + count - 1 - (j - index)] else runs[j])
  }

  /** ReverseRuns: swaps the ends of the range inwards. */
  method ReverseRuns(runs: seq<Run>, index: nat, count: nat) returns (r: seq<Run>)
    requires index + count <= |runs|
    ensures r == ReverseRange(runs, index, count)
  {
    r := runs;
    var halfCount := count / 2;
    var finalIndex := index + count - 1;
    var i := 0;
    while i < halfCount
      invariant 0 <= i <= halfCount
      invariant r == SwappedEnds(runs, index, count, i)
    {
      var newIndex := index + i;
      var tieIndex := finalIndex - i;
      SwapEndsStep(runs, index, count, i);
      var tempRun := r[newIndex];
      r := r[newIndex := r[tieIndex]][tieIndex := tempRun];
      i := i + 1;
    }
    SwappedEndsComplete(runs, index, count);
  }

  /** The range `index .. index + count - 1` after its outer `i` pairs of
      runs have been exchanged. */
  function SwappedEnds(runs: seq<Run>, index: nat, count: nat, i: nat): (r: seq<Run>)
    requires index + count <= |runs| && i <= count / 2
    ensures |r| == |runs|
  {
    seq(|runs|, j requires 0 <= j < |runs| =>
          if index <= j < index + i || index + count - i <= j < index + count
          then runs[index + count - 1 - (j - index)]
          else runs[j])
  }

  /** Exchanging the next pair extends the exchanged ends by one. */
  lemma SwapEndsStep(runs: seq<Run>, index: nat, count: nat, i: nat)
    requires index + count <= |runs| && i < count / 2
    ensures var s := SwappedEnds(runs, index, count, i);
            var lo, hi := index + i, index + count - 1 - i;
            s[lo := s[hi]][hi := s[lo]] == SwappedEnds(runs, index, count, i + 1)
  {
  }

  /** Once every pair is exchanged, the range is reversed. */
  lemma SwappedEndsComplete(runs: seq<Run>, index: nat, count: nat)
    requires index + count <= |runs|
    ensures SwappedEnds(runs, index, count, count / 2) == ReverseRange(runs, index, count)
  {
  }

  /** Reversing a range twice restores it. */
  lemma ReverseRangeInvolution(runs: seq<Run>, index: nat, count: nat)
    requires index + count <= |runs|
    ensures ReverseRange(ReverseRange(runs, index, count), index, count) == runs
  {
  }

  /** Reversing a range moves runs without losing or duplicating any. */
  lemma {:induction false} ReverseRangeIsPermutation(runs: seq<Run>, index: nat, count: nat)
    requires index + count <= |runs|
    ensures multiset(ReverseRange(runs, index, count)) == multiset(runs)
    decreases count
  {
    if count >= 2 {
      var inner := ReverseRange(runs, index + 1, count - 2);
      ReverseRangeIsPermutation(runs, index + 1, count - 2);
      var swapped := inner[index := inner[index + count - 1]][index + count - 1 := inner[index]];
      assert swapped == ReverseRange(runs, index, count);
      SwapIsPermutation(inner, index, index + count - 1);
    } else {
      assert ReverseRange(runs, index, count) == runs;
    }
  }

  /** Exchanging two runs keeps the multiset of runs. */
  lemma SwapIsPermutation(s: seq<Run>, i: nat, j: nat)
    requires i < j < |s|
    ensures multiset(s[i := s[j]][j := s[i]]) == multiset(s)
  {
    var t := s[i := s[j]];
    assert multiset(t) == multiset(s) - multiset{s[i]} + multiset{s[j]};
    assert multiset(t[j := s[i]]) == multiset(t) - multiset{t[j]} + multiset{s[i]};
  }

  /** Where the maximal stretch of runs at `newLevel` or higher that ends
      at position `index` starts. */
  function SegmentStart(runs: seq<Run>, newLevel: int, index: nat): (lo: nat)
    requires index < |runs| && runs[index].level >= newLevel
    ensures lo <= index
    ensures forall j :: lo <= j <= index ==> runs[j].level >= newLevel
    ensures lo == 0 || runs[lo - 1].level < newLevel
  {
    if index > 0 && runs[index - 1].level >= newLevel then SegmentStart(runs, newLevel, index - 1) else index
  }

  /** The pass of L2 at `newLevel` over positions `0 .. hi - 1`, from the
      end: every maximal stretch of runs at `newLevel` or higher is
      reversed. */
  function ReorderAtLevel(runs: seq<Run>, newLevel: int, hi: nat): (r: seq<Run>)
    requires hi <= |runs|
    ensures |r| == |runs|
    ensures forall j :: hi <= j < |runs| ==> r[j] == runs[j]
    decreases hi
  {
    if hi == 0 then runs
    else if runs[hi - 1].level < newLevel then ReorderAtLevel(runs, newLevel, hi - 1)
    else
      var lo := SegmentStart(runs, newLevel, hi - 1);
      ReorderAtLevel(ReverseRange(runs, lo, hi - lo), newLevel, lo)
  }

  /** The passes of L2 from `maxLevel` down to level 1, as ReorderRuns
      loops over them. */
  function ReorderPasses(runs: seq<Run>, maxLevel: int): (r: seq<Run>)
    ensures |r| == |runs|
    decreases maxLevel
  {
    if maxLevel <= 0 then runs else ReorderPasses(ReorderAtLevel(runs, maxLevel, |runs|), maxLevel - 1)
  }

  /** The pass at one level only moves runs around. */
  lemma {:induction false} ReorderAtLevelIsPermutation(runs: seq<Run>, newLevel: int, hi: nat)
    requires hi <= |runs|
    ensures multiset(ReorderAtLevel(runs, newLevel, hi)) == multiset(runs)
    decreases hi
  {
    if hi > 0 {
      if runs[hi - 1].level < newLevel {
        ReorderAtLevelIsPermutation(runs, newLevel, hi - 1);
      } else {
        var lo := SegmentStart(runs, newLevel, hi - 1);
        ReverseRangeIsPermutation(runs, lo, hi - lo);
        ReorderAtLevelIsPermutation(ReverseRange(runs, lo, hi - lo), newLevel, lo);
      }
    }
  }

  /** A pass at a level above every run changes nothing. */
  lemma {:induction false} ReorderAtLevelAboveAll(runs: seq<Run>, newLevel: int, hi: nat)
    requires hi <= |runs|
    requires forall j :: 0 <= j < hi ==> runs[j].level < newLevel
    ensures ReorderAtLevel(runs, newLevel, hi) == runs
    decreases hi
  {
    if hi > 0 {
      ReorderAtLevelAboveAll(runs, newLevel, hi - 1);
    }
  }

  /** A pass at a level no run is below reverses the whole line. */
  lemma ReorderAtLevelBelowAll(runs: seq<Run>, newLevel: int)
    requires |runs| > 0
    requires forall j :: 0 <= j < |runs| ==> runs[j].level >= newLevel
    ensures ReorderAtLevel(runs, newLevel, |runs|) == ReverseRange(runs, 0, |runs|)
  {
    SegmentStartIsZero(runs, newLevel, |runs| - 1);
  }

  lemma {:induction false} SegmentStartIsZero(runs: seq<Run>, newLevel: int, index: nat)
    requires index < |runs|
    requires forall j :: 0 <= j <= index ==> runs[j].level >= newLevel
    ensures SegmentStart(runs, newLevel, index) == 0
  {
    if index > 0 {
      SegmentStartIsZero(runs, newLevel, index - 1);
    }
  }

  /** A line whose runs all have one level `level` is shown reversed
      exactly when that level is odd (right-to-left). */
  lemma ReorderUniformLine(runs: seq<Run>, level: Byte, maxLevel: int)
    requires |runs| > 0
    requires forall j :: 0 <= j < |runs| ==> runs[j].level == level
    requires maxLevel <= level
    ensures ReorderPasses(runs, maxLevel) == if maxLevel > 0 && maxLevel % 2 == 1 then ReverseRange(runs, 0, |runs|) else runs
  {
    if maxLevel > 0 {
      var half := maxLevel / 2;
      if maxLevel % 2 == 0 {
        assert maxLevel == 2 * half;
        ReorderUniformEven(runs, level, half);
      } else {
        assert maxLevel == 2 * half + 1;
        ReorderUniformOdd(runs, level, half);
      }
    }
  }

  /** An even number of passes over a uniform line leaves it as it is. */
  lemma {:induction false} ReorderUniformEven(runs: seq<Run>, level: Byte, half: nat)
    requires |runs| > 0
    requires forall j :: 0 <= j < |runs| ==> runs[j].level == level
    requires 2 * half <= level
    ensures ReorderPasses(runs, 2 * half) == runs
  {
    if half > 0 {
      ReorderUniformTwoSteps(runs, level, 2 * half);
      ReorderUniformEven(runs, level, half - 1);
    }
  }

  /** An odd number of passes over a uniform line reverses it. */
  lemma ReorderUniformOdd(runs: seq<Run>, level: Byte, half: nat)
    requires |runs| > 0
    requires forall j :: 0 <= j < |runs| ==> runs[j].level == level
    requires 2 * half + 1 <= level
    ensures ReorderPasses(runs, 2 * half + 1) == ReverseRange(runs, 0, |runs|)
  {
    ReorderUniformStep(runs, level, 2 * half + 1);
    ReverseRangeUniform(runs, level);
    ReorderUniformEven(ReverseRange(runs, 0, |runs|), level, half);
  }

  /** Two passes over a uniform line reverse it twice and so restore it. */
  lemma ReorderUniformTwoSteps(runs: seq<Run>, level: Byte, maxLevel: int)
    requires |runs| > 0
    requires forall j :: 0 <= j < |runs| ==> runs[j].level == level
    requires 2 <= maxLevel <= level
    ensures ReorderPasses(runs, maxLevel) == ReorderPasses(runs, maxLevel - 2)
  {
    var once := ReverseRange(runs, 0, |runs|);
    ReorderUniformStep(runs, level, maxLevel);
    ReverseRangeUniform(runs, level);
    ReorderUniformStep(once, level, maxLevel - 1);
    ReverseRangeInvolution(runs, 0, |runs|);
    assert ReverseRange(once, 0, |once|) == runs;
  }

  /** The top pass over a uniform line reverses it whole. */
  lemma ReorderUniformStep(runs: seq<Run>, level: Byte, maxLevel: int)
    requires |runs| > 0
    requires forall j :: 0 <= j < |runs| ==> runs[j].level == level
    requires 0 < maxLevel <= level
    ensures ReorderPasses(runs, maxLevel) == ReorderPasses(ReverseRange(runs, 0, |runs|), maxLevel - 1)
  {
    ReorderAtLevelBelowAll(runs, maxLevel);
  }

  lemma ReverseRangeUniform(runs: seq<Run>, level: Byte)
    requires forall j :: 0 <= j < |runs| ==> runs[j].level == level
    ensures forall j :: 0 <= j < |runs| ==> ReverseRange(runs, 0, |runs|)[j].level == level
  {
  }

  /** Passes above the highest level of the line change nothing: starting
      L2 higher than the line's maximum gives the same order. */
  lemma {:induction false} ReorderPassesAboveMax(runs: seq<Run>, maxLevel: int, start: int)
    requires forall j :: 0 <= j < |runs| ==> runs[j].level <= maxLevel
    requires maxLevel <= start
    ensures ReorderPasses(runs, start) == ReorderPasses(runs, maxLevel)
    decreases start - maxLevel
  {
    if start > maxLevel && start > 0 {
      ReorderAtLevelAboveAll(runs, start, |runs|);
      ReorderPassesAboveMax(runs, maxLevel, start - 1);
    }
  }

  // ---------------------------------------------------------------------
  // L2 stated block by block.
  // ---------------------------------------------------------------------

  /** Where the maximal stretch of runs at `newLevel` or higher that holds
      position `index` ends: the first position after it. */
  function SegmentEnd(runs: seq<Run>, newLevel: int, index: nat): (hi: nat)
    requires index < |runs| && runs[index].level >= newLevel
    ensures index < hi <= |runs|
    ensures forall j :: index <= j < hi ==> runs[j].level >= newLevel
    ensures hi == |runs| || runs[hi].level < newLevel
    decreases |runs| - index
  {
    if index + 1 < |runs| && runs[index + 1].level >= newLevel then SegmentEnd(runs, newLevel, index + 1) else index + 1
  }

  /** Where a run at `newLevel` or higher lands when its maximal block is
      reversed; any other run stays. */
  function Mirror(runs: seq<Run>, newLevel: int, j: nat): (m: nat)
    requires j < |runs|
    ensures m < |runs|
  {
    if runs[j].level >= newLevel then SegmentStart(runs, newLevel, j) + SegmentEnd(runs, newLevel, j) - 1 - j else j
  }

  /** One level of L2 as UAX #9 states it: every maximal block of runs at
      `newLevel` or higher is reversed, every other run stays in place. */
  function ReverseBlocks(runs: seq<Run>, newLevel: int): (r: seq<Run>)
    ensures |r| == |runs|
  {
    seq(|runs|, j requires 0 <= j < |runs| => runs[Mirror(runs, newLevel, j)])
  }

  /** The block reversals from `maxLevel` down to level 1, the levels the
      source iterates over. UAX #9 stops at the lowest odd level of the
      line instead; `BlockReversalsStopAtLowestOdd` proves the two agree. */
  function BlockReversals(runs: seq<Run>, maxLevel: int): (r: seq<Run>)
    ensures |r| == |runs|
    decreases maxLevel
  {
    if maxLevel <= 0 then runs else BlockReversals(ReverseBlocks(runs, maxLevel), maxLevel - 1)
  }

  /** The start of a block is the only position before which the block
      cannot be extended. */
  lemma {:induction false} SegmentStartUnique(runs: seq<Run>, newLevel: int, index: nat, lo: nat)
    requires index < |runs| && runs[index].level >= newLevel
    requires lo <= index && (forall j :: lo <= j <= index ==> runs[j].level >= newLevel)
    requires lo == 0 || runs[lo - 1].level < newLevel
    ensures SegmentStart(runs, newLevel, index) == lo
    decreases index
  {
    if index > lo {
      SegmentStartUnique(runs, newLevel, index - 1, lo);
    }
  }

  /** The end of a block is the only position at which the block cannot be
      extended. */
  lemma {:induction false} SegmentEndUnique(runs: seq<Run>, newLevel: int, index: nat, hi: nat)
    requires index < hi <= |runs| && (forall j :: index <= j < hi ==> runs[j].level >= newLevel)
    requires hi == |runs| || runs[hi].level < newLevel
    ensures SegmentEnd(runs, newLevel, index) == hi
    decreases hi - index
  {
    if index + 1 < hi {
      SegmentEndUnique(runs, newLevel, index + 1, hi);
    }
  }

  /** No block at `newLevel` or higher straddles position `hi`. */
  predicate BlockBoundary(runs: seq<Run>, newLevel: int, hi: nat)
    requires hi <= |runs|
  {
    hi == 0 || hi == |runs| || runs[hi - 1].level < newLevel || runs[hi].level < newLevel
  }

  /** Below a block boundary, the pass of the source agrees with the block
      reversal. */
  lemma {:induction false} ReorderAtLevelPrefix(runs: seq<Run>, newLevel: int, hi: nat)
    requires hi <= |runs| && BlockBoundary(runs, newLevel, hi)
    ensures forall j :: 0 <= j < hi ==> ReorderAtLevel(runs, newLevel, hi)[j] == ReverseBlocks(runs, newLevel)[j]
    decreases hi, 1
  {
    if hi > 0 {
      if runs[hi - 1].level < newLevel {
        ReorderAtLevelPrefix(runs, newLevel, hi - 1);
      } else {
        LastBlockPrefix(runs, newLevel, hi);
      }
    }
  }

  /** The same when the runs before `hi` end in a block: the pass reverses
      that block and goes on below it. */
  lemma {:induction false} LastBlockPrefix(runs: seq<Run>, newLevel: int, hi: nat)
    requires 0 < hi <= |runs| && runs[hi - 1].level >= newLevel && BlockBoundary(runs, newLevel, hi)
    ensures forall j :: 0 <= j < hi ==> ReorderAtLevel(runs, newLevel, hi)[j] == ReverseBlocks(runs, newLevel)[j]
    decreases hi, 0
  {
    var lo := SegmentStart(runs, newLevel, hi - 1);
    var rr := ReverseRange(runs, lo, hi - lo);
    var r := ReorderAtLevel(rr, newLevel, lo);
    assert ReorderAtLevel(runs, newLevel, hi) == r;
    assert lo == 0 || rr[lo - 1] == runs[lo - 1];
    ReorderAtLevelPrefix(rr, newLevel, lo);
    forall j | 0 <= j < hi
      ensures r[j] == ReverseBlocks(runs, newLevel)[j]
    {
      if j < lo {
        BlockBeforeReversal(runs, newLevel, lo, hi, j);
      } else {
        BlockReversed(runs, newLevel, lo, hi, j);
      }
    }
  }

  /** Inside the last block, reversing the block places every run where
      the block reversal does. */
  lemma BlockReversed(runs: seq<Run>, newLevel: int, lo: nat, hi: nat, j: nat)
    requires lo <= j < hi <= |runs|
    requires lo == 0 || runs[lo - 1].level < newLevel
    requires hi == |runs| || runs[hi].level < newLevel
    requires forall k :: lo <= k < hi ==> runs[k].level >= newLevel
    ensures ReverseRange(runs, lo, hi - lo)[j] == ReverseBlocks(runs, newLevel)[j]
  {
    SegmentStartUnique(runs, newLevel, j, lo);
    SegmentEndUnique(runs, newLevel, j, hi);
    assert Mirror(runs, newLevel, j) == lo + hi - 1 - j;
    assert ReverseBlocks(runs, newLevel)[j] == runs[lo + hi - 1 - j];
  }

  /** Reversing the block `lo .. hi - 1` leaves the blocks before it where
      they were, so they reverse alike. */
  lemma BlockBeforeReversal(runs: seq<Run>, newLevel: int, lo: nat, hi: nat, j: nat)
    requires j < lo < hi <= |runs| && runs[lo - 1].level < newLevel
    requires forall k :: lo <= k < hi ==> runs[k].level >= newLevel
    ensures var rr := ReverseRange(runs, lo, hi - lo);
            ReverseBlocks(rr, newLevel)[j] == ReverseBlocks(runs, newLevel)[j]
  {
    var rr := ReverseRange(runs, lo, hi - lo);
    if runs[j].level >= newLevel {
      var a := SegmentStart(runs, newLevel, j);
      var e := SegmentEnd(runs, newLevel, j);
      assert e < lo;
      SegmentStartUnique(rr, newLevel, j, a);
      SegmentEndUnique(rr, newLevel, j, e);
    }
  }

  /** The pass of the source at one level is the block reversal of UAX #9:
      every maximal block of runs at that level or higher is reversed and
      every other run keeps its place. */
  lemma ReorderAtLevelReversesBlocks(runs: seq<Run>, newLevel: int)
    ensures ReorderAtLevel(runs, newLevel, |runs|) == ReverseBlocks(runs, newLevel)
  {
    ReorderAtLevelPrefix(runs, newLevel, |runs|);
  }

  /** The passes compute L2: level by level, from the highest down to 1,
      every maximal block at that level or higher is reversed. */
  lemma {:induction false} ReorderPassesReverseBlocks(runs: seq<Run>, maxLevel: int)
    ensures ReorderPasses(runs, maxLevel) == BlockReversals(runs, maxLevel)
    decreases maxLevel
  {
    if maxLevel > 0 {
      var next := ReorderAtLevel(runs, maxLevel, |runs|);
      ReorderAtLevelReversesBlocks(runs, maxLevel);
      ReorderPassesReverseBlocks(next, maxLevel - 1);
      assert ReorderPasses(runs, maxLevel) == ReorderPasses(next, maxLevel - 1);
      assert BlockReversals(runs, maxLevel) == BlockReversals(ReverseBlocks(runs, maxLevel), maxLevel - 1);
    }
  }

  /** The passes only move runs around. */
  lemma {:induction false} ReorderPassesArePermutation(runs: seq<Run>, maxLevel: int)
    ensures multiset(ReorderPasses(runs, maxLevel)) == multiset(runs)
    decreases maxLevel
  {
    if maxLevel > 0 {
      ReorderAtLevelIsPermutation(runs, maxLevel, |runs|);
      ReorderPassesArePermutation(ReorderAtLevel(runs, maxLevel, |runs|), maxLevel - 1);
    }
  }

  /** ReorderRuns: L2 from `maxLevel` down to 1. It shows every run exactly
      once, in the order of the block reversals; `ReorderRunsIsUaxL2` shows
      this is L2 of UAX #9. */
  function ReorderRuns(runs: seq<Run>, maxLevel: int): (r: seq<Run>)
    ensures multiset(r) == multiset(runs)
    ensures r == BlockReversals(runs, maxLevel)
  {
    ReorderPassesArePermutation(runs, maxLevel);
    ReorderPassesReverseBlocks(runs, maxLevel);
    ReorderPasses(runs, maxLevel)
  }

  // ---------------------------------------------------------------------
  // L2 stops at the lowest odd level.
  // ---------------------------------------------------------------------

  /** The lowest odd level on a line: its lowest level, or the level above
      when that one is even. */
  function LowestOddLevel(runs: seq<Run>): (l: int)
    requires |runs| > 0
    ensures l % 2 == 1 && l >= 1
    ensures forall j :: 0 <= j < |runs| ==> runs[j].level >= l - 1
    ensures exists j :: 0 <= j < |runs| && (runs[j].level == l || runs[j].level == l - 1)
  {
    var m := MinLevel(runs, 0, |runs| - 1);
    if m % 2 == 1 then m else m + 1
  }

  /** L2 as section 3.4 of UAX #9 states it: from `maxLevel` down to
      `lowest`, every maximal block of runs at that level or higher is
      reversed. */
  function ReversalsDownTo(runs: seq<Run>, maxLevel: int, lowest: int): (r: seq<Run>)
    ensures |r| == |runs|
    decreases maxLevel - lowest
  {
    if maxLevel < lowest then runs else ReversalsDownTo(ReverseBlocks(runs, maxLevel), maxLevel - 1, lowest)
  }

  /** The passes from level 1 up to the lowest odd level each reverse the
      whole line, and there is an even number of them, so L2 down to level
      1 is L2 down to the lowest odd level. */
  lemma BlockReversalsStopAtLowestOdd(runs: seq<Run>, maxLevel: int)
    requires |runs| > 0 && MinLevel(runs, 0, |runs| - 1) <= maxLevel
    ensures BlockReversals(runs, maxLevel) == ReversalsDownTo(runs, maxLevel, LowestOddLevel(runs))
  {
    hide *;
    var l := LowestOddLevel(runs);
    var half := (l - 1) / 2;
    assert l - 1 == 2 * half;
    assert maxLevel >= l - 1 by {
      var t :| 0 <= t < |runs| && MinLevel(runs, 0, |runs| - 1) == runs[t].level;
    }
    var upper := ReversalsDownTo(runs, maxLevel, l);
    SplitReversals(runs, maxLevel, l);
    ReversalsKeepFloor(runs, maxLevel, l, l - 1);
    EvenWholeReversals(upper, half);
  }

  /** L2 as the source computes it, from the line's highest level down to
      1, is L2 as UAX #9 states it, from the highest level down to the
      lowest odd level. */
  lemma ReorderRunsIsUaxL2(runs: seq<Run>, maxLevel: int)
    requires |runs| > 0 && forall j :: 0 <= j < |runs| ==> runs[j].level <= maxLevel
    ensures ReorderRuns(runs, maxLevel) == ReversalsDownTo(runs, maxLevel, LowestOddLevel(runs))
  {
    var t :| 0 <= t < |runs| && MinLevel(runs, 0, |runs| - 1) == runs[t].level;
    BlockReversalsStopAtLowestOdd(runs, maxLevel);
  }

  /** L2 down to level 1 is L2 down to `lowest` followed by the passes
      below it. */
  lemma {:induction false} SplitReversals(runs: seq<Run>, maxLevel: int, lowest: int)
    requires lowest >= 1
    ensures BlockReversals(runs, maxLevel)
         == BlockReversals(ReversalsDownTo(runs, maxLevel, lowest), if maxLevel < lowest then maxLevel else lowest - 1)
    decreases maxLevel - lowest
  {
    hide *;
    ReversalsDownToUnfold(runs, maxLevel, lowest);
    if maxLevel >= lowest {
      var next := ReverseBlocks(runs, maxLevel);
      SplitReversals(next, maxLevel - 1, lowest);
      BlockReversalsUnfold(runs, maxLevel);
    }
  }

  /** Block reversals only move runs, so no level below `floor` appears. */
  lemma {:induction false} ReversalsKeepFloor(runs: seq<Run>, maxLevel: int, lowest: int, floor: int)
    requires forall j :: 0 <= j < |runs| ==> runs[j].level >= floor
    ensures forall j :: 0 <= j < |runs| ==> ReversalsDownTo(runs, maxLevel, lowest)[j].level >= floor
    decreases maxLevel - lowest
  {
    if maxLevel >= lowest {
      var next := ReverseBlocks(runs, maxLevel);
      assert forall j :: 0 <= j < |runs| ==> next[j] == runs[Mirror(runs, maxLevel, j)];
      ReversalsKeepFloor(next, maxLevel - 1, lowest, floor);
      assert ReversalsDownTo(runs, maxLevel, lowest) == ReversalsDownTo(next, maxLevel - 1, lowest);
    }
  }

  /** An even number of passes at levels no run is below puts every run
      back. */
  lemma {:induction false} EvenWholeReversals(runs: seq<Run>, half: nat)
    requires |runs| > 0
    requires forall j :: 0 <= j < |runs| ==> runs[j].level >= 2 * half
    ensures BlockReversals(runs, 2 * half) == runs
  {
    hide *;
    BlockReversalsUnfold(runs, 2 * half);
    if half > 0 {
      var k := 2 * half;
      var once := ReverseRange(runs, 0, |runs|);
      WholeReversal(runs, k);
      ReverseRangeOfAll(runs);
      WholeReversal(once, k - 1);
      ReverseRangeInvolution(runs, 0, |runs|);
      BlockReversalsUnfold(once, k - 1);
      EvenWholeReversals(runs, half - 1);
    }
  }

  lemma BlockReversalsUnfold(runs: seq<Run>, maxLevel: int)
    ensures BlockReversals(runs, maxLevel)
         == if maxLevel <= 0 then runs else BlockReversals(ReverseBlocks(runs, maxLevel), maxLevel - 1)
  {
  }

  lemma ReversalsDownToUnfold(runs: seq<Run>, maxLevel: int, lowest: int)
    ensures ReversalsDownTo(runs, maxLevel, lowest)
         == if maxLevel < lowest then runs else ReversalsDownTo(ReverseBlocks(runs, maxLevel), maxLevel - 1, lowest)
  {
  }

  lemma ReverseRangeOfAll(runs: seq<Run>)
    ensures forall j :: 0 <= j < |runs| ==> ReverseRange(runs, 0, |runs|)[j] == runs[|runs| - 1 - j]
  {
  }

  /** A block reversal at a level no run is below reverses the whole line. */
  lemma WholeReversal(runs: seq<Run>, newLevel: int)
    requires |runs| > 0
    requires forall j :: 0 <= j < |runs| ==> runs[j].level >= newLevel
    ensures ReverseBlocks(runs, newLevel) == ReverseRange(runs, 0, |runs|)
  {
    ReorderAtLevelReversesBlocks(runs, newLevel);
    ReorderAtLevelBelowAll(runs, newLevel);
  }

  // ---------------------------------------------------------------------
  // What one pass of L2 does to the order of two runs.
  // ---------------------------------------------------------------------

  /** The lowest level among the runs `a .. b`. */
  function MinLevel(runs: seq<Run>, a: nat, b: nat): (m: int)
    requires a <= b < |runs|
    ensures forall t :: a <= t <= b ==> m <= runs[t].level
    ensures exists t :: a <= t <= b && m == runs[t].level
    decreases b - a
  {
    if a == b then runs[a].level
    else
      var rest := MinLevel(runs, a, b - 1);
      if runs[b].level < rest then runs[b].level else rest
  }

  /** Reversing a block twice puts every run back, and a run stays in its
      block. */
  lemma MirrorInvolution(runs: seq<Run>, newLevel: int, j: nat)
    requires j < |runs|
    ensures Mirror(runs, newLevel, Mirror(runs, newLevel, j)) == j
    ensures ReverseBlocks(runs, newLevel)[Mirror(runs, newLevel, j)] == runs[j]
  {
    if runs[j].level >= newLevel {
      var lo := SegmentStart(runs, newLevel, j);
      var hi := SegmentEnd(runs, newLevel, j);
      var m := lo + hi - 1 - j;
      SegmentStartUnique(runs, newLevel, m, lo);
      SegmentEndUnique(runs, newLevel, m, hi);
    }
  }

  /** A run below `newLevel` separates: no run crosses it in the pass. */
  lemma MirrorSide(runs: seq<Run>, newLevel: int, t: nat, j: nat)
    requires t < |runs| && j < |runs| && runs[t].level < newLevel
    ensures j < t <==> Mirror(runs, newLevel, j) < t
    ensures j == t <==> Mirror(runs, newLevel, j) == t
  {
  }

  /** Two runs change their order in the pass at `newLevel` exactly when
      every run between them is at `newLevel` or higher. */
  lemma PassOrder(runs: seq<Run>, newLevel: int, a: nat, b: nat)
    requires a < b < |runs|
    ensures Mirror(runs, newLevel, b) < Mirror(runs, newLevel, a) <==> MinLevel(runs, a, b) >= newLevel
    ensures Mirror(runs, newLevel, a) != Mirror(runs, newLevel, b)
  {
    if MinLevel(runs, a, b) >= newLevel {
      var lo := SegmentStart(runs, newLevel, a);
      var hi := SegmentEnd(runs, newLevel, a);
      assert b < hi;
      SegmentStartUnique(runs, newLevel, b, lo);
      SegmentEndUnique(runs, newLevel, b, hi);
    } else {
      var t :| a <= t <= b && MinLevel(runs, a, b) == runs[t].level;
      MirrorSide(runs, newLevel, t, a);
      MirrorSide(runs, newLevel, t, b);
    }
  }

  /** The positions two runs take in the pass at `newLevel`, the lower
      first. */
  predicate Images(runs: seq<Run>, newLevel: int, a: nat, b: nat, lo: nat, hi: nat)
    requires a < |runs| && b < |runs|
  {
    && lo <= hi
    && ((lo == Mirror(runs, newLevel, a) && hi == Mirror(runs, newLevel, b))
        || (lo == Mirror(runs, newLevel, b) && hi == Mirror(runs, newLevel, a)))
  }

  /** A run below `newLevel` lies between two runs after the pass at
      `newLevel` exactly when it did before. */
  lemma SeparatorStaysBetween(runs: seq<Run>, newLevel: int, a: nat, b: nat, lo: nat, hi: nat, t: nat)
    requires a < b < |runs| && Images(runs, newLevel, a, b, lo, hi)
    requires t < |runs| && runs[t].level < newLevel
    ensures a <= t <= b <==> lo <= t <= hi
  {
    MirrorSide(runs, newLevel, t, a);
    MirrorSide(runs, newLevel, t, b);
  }

  /** The pass at `newLevel` keeps, for every lower level, whether two runs
      lie in one block. */
  lemma PassKeepsBlocks(runs: seq<Run>, newLevel: int, lower: int, a: nat, b: nat, lo: nat, hi: nat)
    requires a < b < |runs| && lower < newLevel && Images(runs, newLevel, a, b, lo, hi)
    ensures MinLevel(ReverseBlocks(runs, newLevel), lo, hi) >= lower <==> MinLevel(runs, a, b) >= lower
  {
    if MinLevel(runs, a, b) >= lower {
      PassKeepsBlocksUp(runs, newLevel, lower, a, b, lo, hi);
    } else {
      var t :| a <= t <= b && MinLevel(runs, a, b) == runs[t].level;
      SeparatorStaysBetween(runs, newLevel, a, b, lo, hi, t);
      assert ReverseBlocks(runs, newLevel)[t] == runs[t];
    }
  }

  lemma PassKeepsBlocksUp(runs: seq<Run>, newLevel: int, lower: int, a: nat, b: nat, lo: nat, hi: nat)
    requires a < b < |runs| && lower < newLevel && Images(runs, newLevel, a, b, lo, hi)
    requires MinLevel(runs, a, b) >= lower
    ensures MinLevel(ReverseBlocks(runs, newLevel), lo, hi) >= lower
  {
    var r := ReverseBlocks(runs, newLevel);
    var x :| lo <= x <= hi && MinLevel(r, lo, hi) == r[x].level;
    if runs[x].level >= newLevel {
      MirrorKeepsLevel(runs, newLevel, x);
    } else {
      SeparatorStaysBetween(runs, newLevel, a, b, lo, hi, x);
    }
  }

  /** A run at `newLevel` or higher moves to a place at `newLevel` or
      higher. */
  lemma MirrorKeepsLevel(runs: seq<Run>, newLevel: int, x: nat)
    requires x < |runs| && runs[x].level >= newLevel
    ensures ReverseBlocks(runs, newLevel)[x].level >= newLevel
  {
    var y := Mirror(runs, newLevel, x);
    assert ReverseBlocks(runs, newLevel)[x] == runs[y];
  }

  // ---------------------------------------------------------------------
  // The line.
  // ---------------------------------------------------------------------

  /** Every run lies inside a line of `n` characters and is non-empty. */
  predicate RunsInside(runs: seq<Run>, n: int) {
    forall k :: 0 <= k < |runs| ==> 0 <= runs[k].offset && runs[k].offset + runs[k].length <= n && runs[k].length > 0
  }

  /** The highest of the levels, 0 for none. */
  function MaxLevelOf(levels: seq<Byte>): (m: Byte)
    ensures forall j :: 0 <= j < |levels| ==> levels[j] <= m
    ensures |levels| > 0 ==> m in levels
  {
    if |levels| == 0 then 0
    else
      var rest := MaxLevelOf(levels[..|levels| - 1]);
      assert forall j :: 0 <= j < |levels| - 1 ==> levels[..|levels| - 1][j] == levels[j];
      if levels[|levels| - 1] > rest then levels[|levels| - 1] else rest
  }

  /** The runs of a line in visual order: L1 as the source's scan computes
      it, the maximal runs of the reset levels, and the block reversals
      from the highest reset level down to 1. */
  function VisualRuns(types: seq<CharType>, levels: seq<Byte>, baseLevel: Byte): seq<Run>
    requires |types| == |levels|
  {
    BlockReversals(LineRuns(types, levels, baseLevel), MaxLevelOf(ResetLevelsAsWritten(types, levels, baseLevel)))
  }

  /** Initialize: L1 on the line's stretch of the paragraph types, the runs
      of the reset levels, and L2 from their highest level. The result is
      the maximal runs of the reset levels in the visual order of L2, so
      each of them exactly once. */
  method Initialize(types: seq<CharType>, offset: nat, length: nat, levels: seq<Byte>, baseLevel: Byte) returns (runs: seq<Run>)
    requires |levels| == length > 0 && offset + length <= |types|
    ensures runs == VisualRuns(types[offset..offset + length], levels, baseLevel)
    ensures multiset(runs) == multiset(LineRuns(types[offset..offset + length], levels, baseLevel))
    ensures RunsInside(runs, length)
  {
    var lineTypes := types[offset..offset + length];
    var reset := ResetLevelsAsWritten(lineTypes, levels, baseLevel);
    var maxLevel;
    runs, maxLevel := DetermineRuns(reset);
    var unordered := runs;
    runs := ReorderRuns(runs, maxLevel);
    LineRunsUnique(lineTypes, levels, baseLevel, unordered);
    assert maxLevel == MaxLevelOf(reset);
    forall k | 0 <= k < |runs|
      ensures 0 <= runs[k].offset && runs[k].offset + runs[k].length <= |levels| && runs[k].length > 0
    {
      assert runs[k] in multiset(unordered);
      var j :| 0 <= j < |unordered| && unordered[j] == runs[k];
      OffsetsInside(unordered, |levels|, j);
    }
  }

  /** A line: the paragraph text, the stretch of it the line covers, and
      its runs in visual order, with offsets relative to the line. */
  datatype LineData = LineData(text: string, offset: int, length: int, runs: seq<Run>)

  /** A line well formed for the cursors: its stretch lies in the text and
      its runs inside the stretch. */
  predicate ValidLine(line: LineData) {
    && 0 <= line.offset && 0 < line.length && line.offset + line.length <= |line.text|
    && RunsInside(line.runs, line.length)
  }

  /** A paragraph as the line constructors receive it: its text, the
      resolved type and level of every character, and its base level. */
  predicate ValidParagraph(text: string, types: seq<CharType>, levels: seq<Byte>) {
    |types| == |levels| == |text|
  }

  /** The line over `offset .. offset + length - 1` of a paragraph. A
      stretch outside the paragraph fails when the levels are copied; an
      empty one fails when the runs are determined. */
  method NewLine(text: string, types: seq<CharType>, levels: seq<Byte>, baseLevel: Byte, offset: int, length: int)
    returns (r: Result<LineData>)
    requires ValidParagraph(text, types, levels)
    ensures r.Ok? <==> 0 <= offset && 0 < length && offset + length <= |text|
    ensures r.Ok? ==> && r.value.text == text && r.value.offset == offset && r.value.length == length
                      && ValidLine(r.value)
                      && r.value.runs == VisualRuns(types[offset..offset + length], levels[offset..offset + length], baseLevel)
  {
    if offset < 0 || length < 0 || offset + length > |levels| {
      return Fault("Offset and length do not denote a range of the paragraph.");
    }
    if length == 0 {
      return Fault("Index was outside the bounds of the array.");
    }
    var lineLevels := levels[offset..offset + length];
    var runs := Initialize(types, offset, length, lineLevels, baseLevel);
    r := Ok(LineData(text, offset, length, runs));
  }

  /** The line over a whole paragraph; an empty text is refused. */
  method LineFromText(text: string, types: seq<CharType>, levels: seq<Byte>, baseLevel: Byte) returns (r: Result<LineData>)
    requires ValidParagraph(text, types, levels)
    ensures r.Fault? <==> |text| == 0
    ensures r.Ok? ==> && r.value.text == text && r.value.offset == 0 && r.value.length == |text|
                      && ValidLine(r.value)
                      && r.value.runs == VisualRuns(types, levels, baseLevel)
  {
    if |text| == 0 {
      return Fault("Text is empty.");
    }
    var runs := Initialize(types, 0, |levels|, levels, baseLevel);
    assert types[0..|levels|] == types;
    r := Ok(LineData(text, 0, |text|, runs));
  }

  /** The runs of the reset levels, in logical order. */
  function LineRuns(types: seq<CharType>, levels: seq<Byte>, baseLevel: Byte): seq<Run>
    requires |types| == |levels|
  {
    RunsOf(ResetLevelsAsWritten(types, levels, baseLevel), 0)
  }

  /** On a line without characters removed by X9 the runs are those of the
      L1 reference. */
  lemma LineRunsWithoutIgnorables(types: seq<CharType>, levels: seq<Byte>, baseLevel: Byte)
    requires |types| == |levels|
    requires forall j :: 0 <= j < |types| ==> ClassOf(types[j]) != Ignorable
    ensures LineRuns(types, levels, baseLevel) == RunsOf(ResetReference(types, levels, baseLevel), 0)
  {
    ResetLevelsAsWrittenWithoutIgnorables(types, levels, baseLevel);
  }

  /** The maximal runs of `levels` from position `i` on. */
  function RunsOf(levels: seq<Byte>, i: nat): seq<Run>
    requires i <= |levels|
    decreases |levels| - i
  {
    if i == |levels| then []
    else
      var e := RunEnd(levels, i);
      [Run(i, e - i, levels[i])] + RunsOf(levels, e)
  }

  /** The end of the run of equal levels that starts at `i`. */
  function RunEnd(levels: seq<Byte>, i: nat): (e: nat)
    requires i < |levels|
    ensures i < e <= |levels|
    ensures forall j :: i <= j < e ==> levels[j] == levels[i]
    ensures e < |levels| ==> levels[e] != levels[i]
    decreases |levels| - i
  {
    if i + 1 < |levels| && levels[i + 1] == levels[i] then RunEnd(levels, i + 1) else i + 1
  }

  /** Maximal runs are unique: any tiling into maximal runs of equal level
      is the one `RunsOf` gives. */
  lemma LineRunsUnique(types: seq<CharType>, levels: seq<Byte>, baseLevel: Byte, runs: seq<Run>)
    requires |types| == |levels| && |levels| > 0
    requires var reset := ResetLevelsAsWritten(types, levels, baseLevel);
             Tiles(runs, |reset|) && Covers(runs, reset) && Maximal(runs)
    ensures runs == LineRuns(types, levels, baseLevel)
  {
    var reset := ResetLevelsAsWritten(types, levels, baseLevel);
    TilingIsRunsOf(reset, runs, 0);
  }

  /** A maximal tiling of `levels` from run `k` on is `RunsOf` from that
      run's offset. */
  lemma {:induction false} TilingIsRunsOf(levels: seq<Byte>, runs: seq<Run>, k: nat)
    requires Tiles(runs, |levels|) && Covers(runs, levels) && Maximal(runs)
    requires k <= |runs|
    ensures k < |runs| ==> 0 <= runs[k].offset < |levels|
    ensures k < |runs| ==> runs[k..] == RunsOf(levels, runs[k].offset)
    decreases |runs| - k
  {
    if k < |runs| {
      OffsetsInside(runs, |levels|, k);
      var x := runs[k];
      var e := RunEnd(levels, x.offset);
      assert levels[x.offset] == x.level;
      assert e == x.offset + x.length by {
        if k + 1 < |runs| {
          OffsetsInside(runs, |levels|, k + 1);
          assert levels[x.offset + x.length] == runs[k + 1].level;
        }
      }
      if k + 1 < |runs| {
        TilingIsRunsOf(levels, runs, k + 1);
        assert runs[k..] == [x] + runs[k + 1..];
      } else {
        assert runs[k..] == [x];
      }
    }
  }

  /** Every run of a tiling starts inside the line and ends at or before its
      end. */
  lemma {:induction false} OffsetsInside(runs: seq<Run>, n: int, k: nat)
    requires Tiles(runs, n) && k < |runs|
    ensures 0 <= runs[k].offset && runs[k].offset + runs[k].length <= n
    ensures runs[k].offset < n
    decreases |runs| - k
  {
    LowerOffsets(runs, n, k);
    if k + 1 < |runs| {
      OffsetsInside(runs, n, k + 1);
    }
  }

  lemma {:induction false} LowerOffsets(runs: seq<Run>, n: int, k: nat)
    requires Tiles(runs, n) && k < |runs|
    ensures runs[k].offset >= 0
    decreases k
  {
    if k > 0 {
      LowerOffsets(runs, n, k - 1);
      assert runs[k - 1].length > 0;
      assert runs[k].offset == runs[k - 1].offset + runs[k - 1].length;
    }
  }
}
