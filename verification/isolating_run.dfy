/** One isolating run sequence resolved in place (BD13, X10 and rules
    W1-I2 of UAX #9, sections 3.1.3 and 3.3.3-3.3.6).

    The level runs of the sequence are spliced into a ring closed by the
    sequence's roller link; the rule passes run over the ring; the links of
    every run are then re-attached to what followed them in the chain, and
    the final link of the ring to what followed the last run.

    The runs are given base first, as their `next` references list them,
    together with `order`, the links of all runs in chain order, and
    `starts`, the position in `order` where each run begins. */
module IsolatingRun {
  import opened BidiTypes
  import opened BidiLink
  import opened LR = LevelRun
  import opened Spans
  import WeakRules
  import BracketRules
  import NeutralRules
  import ImplicitRules
  import Level

  // ---------------------------------------------------------------------
  // The layout of a sequence in the chain.
  // ---------------------------------------------------------------------

  /** The position just past run `i` in `order`. */
  function End(starts: seq<nat>, n: nat, i: nat): nat
    requires i < |starts|
  {
    if i + 1 < |starts| then starts[i + 1] else n
  }

  /** Run starts are increasing positions of `order`, the first at 0. */
  predicate Starts(starts: seq<nat>, n: nat) {
    && |starts| > 0
    && starts[0] == 0
    && (forall i :: 0 <= i < |starts| ==> starts[i] < n)
    && (forall i :: 0 < i < |starts| ==> starts[i - 1] < starts[i])
  }

  /** The runs occupy consecutive non-empty stretches of `order`, which
      lists distinct links of the arena; inside a run each link is followed
      by the next one in the chain; the roller is a link of its own. */
  predicate Layout(a: Arena, roller: int, runs: seq<LevelRun>, order: seq<int>, starts: seq<nat>) {
    && |runs| == |starts|
    && Starts(starts, |order|)
    && InArena(a, order)
    && Distinct(order)
    && Addr(a, roller)
    && roller !in order
    && (forall k :: 0 <= k < |order| ==> a[order[k]].length >= 0)
    && (forall i {:trigger runs[i]} :: 0 <= i < |runs| ==>
          && runs[i].firstLink == order[starts[i]]
          && runs[i].lastLink == order[End(starts, |order|, i) - 1])
    && (forall k :: 0 <= k < |order| - 1 && !IsLastLink(runs, order[k]) ==> a[order[k]].next == order[k + 1])
  }

  /** Whether link `x` is the last link of one of the runs. */
  predicate IsLastLink(runs: seq<LevelRun>, x: int) {
    exists j :: 0 <= j < |runs| && runs[j].lastLink == x
  }

  /** The stretches of later runs lie after those of earlier ones. */
  lemma {:induction false} StartsIncrease(starts: seq<nat>, n: nat, i: nat, j: nat)
    requires Starts(starts, n)
    requires i < j < |starts|
    ensures End(starts, n, i) <= starts[j]
    decreases j - i
  {
    if j > i + 1 {
      StartsIncrease(starts, n, i, j - 1);
    }
  }

  /** Every run's last link is a link of the sequence, and distinct runs
      have distinct last links. */
  lemma LastLinksDistinct(a: Arena, roller: int, runs: seq<LevelRun>, order: seq<int>, starts: seq<nat>)
    requires Layout(a, roller, runs, order, starts)
    ensures LastLinksIn(a, runs)
    ensures forall j :: 0 <= j < |runs| ==> runs[j].lastLink in order
    ensures forall j, m :: 0 <= j < m < |runs| ==> runs[j].lastLink != runs[m].lastLink
  {
    var n := |order|;
    forall j | 0 <= j < |runs| ensures runs[j].lastLink in order {
      assert runs[j].lastLink == order[End(starts, n, j) - 1];
    }
    forall j, m | 0 <= j < m < |runs| ensures runs[j].lastLink != runs[m].lastLink {
      StartsIncrease(starts, n, j, m);
      assert End(starts, n, j) - 1 < End(starts, n, m) - 1;
    }
  }

  /** The last link of a run that is not the last run is followed in
      `order` by the next run's first link. */
  lemma LastLinkTarget(a: Arena, roller: int, runs: seq<LevelRun>, order: seq<int>, starts: seq<nat>, j: nat, k: nat)
    requires Layout(a, roller, runs, order, starts)
    requires j < |runs| && k < |order| - 1 && runs[j].lastLink == order[k]
    ensures j + 1 < |runs| && runs[j + 1].firstLink == order[k + 1]
  {
    assert k == End(starts, |order|, j) - 1;
  }

  // ---------------------------------------------------------------------
  // Splicing the runs into a ring.
  // ---------------------------------------------------------------------

  /** Where run `i`'s last link points once the runs are spliced: the next
      run's first link, or the roller after the last run. */
  function SpliceTarget(runs: seq<LevelRun>, roller: int, i: nat): int
    requires i < |runs|
  {
    if i + 1 < |runs| then runs[i + 1].firstLink else roller
  }

  /** The last links of the runs from `i` on. */
  predicate LastLinksIn(a: Arena, runs: seq<LevelRun>) {
    forall j :: 0 <= j < |runs| ==> Addr(a, runs[j].lastLink)
  }

  /** Points the last link of every run from `i` on at `target(j)`: the
      next run's first link while splicing, the original successor while
      restoring. Only `next` fields change, and only those of the last
      links. */
  function RelinkFrom(a: Arena, runs: seq<LevelRun>, targets: seq<int>, i: nat): (r: Arena)
    requires i <= |runs| == |targets| && LastLinksIn(a, runs)
    ensures |r| == |a|
    ensures forall x :: 0 <= x < |a| ==> r[x] == a[x].(next := r[x].next)
    ensures forall x :: 0 <= x < |a| && (forall j :: i <= j < |runs| ==> runs[j].lastLink != x) ==> r[x] == a[x]
    decreases |runs| - i
  {
    if i == |runs| then a
    else RelinkFrom(ReplaceNext(a, runs[i].lastLink, targets[i]), runs, targets, i + 1)
  }

  /** With distinct last links, each one ends up at its own target. */
  lemma {:induction false} RelinkFromTargets(a: Arena, runs: seq<LevelRun>, targets: seq<int>, i: nat)
    requires i <= |runs| == |targets| && LastLinksIn(a, runs)
    requires forall j, m :: i <= j < m < |runs| ==> runs[j].lastLink != runs[m].lastLink
    ensures forall j :: i <= j < |runs| ==> RelinkFrom(a, runs, targets, i)[runs[j].lastLink].next == targets[j]
    decreases |runs| - i
  {
    if i < |runs| {
      var b := ReplaceNext(a, runs[i].lastLink, targets[i]);
      RelinkFromTargets(b, runs, targets, i + 1);
    }
  }

  /** The splice targets of all runs. */
  function SpliceTargets(runs: seq<LevelRun>, roller: int): (t: seq<int>)
    ensures |t| == |runs|
    ensures forall i :: 0 <= i < |runs| ==> t[i] == SpliceTarget(runs, roller, i)
  {
    seq(|runs|, i requires 0 <= i < |runs| => SpliceTarget(runs, roller, i))
  }

  /** The links that followed each run in the chain. */
  function Subsequents(runs: seq<LevelRun>): (t: seq<int>)
    ensures |t| == |runs|
    ensures forall i :: 0 <= i < |runs| ==> t[i] == runs[i].subsequentLink
  {
    seq(|runs|, i requires 0 <= i < |runs| => runs[i].subsequentLink)
  }

  /** AttachLevelRunLinks: the roller points at the base run's first link
      and every run's last link at the next run, the last one at the
      roller. */
  function Splice(a: Arena, roller: int, runs: seq<LevelRun>): (r: Arena)
    requires Addr(a, roller) && |runs| > 0 && LastLinksIn(a, runs)
    ensures |r| == |a|
    ensures forall x :: 0 <= x < |a| ==> r[x] == a[x].(next := r[x].next)
  {
    RelinkFrom(ReplaceNext(a, roller, runs[0].firstLink), runs, SpliceTargets(runs, roller), 0)
  }

  /** After splicing, a run's last link points at its splice target. */
  lemma SpliceLastLink(a: Arena, roller: int, runs: seq<LevelRun>, order: seq<int>, starts: seq<nat>, j: nat)
    requires Layout(a, roller, runs, order, starts) && j < |runs|
    ensures LastLinksIn(a, runs)
    ensures Splice(a, roller, runs)[runs[j].lastLink].next == SpliceTarget(runs, roller, j)
  {
    LastLinksDistinct(a, roller, runs, order, starts);
    RelinkFromTargets(ReplaceNext(a, roller, runs[0].firstLink), runs, SpliceTargets(runs, roller), 0);
  }

  /** Splicing changes no link but the roller and the runs' last links;
      the roller points at the base run's first link. */
  lemma SpliceElsewhere(a: Arena, roller: int, runs: seq<LevelRun>, x: int)
    requires Addr(a, roller) && |runs| > 0 && LastLinksIn(a, runs)
    requires 0 <= x < |a| && !IsLastLink(runs, x)
    ensures Splice(a, roller, runs)[x] == if x == roller then a[x].(next := runs[0].firstLink) else a[x]
  {
  }

  /** Splicing closes the runs into one ring through the roller, visiting
      the links of the runs in order; links outside the sequence are left
      alone. */
  lemma SpliceFormsRing(a: Arena, roller: int, runs: seq<LevelRun>, order: seq<int>, starts: seq<nat>)
    requires Layout(a, roller, runs, order, starts)
    ensures LastLinksIn(a, runs)
    ensures IsRing(Splice(a, roller, runs), roller, order)
    ensures forall x :: 0 <= x < |a| && x != roller && x !in order ==> Splice(a, roller, runs)[x] == a[x]
  {
    var n := |order|;
    LastLinksDistinct(a, roller, runs, order, starts);
    var r := Splice(a, roller, runs);
    SpliceElsewhere(a, roller, runs, roller);
    forall k | 0 <= k < n - 1 ensures r[order[k]].next == order[k + 1] {
      if IsLastLink(runs, order[k]) {
        var j :| 0 <= j < |runs| && runs[j].lastLink == order[k];
        LastLinkTarget(a, roller, runs, order, starts, j, k);
        SpliceLastLink(a, roller, runs, order, starts, j);
      } else {
        SpliceElsewhere(a, roller, runs, order[k]);
      }
    }
    SpliceLastLink(a, roller, runs, order, starts, |runs| - 1);
    forall x | 0 <= x < |a| && x != roller && x !in order ensures r[x] == a[x] {
      SpliceElsewhere(a, roller, runs, x);
    }
  }

  // ---------------------------------------------------------------------
  // The rule passes over the ring.
  // ---------------------------------------------------------------------

  /** The ring read in visiting order. */
  function Walk(a: Arena, order: seq<int>): (s: seq<Span>)
    requires InArena(a, order)
    requires forall k :: 0 <= k < |order| ==> a[order[k]].length >= 0
    ensures |s| == |order|
    ensures forall k :: 0 <= k < |order| ==>
              s[k] == Span(order[k], a[order[k]].offset, a[order[k]].length, a[order[k]].charType, a[order[k]].level)
  {
    seq(|order|, k requires 0 <= k < |order| && InArena(a, order) && a[order[k]].length >= 0 =>
          Span(order[k], a[order[k]].offset, a[order[k]].length, a[order[k]].charType, a[order[k]].level))
  }

  /** X10: the type at the end of the sequence is the last run's eor, unless
      the base run is an isolate initiator still lacking its terminator, in
      which case it is the direction of the higher of the sequence's and
      the paragraph's level. */
  function Eos(runs: seq<LevelRun>, paragraphLevel: Byte): (t: CharType)
    requires |runs| > 0
    ensures IsDirection(t)
    ensures !runs[0].partial ==> t == EOR(runs[|runs| - 1])
    ensures runs[0].partial && runs[0].level >= paragraphLevel ==> t == Level.LevelToEmbeddingType(runs[0].level)
    ensures runs[0].partial && runs[0].level < paragraphLevel ==> t == Level.LevelToEmbeddingType(paragraphLevel)
  {
    if !runs[0].partial then EOR(runs[|runs| - 1])
    else
      var eosLevel := if runs[0].level >= paragraphLevel then runs[0].level else paragraphLevel;
      Level.LevelToEmbeddingType(eosLevel)
  }

  /** The types the rules N1 and N2 are handed are those W1-W7 leave, after
      N0 has turned some ON links into L or R. */
  lemma BracketsLeaveNeutralInput(w: seq<Span>, t0: seq<CharType>)
    requires WeakRules.AllAfterW7(w) && |t0| == |w|
    requires forall k :: 0 <= k < |w| && t0[k] != w[k].charType ==> w[k].charType == ON && IsDirection(t0[k])
    ensures NeutralRules.AllNeutralInput(t0)
  {
    forall k | 0 <= k < |w| ensures NeutralRules.IsNeutralInput(t0[k]) {
      assert WeakRules.IsAfterW7(w[k].charType);
    }
  }

  /** Rules N0, N1 and N2 over the output of W1-W7: each span keeps
      everything but its type, which becomes L, R, EN or AN. */
  function ResolveNeutralTypes(w: seq<Span>, text: string, pairing: char -> BracketRules.Bracket,
                               sos: CharType, eos: CharType, level: Byte): (typed: seq<Span>)
    requires WeakRules.AllAfterW7(w) && OffsetsBelow(w, |text|)
    requires IsDirection(sos) && IsDirection(eos)
    ensures |typed| == |w|
    ensures forall k :: 0 <= k < |w| ==> typed[k] == w[k].(charType := typed[k].charType)
    ensures ImplicitRules.AllImplicitInput(typed)
  {
    var t0 := BracketRules.ResolveBrackets(w, text, pairing, sos, level);
    BracketsLeaveNeutralInput(w, t0);
    var t1 := NeutralRules.ResolveNeutrals(t0, sos, eos, level);
    NeutralRules.ResolveNeutralsLeavesNoNeutral(t0, sos, eos, level);
    Retype(w, t1)
  }

  /** What the passes need of the ring: chain types, offsets inside the
      text, and directions at both ends. */
  predicate RingInput(s: seq<Span>, text: string, sos: CharType, eos: CharType) {
    WeakRules.AllChainTypes(s) && OffsetsBelow(s, |text|) && IsDirection(sos) && IsDirection(eos)
  }

  /** Rules W1-W7, N0, N1-N2 and I1-I2 in turn over the ring `s`. */
  function ResolveRing(s: seq<Span>, text: string, pairing: char -> BracketRules.Bracket,
                       sos: CharType, eos: CharType, level: Byte): (r: seq<Span>)
    requires RingInput(s, text, sos, eos)
    ensures forall k :: 0 <= k < |r| ==> ImplicitRules.IsImplicitInput(r[k].charType)
  {
    WeakRules.ResolveWeakTypesShape(s, sos);
    WeakRules.WeakTypesKeepOffsets(s, sos, |text|);
    var w := WeakRules.ResolveWeakTypes(s, sos);
    var typed := ResolveNeutralTypes(w, text, pairing, sos, eos, level);
    ImplicitRules.ResolveImplicitLevels(typed, level)
  }

  /** Sequences whose spans have the same lengths have the same total. */
  lemma {:induction false} SameLengthsSameTotal(p: seq<Span>, q: seq<Span>)
    requires |p| == |q| && forall k :: 0 <= k < |p| ==> p[k].length == q[k].length
    ensures Spans.TotalLength(p) == Spans.TotalLength(q)
    decreases |p|
  {
    if |p| > 0 {
      SameLengthsSameTotal(p[..|p| - 1], q[..|q| - 1]);
    }
  }

  /** Two sequences hold the same links, at the same offsets and with the
      same lengths. */
  predicate SameSpans(w: seq<Span>, r: seq<Span>) {
    && |r| == |w|
    && forall k :: 0 <= k < |r| ==> r[k].id == w[k].id && r[k].offset == w[k].offset && r[k].length == w[k].length
  }

  /** N0-N2 and I1-I2 keep the spans W1-W7 leave: only types and levels
      change. */
  lemma ResolveRingKeepsSpans(s: seq<Span>, text: string, pairing: char -> BracketRules.Bracket,
                              sos: CharType, eos: CharType, level: Byte)
    requires RingInput(s, text, sos, eos)
    ensures SameSpans(WeakRules.ResolveWeakTypes(s, sos), ResolveRing(s, text, pairing, sos, eos, level))
  {
  }

  /** The passes cover the characters the ring covered. */
  lemma ResolveRingKeepsLength(s: seq<Span>, text: string, pairing: char -> BracketRules.Bracket,
                               sos: CharType, eos: CharType, level: Byte)
    requires RingInput(s, text, sos, eos)
    ensures Spans.TotalLength(ResolveRing(s, text, pairing, sos, eos, level)) == Spans.TotalLength(s)
  {
    WeakRules.ResolveWeakTypesShape(s, sos);
    ResolveRingKeepsSpans(s, text, pairing, sos, eos, level);
    SameLengthsSameTotal(WeakRules.ResolveWeakTypes(s, sos), ResolveRing(s, text, pairing, sos, eos, level));
  }

  /** The passes never invent a link, never repeat one, and never fold the
      first link away. */
  lemma ResolveRingKeepsIds(s: seq<Span>, text: string, pairing: char -> BracketRules.Bracket,
                            sos: CharType, eos: CharType, level: Byte)
    requires RingInput(s, text, sos, eos)
    ensures var r := ResolveRing(s, text, pairing, sos, eos, level);
            && IdSet(r) <= IdSet(s)
            && (DistinctIds(s) ==> DistinctIds(r))
            && (|s| > 0 ==> |r| > 0 && r[0].id == s[0].id)
  {
    WeakRules.ResolveWeakTypesShape(s, sos);
    ResolveRingKeepsSpans(s, text, pairing, sos, eos, level);
    SameIds(WeakRules.ResolveWeakTypes(s, sos), ResolveRing(s, text, pairing, sos, eos, level));
  }

  /** Sequences whose spans have the same identities have the same
      identity set, and one is distinct exactly when the other is. */
  lemma SameIds(w: seq<Span>, r: seq<Span>)
    requires |r| == |w| && forall k :: 0 <= k < |w| ==> r[k].id == w[k].id
    ensures IdSet(r) == IdSet(w)
    ensures DistinctIds(w) ==> DistinctIds(r)
  {
  }

  // ---------------------------------------------------------------------
  // Writing the ring back and restoring the chain.
  // ---------------------------------------------------------------------

  /** The successor of the k-th surviving link in the ring. */
  function NextId(r: seq<Span>, k: nat, roller: int): int
    requires k < |r|
  {
    if k + 1 < |r| then r[k + 1].id else roller
  }

  /** Every span of the ring names a link of the arena. */
  predicate IdsIn(a: Arena, r: seq<Span>) {
    forall k :: 0 <= k < |r| ==> Addr(a, r[k].id)
  }

  /** The link the k-th span of the ring leaves behind: its own offset, the
      span's length, type and level, and the ring successor. */
  function Written(a: Arena, r: seq<Span>, k: nat, roller: int): Link
    requires k < |r| && Addr(a, r[k].id)
  {
    a[r[k].id].(length := r[k].length, charType := r[k].charType, level := r[k].level,
                next := NextId(r, k, roller))
  }

  /** Stores the first `n` spans of the ring into their links. Links the
      passes folded into a predecessor are not among them and keep their
      old contents. */
  function WriteBack(a: Arena, r: seq<Span>, roller: int, n: nat): (b: Arena)
    requires n <= |r| && IdsIn(a, r)
    ensures |b| == |a|
    ensures forall x :: 0 <= x < |a| && (forall k :: 0 <= k < n ==> r[k].id != x) ==> b[x] == a[x]
  {
    if n == 0 then a
    else
      var b := WriteBack(a, r, roller, n - 1);
      b[r[n - 1].id := Written(a, r, n - 1, roller)]
  }

  /** Each of the first `n` links holds what its span says. */
  predicate StoresUpTo(a: Arena, r: seq<Span>, roller: int, n: nat)
    requires n <= |r| && IdsIn(a, r)
  {
    forall k :: 0 <= k < n ==> WriteBack(a, r, roller, n)[r[k].id] == Written(a, r, k, roller)
  }

  /** With distinct identities, each of the first `n` links holds what its
      span says. */
  lemma {:induction false} WriteBackStores(a: Arena, r: seq<Span>, roller: int, n: nat)
    requires n <= |r| && IdsIn(a, r) && DistinctIds(r)
    ensures StoresUpTo(a, r, roller, n)
  {
    if n > 0 {
      var m := n - 1;
      WriteBackStores(a, r, roller, m);
      WriteBackStep(a, r, roller, m);
    }
  }

  /** Storing span `m` keeps what the earlier spans stored. */
  lemma WriteBackStep(a: Arena, r: seq<Span>, roller: int, m: nat)
    requires m < |r| && IdsIn(a, r) && DistinctIds(r)
    requires StoresUpTo(a, r, roller, m)
    ensures StoresUpTo(a, r, roller, m + 1)
  {
    var b := WriteBack(a, r, roller, m + 1);
    assert b == WriteBack(a, r, roller, m)[r[m].id := Written(a, r, m, roller)];
    forall k | 0 <= k < m + 1
      ensures b[r[k].id] == Written(a, r, k, roller)
    {
      if k < m {
        assert r[k].id != r[m].id;
      }
    }
  }

  /** AttachOriginalLinks: every run's last link points again at the link
      that followed the run in the chain. */
  function AttachOriginalLinks(a: Arena, runs: seq<LevelRun>): (r: Arena)
    requires LastLinksIn(a, runs)
    ensures |r| == |a|
  {
    RelinkFrom(a, runs, Subsequents(runs), 0)
  }

  /** The end of Resolve, for a resolved ring `r` of the spliced arena:
      write the ring back, re-attach the runs' last links, and point the
      final surviving link at what followed the last run. */
  function Restore(spliced: Arena, r: seq<Span>, roller: int, runs: seq<LevelRun>): (b: Arena)
    requires Restorable(spliced, r, runs)
    ensures |b| == |spliced|
  {
    var written := WriteBack(spliced, r, roller, |r|);
    var attached := AttachOriginalLinks(written, runs);
    ReplaceNext(attached, r[|r| - 1].id, runs[|runs| - 1].subsequentLink)
  }

  /** The chain `b` left behind by a resolved sequence whose links were `a`,
      whose surviving links are `r`: links outside the sequence are
      untouched; every survivor keeps its offset and carries its resolved
      length, type and level; it points at the next survivor unless it is a
      run's last link, which points at the link that followed its run; the
      final survivor points at the link that followed the last run. */
  predicate Restored(a: Arena, b: Arena, r: seq<Span>, roller: int, runs: seq<LevelRun>, order: seq<int>) {
    && |b| == |a| && |r| > 0 && |runs| > 0 && IdsIn(a, r) && LastLinksIn(a, runs)
    && (forall x :: 0 <= x < |a| && x != roller && x !in order ==> b[x] == a[x])
    && (forall k :: 0 <= k < |r| ==>
          && b[r[k].id].offset == a[r[k].id].offset
          && b[r[k].id].length == r[k].length
          && b[r[k].id].charType == r[k].charType
          && b[r[k].id].level == r[k].level)
    && (forall k :: 0 <= k < |r| - 1 && !IsLastLink(runs, r[k].id) ==> b[r[k].id].next == r[k + 1].id)
    && (forall j :: 0 <= j < |runs| && runs[j].lastLink != r[|r| - 1].id ==>
          b[runs[j].lastLink].next == runs[j].subsequentLink)
    && b[r[|r| - 1].id].next == runs[|runs| - 1].subsequentLink
  }

  /** What Restore needs of a ring: at least one span, each naming a
      distinct link of the arena, and last links of distinct runs. */
  predicate Restorable(spliced: Arena, r: seq<Span>, runs: seq<LevelRun>) {
    && |r| > 0 && IdsIn(spliced, r) && DistinctIds(r)
    && |runs| > 0 && LastLinksIn(spliced, runs)
    && forall j, m :: 0 <= j < m < |runs| ==> runs[j].lastLink != runs[m].lastLink
  }

  /** Restore touches only the `next` field of a survivor: the rest is what
      its span says. */
  lemma RestoreFields(spliced: Arena, r: seq<Span>, roller: int, runs: seq<LevelRun>, k: nat)
    requires Restorable(spliced, r, runs) && k < |r|
    ensures var b := Restore(spliced, r, roller, runs);
            b[r[k].id] == Written(spliced, r, k, roller).(next := b[r[k].id].next)
  {
    WriteBackStores(spliced, r, roller, |r|);
  }

  /** A link that is neither a survivor nor a run's last link keeps what
      the splice left in it. */
  lemma RestoreFrame(spliced: Arena, r: seq<Span>, roller: int, runs: seq<LevelRun>, x: int)
    requires Restorable(spliced, r, runs) && 0 <= x < |spliced|
    requires x !in IdSet(r) && !IsLastLink(runs, x)
    ensures Restore(spliced, r, roller, runs)[x] == spliced[x]
  {
    assert forall k :: 0 <= k < |r| ==> r[k].id != x;
  }

  /** A survivor that is no run's last link points at the next survivor. */
  lemma RestoreInnerNext(spliced: Arena, r: seq<Span>, roller: int, runs: seq<LevelRun>, k: nat)
    requires Restorable(spliced, r, runs) && k < |r| - 1 && !IsLastLink(runs, r[k].id)
    ensures Restore(spliced, r, roller, runs)[r[k].id].next == r[k + 1].id
  {
    WriteBackStores(spliced, r, roller, |r|);
    assert r[k].id != r[|r| - 1].id;
  }

  /** A run's last link points at what followed its run, unless it is the
      final survivor. */
  lemma RestoreLastLinkNext(spliced: Arena, r: seq<Span>, roller: int, runs: seq<LevelRun>, j: nat)
    requires Restorable(spliced, r, runs) && j < |runs| && runs[j].lastLink != r[|r| - 1].id
    ensures Restore(spliced, r, roller, runs)[runs[j].lastLink].next == runs[j].subsequentLink
  {
    RelinkFromTargets(WriteBack(spliced, r, roller, |r|), runs, Subsequents(runs), 0);
  }

  /** Restore leaves the chain described by `Restored`, for any ring of
      distinct links of the sequence, whatever the passes did to it. */
  lemma RestoreRestores(a: Arena, spliced: Arena, r: seq<Span>, roller: int, runs: seq<LevelRun>, order: seq<int>)
    requires |spliced| == |a| && forall x :: 0 <= x < |a| ==> spliced[x] == a[x].(next := spliced[x].next)
    requires forall x :: 0 <= x < |a| && x != roller && x !in order ==> spliced[x] == a[x]
    requires Restorable(spliced, r, runs)
    requires forall k :: 0 <= k < |r| ==> r[k].id in order
    requires forall j :: 0 <= j < |runs| ==> runs[j].lastLink in order
    ensures Restored(a, Restore(spliced, r, roller, runs), r, roller, runs, order)
  {
    var b := Restore(spliced, r, roller, runs);
    forall k | 0 <= k < |r|
      ensures b[r[k].id].offset == a[r[k].id].offset && b[r[k].id].length == r[k].length
      ensures b[r[k].id].charType == r[k].charType && b[r[k].id].level == r[k].level
    {
      RestoreFields(spliced, r, roller, runs, k);
    }
    forall k | 0 <= k < |r| - 1 && !IsLastLink(runs, r[k].id) ensures b[r[k].id].next == r[k + 1].id {
      RestoreInnerNext(spliced, r, roller, runs, k);
    }
    forall j | 0 <= j < |runs| && runs[j].lastLink != r[|r| - 1].id
      ensures b[runs[j].lastLink].next == runs[j].subsequentLink
    {
      RestoreLastLinkNext(spliced, r, roller, runs, j);
    }
    forall x | 0 <= x < |a| && x != roller && x !in order ensures b[x] == a[x] {
      RestoreFrame(spliced, r, roller, runs, x);
    }
  }

  /** What resolving a sequence needs: its layout in the chain, links that
      carry chain types and lie inside the text. */
  predicate Resolvable(a: Arena, roller: int, runs: seq<LevelRun>, order: seq<int>, starts: seq<nat>, text: string) {
    && Layout(a, roller, runs, order, starts)
    && (forall k :: 0 <= k < |order| ==> WeakRules.IsChainType(a[order[k]].charType))
    && (forall k :: 0 <= k < |order| ==> 0 <= a[order[k]].offset < |text|)
  }

  /** The ring of a resolvable sequence satisfies what the passes need. */
  lemma WalkIsRingInput(a: Arena, roller: int, runs: seq<LevelRun>, order: seq<int>, starts: seq<nat>,
                        text: string, paragraphLevel: Byte)
    requires Resolvable(a, roller, runs, order, starts, text) && LastLinksIn(a, runs)
    ensures RingInput(Walk(Splice(a, roller, runs), order), text, SOR(runs[0]), Eos(runs, paragraphLevel))
  {
  }

  /** The resolved ring: the links that survive, in order, with their final
      lengths, types and levels. */
  function ResolvedRing(a: Arena, roller: int, runs: seq<LevelRun>, order: seq<int>, starts: seq<nat>,
                        text: string, pairing: char -> BracketRules.Bracket, paragraphLevel: Byte): seq<Span>
    requires Resolvable(a, roller, runs, order, starts, text)
  {
    LastLinksDistinct(a, roller, runs, order, starts);
    WalkIsRingInput(a, roller, runs, order, starts, text, paragraphLevel);
    var s := Walk(Splice(a, roller, runs), order);
    ResolveRing(s, text, pairing, SOR(runs[0]), Eos(runs, paragraphLevel), runs[0].level)
  }

  /** The walk covers as many characters as the links it visits. */
  lemma {:induction false} WalkLength(a: Arena, spliced: Arena, order: seq<int>)
    requires InArena(a, order) && |spliced| == |a|
    requires forall k :: 0 <= k < |order| ==> a[order[k]].length >= 0
    requires forall x :: 0 <= x < |a| ==> spliced[x] == a[x].(next := spliced[x].next)
    ensures Spans.TotalLength(Walk(spliced, order)) == BidiLink.TotalLength(a, order)
    decreases |order|
  {
    if |order| > 0 {
      var m := |order| - 1;
      WalkLength(a, spliced, order[..m]);
      assert Walk(spliced, order)[..m] == Walk(spliced, order[..m]);
    }
  }

  /** The resolved ring starts with the sequence's first link, holds each of
      the sequence's links at most once, covers as many characters as the
      sequence, and carries only L, R, EN and AN. */
  lemma ResolvedRingShape(a: Arena, roller: int, runs: seq<LevelRun>, order: seq<int>, starts: seq<nat>,
                          text: string, pairing: char -> BracketRules.Bracket, paragraphLevel: Byte)
    requires Resolvable(a, roller, runs, order, starts, text)
    ensures var r := ResolvedRing(a, roller, runs, order, starts, text, pairing, paragraphLevel);
            && |r| > 0 && r[0].id == order[0]
            && DistinctIds(r)
            && (forall k :: 0 <= k < |r| ==> r[k].id in order)
            && Spans.TotalLength(r) == BidiLink.TotalLength(a, order)
            && (forall k :: 0 <= k < |r| ==> ImplicitRules.IsImplicitInput(r[k].charType))
  {
    LastLinksDistinct(a, roller, runs, order, starts);
    WalkIsRingInput(a, roller, runs, order, starts, text, paragraphLevel);
    var spliced := Splice(a, roller, runs);
    var s := Walk(spliced, order);
    WalkLength(a, spliced, order);
    ResolveRingKeepsLength(s, text, pairing, SOR(runs[0]), Eos(runs, paragraphLevel), runs[0].level);
    ResolveRingKeepsIds(s, text, pairing, SOR(runs[0]), Eos(runs, paragraphLevel), runs[0].level);
    var r := ResolvedRing(a, roller, runs, order, starts, text, pairing, paragraphLevel);
    forall k | 0 <= k < |r| ensures r[k].id in order {
      assert r[k].id in IdSet(s);
    }
  }

  /** A ring of distinct links of the sequence, starting anywhere, is fit
      for Restore on the spliced arena. */
  lemma RingFits(a: Arena, roller: int, runs: seq<LevelRun>, order: seq<int>, starts: seq<nat>, r: seq<Span>)
    requires Layout(a, roller, runs, order, starts)
    requires |r| > 0 && DistinctIds(r) && forall k :: 0 <= k < |r| ==> r[k].id in order
    ensures LastLinksIn(a, runs)
    ensures Restorable(Splice(a, roller, runs), r, runs)
  {
    LastLinksDistinct(a, roller, runs, order, starts);
  }

  /** Resolve: splice, run the rules, write the ring back, re-attach every
      run's last link to its original successor and the ring's final link to
      what followed the last run. */
  function Resolve(a: Arena, roller: int, runs: seq<LevelRun>, order: seq<int>, starts: seq<nat>,
                   text: string, pairing: char -> BracketRules.Bracket, paragraphLevel: Byte): (b: Arena)
    requires Resolvable(a, roller, runs, order, starts, text)
    ensures |b| == |a|
  {
    ResolvedRingShape(a, roller, runs, order, starts, text, pairing, paragraphLevel);
    RingFits(a, roller, runs, order, starts, ResolvedRing(a, roller, runs, order, starts, text, pairing, paragraphLevel));
    Restore(Splice(a, roller, runs), ResolvedRing(a, roller, runs, order, starts, text, pairing, paragraphLevel), roller, runs)
  }

  /** Resolving a sequence leaves the chain `Restored` describes, for the
      ring of surviving links the passes produce. */
  lemma ResolveRestoresChain(a: Arena, roller: int, runs: seq<LevelRun>, order: seq<int>, starts: seq<nat>,
                             text: string, pairing: char -> BracketRules.Bracket, paragraphLevel: Byte)
    requires Resolvable(a, roller, runs, order, starts, text)
    ensures Restored(a, Resolve(a, roller, runs, order, starts, text, pairing, paragraphLevel),
                     ResolvedRing(a, roller, runs, order, starts, text, pairing, paragraphLevel), roller, runs, order)
  {
    SpliceFormsRing(a, roller, runs, order, starts);
    LastLinksDistinct(a, roller, runs, order, starts);
    ResolvedRingShape(a, roller, runs, order, starts, text, pairing, paragraphLevel);
    RingFits(a, roller, runs, order, starts, ResolvedRing(a, roller, runs, order, starts, text, pairing, paragraphLevel));
    RestoreRestores(a, Splice(a, roller, runs), ResolvedRing(a, roller, runs, order, starts, text, pairing, paragraphLevel),
                    roller, runs, order);
  }
}
