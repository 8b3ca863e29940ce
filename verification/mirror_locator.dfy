/** The mirror cursor of rule L4 of UAX #9 (section 3.4): it walks the runs
    of a line in visual order and, inside every right-to-left (odd level)
    run, reports each character that has a mirrored glyph together with
    that glyph's code point.

    The mirroring table is not part of the model: `mirrors` gives, for
    every character of the line's text, the code point its mirror lookup
    returns, 0 standing for "no mirror".

    Both cursors look the character at position `i` of a run up at index
    `i` of the paragraph text, as the source does, although run positions
    count from the start of the line; `Matches` is the pass that looks up
    the line's own characters instead. */
module MirrorLocator {
  import opened BidiTypes
  import opened Line

  /** What a successful step reports: the character's position in the line
      and the code point of its mirror. */
  datatype MirrorAgent = MirrorAgent(index: int, mirror: int)

  /** One reported character: the visual run it belongs to, its position
      in the line and its mirror. */
  datatype Match = Match(run: int, index: int, mirror: int)

  predicate IsOdd(level: Byte) {
    level % 2 == 1
  }

  function Limit(x: Run): int {
    x.offset + x.length
  }

  /** The line is well formed, the mirror table covers its text, and the
      lookups start at `origin`, so that position `i` of the line is
      looked up at `origin + i`. */
  predicate Fits(line: LineData, mirrors: seq<int>, origin: int) {
    && ValidLine(line)
    && |mirrors| == |line.text|
    && 0 <= origin && origin + line.length <= |mirrors|
  }

  /** A scanning position: run `r` (or past the last run) and character
      `i` of that run, up to its limit. */
  predicate At(runs: seq<Run>, r: int, i: int) {
    0 <= r <= |runs| && (r < |runs| ==> runs[r].offset <= i <= Limit(runs[r]))
  }

  function Remaining(runs: seq<Run>, r: int, i: int): int {
    if 0 <= r < |runs| then Limit(runs[r]) - i else 0
  }

  /** The characters still to be reported from scanning position `(r, i)`
      on: the mirrorable characters of the odd runs, run after run. */
  function Pending(line: LineData, mirrors: seq<int>, origin: int, r: int, i: int): seq<Match>
    requires Fits(line, mirrors, origin) && At(line.runs, r, i)
    decreases |line.runs| - r, Remaining(line.runs, r, i)
  {
    var runs := line.runs;
    if r == |runs| then []
    else if IsOdd(runs[r].level) && i < Limit(runs[r]) then
      var m := mirrors[origin + i];
      (if m != 0 then [Match(r, i, m)] else []) + Pending(line, mirrors, origin, r, i + 1)
    else if r + 1 < |runs| then Pending(line, mirrors, origin, r + 1, runs[r + 1].offset)
    else []
  }

  /** Everything one pass over the line reports when each position is
      looked up at the line's own character. */
  function Matches(line: LineData, mirrors: seq<int>): seq<Match>
    requires Fits(line, mirrors, line.offset)
  {
    PassFrom(line, mirrors, line.offset)
  }

  /** The pass as written: the lookup reads the paragraph text at the
      line-relative position, as if every line started the paragraph. */
  function MatchesAsWritten(line: LineData, mirrors: seq<int>): seq<Match>
    requires Fits(line, mirrors, 0)
  {
    PassFrom(line, mirrors, 0)
  }

  /** The cursor's run and character fields: the character field is -1 at
      the start of a run, otherwise a position inside an odd run. */
  predicate ValidCursor(runs: seq<Run>, runIndex: int, charIndex: int) {
    && 0 <= runIndex <= |runs|
    && (charIndex == -1 || (runIndex < |runs| && At(runs, runIndex, charIndex)))
  }

  /** The scanning position the cursor stands for. */
  function Effective(runs: seq<Run>, runIndex: int, charIndex: int): int {
    if charIndex != -1 then charIndex
    else if 0 <= runIndex < |runs| then runs[runIndex].offset
    else 0
  }

  /** The scan shared by both cursors: from the cursor on, finds the next
      mirrorable character of an odd run. On success the cursor stands
      just after it and what is left to report is the rest; otherwise the
      cursor is past the last run and the agent is untouched. */
  method Scan(line: LineData, mirrors: seq<int>, origin: int, runIndex: int, charIndex: int, agent: MirrorAgent)
    returns (found: bool, nextRun: int, nextChar: int, nextAgent: MirrorAgent)
    requires Fits(line, mirrors, origin) && ValidCursor(line.runs, runIndex, charIndex)
    ensures var ms := Pending(line, mirrors, origin, runIndex, Effective(line.runs, runIndex, charIndex));
            && found == (|ms| > 0)
            && (found ==> && nextAgent == MirrorAgent(ms[0].index, ms[0].mirror)
                          && nextRun == ms[0].run && nextChar == ms[0].index + 1
                          && ValidCursor(line.runs, nextRun, nextChar)
                          && Pending(line, mirrors, origin, nextRun, Effective(line.runs, nextRun, nextChar)) == ms[1..])
            && (!found ==> nextRun == |line.runs| && nextChar == -1 && nextAgent == agent)
  {
    hide Pending;
    var runs := line.runs;
    ghost var ms := Pending(line, mirrors, origin, runIndex, Effective(runs, runIndex, charIndex));
    nextRun, nextChar, nextAgent := runIndex, charIndex, agent;
    var runCount := |runs|;
    while nextRun < runCount
      invariant ValidCursor(runs, nextRun, nextChar)
      invariant Pending(line, mirrors, origin, nextRun, Effective(runs, nextRun, nextChar)) == ms
      invariant nextAgent == agent
    {
      var run := runs[nextRun];
      ghost var here := Effective(runs, nextRun, nextChar);
      if IsOdd(run.level) {
        var index := nextChar;
        if index == -1 {
          index := run.offset;
        }
        assert index == here;
        var hit, at := ScanRun(line, mirrors, origin, nextRun, index);
        if hit {
          CursorAfterHit(line, mirrors, origin, nextRun, at);
          nextChar := at + 1;
          nextAgent := MirrorAgent(at, mirrors[origin + at]);
          return true, nextRun, nextChar, nextAgent;
        }
        PendingNextRun(line, mirrors, origin, nextRun, at);
      } else {
        PendingNextRun(line, mirrors, origin, nextRun, here);
      }
      assert Pending(line, mirrors, origin, nextRun + 1, Effective(runs, nextRun + 1, -1)) == ms;
      nextChar := -1;
      nextRun := nextRun + 1;
    }
    PendingPastLastRun(line, mirrors, origin, Effective(runs, nextRun, nextChar));
    return false, nextRun, nextChar, nextAgent;
  }

  /** The inner scan over odd run `r` from position `start`: finds the
      first mirrorable character, or reaches the run's limit. */
  method ScanRun(line: LineData, mirrors: seq<int>, origin: int, r: int, start: int) returns (hit: bool, at: int)
    requires Fits(line, mirrors, origin) && At(line.runs, r, start) && r < |line.runs|
    requires IsOdd(line.runs[r].level)
    ensures start <= at <= Limit(line.runs[r])
    ensures hit ==> at < Limit(line.runs[r]) && mirrors[origin + at] != 0
    ensures hit ==> Pending(line, mirrors, origin, r, start) ==
                      [Match(r, at, mirrors[origin + at])] + Pending(line, mirrors, origin, r, at + 1)
    ensures !hit ==> at == Limit(line.runs[r])
    ensures !hit ==> Pending(line, mirrors, origin, r, start) == Pending(line, mirrors, origin, r, at)
  {
    var run := line.runs[r];
    var limit := run.offset + run.length;
    at := start;
    while at < limit
      invariant start <= at <= limit
      invariant Pending(line, mirrors, origin, r, start) == Pending(line, mirrors, origin, r, at)
    {
      var mirror := mirrors[origin + at];
      PendingAtChar(line, mirrors, origin, r, at);
      if mirror != 0 {
        return true, at;
      }
      at := at + 1;
    }
    return false, at;
  }

  /** Past the last run nothing is left to report. */
  lemma PendingPastLastRun(line: LineData, mirrors: seq<int>, origin: int, i: int)
    requires Fits(line, mirrors, origin)
    ensures Pending(line, mirrors, origin, |line.runs|, i) == []
  {
  }

  /** Just after a reported character the cursor is valid and stands at
      the next position of the same run. */
  lemma CursorAfterHit(line: LineData, mirrors: seq<int>, origin: int, r: int, at: int)
    requires Fits(line, mirrors, origin) && 0 <= r < |line.runs|
    requires line.runs[r].offset <= at < Limit(line.runs[r])
    ensures ValidCursor(line.runs, r, at + 1)
    ensures Effective(line.runs, r, at + 1) == at + 1
  {
  }

  /** A character of an odd run is reported when it is mirrorable, and
      scanning moves on to the next character. */
  lemma PendingAtChar(line: LineData, mirrors: seq<int>, origin: int, r: int, i: int)
    requires Fits(line, mirrors, origin) && At(line.runs, r, i) && r < |line.runs|
    requires IsOdd(line.runs[r].level) && i < Limit(line.runs[r])
    ensures var m := mirrors[origin + i];
            Pending(line, mirrors, origin, r, i) ==
              (if m != 0 then [Match(r, i, m)] else []) + Pending(line, mirrors, origin, r, i + 1)
  {
  }

  /** At the end of a run, or anywhere in an even run, scanning moves on to
      the start of the next run. */
  lemma PendingNextRun(line: LineData, mirrors: seq<int>, origin: int, r: int, i: int)
    requires Fits(line, mirrors, origin) && At(line.runs, r, i) && r < |line.runs|
    requires !IsOdd(line.runs[r].level) || i == Limit(line.runs[r])
    ensures Pending(line, mirrors, origin, r, i) ==
              Pending(line, mirrors, origin, r + 1, Effective(line.runs, r + 1, -1))
  {
  }

  // ---------------------------------------------------------------------
  // What a pass reports.
  // ---------------------------------------------------------------------

  /** Every reported character lies in an odd run, at or after the scanning
      position, and carries its own nonzero mirror. */
  predicate Sound(line: LineData, mirrors: seq<int>, origin: int, m: Match)
    requires Fits(line, mirrors, origin)
  {
    && 0 <= m.run < |line.runs|
    && IsOdd(line.runs[m.run].level)
    && line.runs[m.run].offset <= m.index < Limit(line.runs[m.run])
    && m.mirror == mirrors[origin + m.index] != 0
  }

  /** Strictly increasing in (run, position): no character is reported
      twice, and within a run positions increase. */
  predicate Ordered(ms: seq<Match>) {
    forall p, q :: 0 <= p < q < |ms| ==>
      ms[p].run < ms[q].run || (ms[p].run == ms[q].run && ms[p].index < ms[q].index)
  }

  /** `m` comes at or after scanning position `(r, i)`. */
  predicate NotBefore(m: Match, r: int, i: int) {
    m.run > r || (m.run == r && m.index >= i)
  }

  lemma {:induction false} PendingSound(line: LineData, mirrors: seq<int>, origin: int, r: int, i: int)
    requires Fits(line, mirrors, origin) && At(line.runs, r, i)
    ensures forall k :: 0 <= k < |Pending(line, mirrors, origin, r, i)| ==>
              && Sound(line, mirrors, origin, Pending(line, mirrors, origin, r, i)[k])
              && NotBefore(Pending(line, mirrors, origin, r, i)[k], r, i)
    decreases |line.runs| - r, Remaining(line.runs, r, i)
  {
    var runs := line.runs;
    var ps := Pending(line, mirrors, origin, r, i);
    if r < |runs| {
      if IsOdd(runs[r].level) && i < Limit(runs[r]) {
        var m := mirrors[origin + i];
        var head := if m != 0 then [Match(r, i, m)] else [];
        var rest := Pending(line, mirrors, origin, r, i + 1);
        assert ps == head + rest;
        PendingSound(line, mirrors, origin, r, i + 1);
        forall k | 0 <= k < |ps|
          ensures Sound(line, mirrors, origin, ps[k]) && NotBefore(ps[k], r, i)
        {
          if k >= |head| {
            assert ps[k] == rest[k - |head|];
          }
        }
      } else if r + 1 < |runs| {
        PendingSound(line, mirrors, origin, r + 1, runs[r + 1].offset);
      }
    }
  }

  lemma {:induction false} PendingOrdered(line: LineData, mirrors: seq<int>, origin: int, r: int, i: int)
    requires Fits(line, mirrors, origin) && At(line.runs, r, i)
    ensures Ordered(Pending(line, mirrors, origin, r, i))
    decreases |line.runs| - r, Remaining(line.runs, r, i)
  {
    var runs := line.runs;
    if r < |runs| {
      if IsOdd(runs[r].level) && i < Limit(runs[r]) {
        PendingOrdered(line, mirrors, origin, r, i + 1);
        PendingSound(line, mirrors, origin, r, i + 1);
      } else if r + 1 < |runs| {
        PendingOrdered(line, mirrors, origin, r + 1, runs[r + 1].offset);
      }
    }
  }

  /** Every mirrorable character of an odd run at or after the scanning
      position is still to be reported. */
  lemma {:induction false} PendingComplete(line: LineData, mirrors: seq<int>, origin: int, r: int, i: int, m: Match)
    requires Fits(line, mirrors, origin) && At(line.runs, r, i)
    requires Sound(line, mirrors, origin, m) && NotBefore(m, r, i)
    ensures m in Pending(line, mirrors, origin, r, i)
    decreases |line.runs| - r, Remaining(line.runs, r, i)
  {
    var runs := line.runs;
    if IsOdd(runs[r].level) && i < Limit(runs[r]) {
      if m.run != r || m.index != i {
        PendingComplete(line, mirrors, origin, r, i + 1, m);
      }
    } else if r + 1 < |runs| {
      PendingComplete(line, mirrors, origin, r + 1, runs[r + 1].offset, m);
    }
  }

  /** The characters a pass from the first run reports, looking up
      position `i` of the line at `origin + i`. */
  function PassFrom(line: LineData, mirrors: seq<int>, origin: int): seq<Match>
    requires Fits(line, mirrors, origin)
  {
    Pending(line, mirrors, origin, 0, if |line.runs| > 0 then line.runs[0].offset else 0)
  }

  /** A pass reports exactly the mirrorable characters of the odd runs,
      each with the mirror found at its lookup position, each once, in run
      order and left to right within a run. */
  lemma PassExact(line: LineData, mirrors: seq<int>, origin: int, m: Match)
    requires Fits(line, mirrors, origin)
    ensures m in PassFrom(line, mirrors, origin) <==> Sound(line, mirrors, origin, m)
    ensures Ordered(PassFrom(line, mirrors, origin))
  {
    var start := if |line.runs| > 0 then line.runs[0].offset else 0;
    PendingSound(line, mirrors, origin, 0, start);
    PendingOrdered(line, mirrors, origin, 0, start);
    if Sound(line, mirrors, origin, m) {
      if m.run == 0 {
        assert NotBefore(m, 0, start);
      }
      PendingComplete(line, mirrors, origin, 0, start, m);
    }
  }

  /** With the lookup at the line's own characters, a pass reports exactly
      the mirrorable characters of the odd runs, each once, in order. */
  lemma MatchesExact(line: LineData, mirrors: seq<int>, m: Match)
    requires Fits(line, mirrors, line.offset)
    ensures m in Matches(line, mirrors) <==> Sound(line, mirrors, line.offset, m)
    ensures Ordered(Matches(line, mirrors))
  {
    PassExact(line, mirrors, line.offset, m);
  }

  /** The pass as written reports exactly the positions of the odd runs
      whose character at the same index of the paragraph text is
      mirrorable, each once, in order; on a line that starts its paragraph
      these are the line's own mirrorable characters. */
  lemma MatchesAsWrittenExact(line: LineData, mirrors: seq<int>, m: Match)
    requires Fits(line, mirrors, 0)
    ensures m in MatchesAsWritten(line, mirrors) <==> Sound(line, mirrors, 0, m)
    ensures Ordered(MatchesAsWritten(line, mirrors))
    ensures line.offset == 0 ==> MatchesAsWritten(line, mirrors) == Matches(line, mirrors)
  {
    PassExact(line, mirrors, 0, m);
  }

  /** The lookup as written reads the wrong character on a line that does
      not start its paragraph: in the text `a(` the line holding only `(`
      at an odd level has one mirrorable character, yet the pass as written
      looks up `a` and reports nothing. */
  lemma MatchesAsWrittenMissesLineText()
    ensures var line := LineData("a(", 1, 1, [Run(0, 1, 1)]);
            && Fits(line, [0, 41], line.offset) && Fits(line, [0, 41], 0)
            && Matches(line, [0, 41]) == [Match(0, 0, 41)]
            && MatchesAsWritten(line, [0, 41]) == []
  {
    var line := LineData("a(", 1, 1, [Run(0, 1, 1)]);
    assert Pending(line, [0, 41], 1, 0, 1) == [];
    assert Pending(line, [0, 41], 0, 0, 1) == [];
  }

  // ---------------------------------------------------------------------
  // The resettable cursor.
  // ---------------------------------------------------------------------

  /** The cursor: the loaded line, the run and character fields, and the
      agent of the last success. */
  datatype Locator = Locator(line: LineData, runIndex: int, charIndex: int, agent: MirrorAgent)

  /** LoadLine, and Reset on a loaded line: back to the first run, with the
      agent cleared. */
  function LoadLine(line: LineData): (loc: Locator)
    ensures loc.line == line && loc.runIndex == 0 && loc.charIndex == -1
    ensures loc.agent == MirrorAgent(-1, 0)
  {
    Locator(line, 0, -1, MirrorAgent(-1, 0))
  }

  function Reset(loc: Locator): (r: Locator)
    ensures r == LoadLine(loc.line)
  {
    loc.(runIndex := 0, charIndex := -1, agent := MirrorAgent(-1, 0))
  }

  /** The cursor looks position `i` of a run up at index `i` of the text,
      as the source does. */
  predicate ValidLocator(loc: Locator, mirrors: seq<int>) {
    Fits(loc.line, mirrors, 0) && ValidCursor(loc.line.runs, loc.runIndex, loc.charIndex)
  }

  /** What the cursor has still to report in this pass. */
  function Left(loc: Locator, mirrors: seq<int>): seq<Match>
    requires ValidLocator(loc, mirrors)
  {
    Pending(loc.line, mirrors, 0, loc.runIndex, Effective(loc.line.runs, loc.runIndex, loc.charIndex))
  }

  /** A freshly loaded or reset cursor has the whole pass ahead of it. */
  lemma LoadLineStartsPass(line: LineData, mirrors: seq<int>)
    requires Fits(line, mirrors, 0)
    ensures ValidLocator(LoadLine(line), mirrors)
    ensures Left(LoadLine(line), mirrors) == MatchesAsWritten(line, mirrors)
  {
  }

  /** MoveNext: reports the next character of the pass and drops it from
      what is left; when nothing is left, answers false and resets, so the
      next call starts a new pass. */
  method MoveNext(loc: Locator, mirrors: seq<int>) returns (found: bool, next: Locator)
    requires ValidLocator(loc, mirrors)
    ensures ValidLocator(next, mirrors) && next.line == loc.line
    ensures var ms := Left(loc, mirrors);
            && found == (|ms| > 0)
            && (found ==> next.agent == MirrorAgent(ms[0].index, ms[0].mirror) && Left(next, mirrors) == ms[1..])
            && (!found ==> next == LoadLine(loc.line))
  {
    var r, c, agent;
    found, r, c, agent := Scan(loc.line, mirrors, 0, loc.runIndex, loc.charIndex, loc.agent);
    next := Locator(loc.line, r, c, agent);
    if !found {
      next := Reset(next);
    }
  }
}

/** The enumerator version of the mirror cursor: each enumeration starts
    afresh, and an exhausted enumerator stays exhausted; it cannot be
    reset. */
module MirrorAdapter {
  import opened BidiTypes
  import opened Line
  import opened MirrorLocator

  datatype Enumerator = Enumerator(line: LineData, runIndex: int, charIndex: int, agent: MirrorAgent)

  /** GetEnumerator: a new enumerator at the first run. The agent holds the
      defaults of its fields until the first success. */
  function GetEnumerator(line: LineData): (e: Enumerator)
    ensures e.line == line && e.runIndex == 0 && e.charIndex == -1
  {
    Enumerator(line, 0, -1, MirrorAgent(0, 0))
  }

  /** Like the resettable cursor, the enumerator looks position `i` up at
      index `i` of the text. */
  predicate ValidEnumerator(e: Enumerator, mirrors: seq<int>) {
    Fits(e.line, mirrors, 0) && ValidCursor(e.line.runs, e.runIndex, e.charIndex)
  }

  function EnumLeft(e: Enumerator, mirrors: seq<int>): seq<Match>
    requires ValidEnumerator(e, mirrors)
  {
    Pending(e.line, mirrors, 0, e.runIndex, Effective(e.line.runs, e.runIndex, e.charIndex))
  }

  /** Every enumeration has the whole pass ahead of it. */
  lemma GetEnumeratorStartsPass(line: LineData, mirrors: seq<int>)
    requires Fits(line, mirrors, 0)
    ensures ValidEnumerator(GetEnumerator(line), mirrors)
    ensures EnumLeft(GetEnumerator(line), mirrors) == MatchesAsWritten(line, mirrors)
  {
  }

  /** MoveNext: reports the next character and drops it from what is left;
      once nothing is left it answers false and stays past the last run
      with the last agent. */
  method EnumMoveNext(e: Enumerator, mirrors: seq<int>) returns (found: bool, next: Enumerator)
    requires ValidEnumerator(e, mirrors)
    ensures ValidEnumerator(next, mirrors) && next.line == e.line
    ensures var ms := EnumLeft(e, mirrors);
            && found == (|ms| > 0)
            && (found ==> next.agent == MirrorAgent(ms[0].index, ms[0].mirror) && EnumLeft(next, mirrors) == ms[1..])
            && (!found ==> next.runIndex == |e.line.runs| && next.agent == e.agent && EnumLeft(next, mirrors) == [])
  {
    var r, c, agent;
    found, r, c, agent := Scan(e.line, mirrors, 0, e.runIndex, e.charIndex, e.agent);
    next := Enumerator(e.line, r, c, agent);
  }

  /** An exhausted enumerator answers false again and does not move. */
  method ExhaustedStaysExhausted(e: Enumerator, mirrors: seq<int>) returns (found: bool, next: Enumerator)
    requires ValidEnumerator(e, mirrors) && EnumLeft(e, mirrors) == []
    ensures !found && next == e.(charIndex := -1, runIndex := |e.line.runs|)
  {
    found, next := EnumMoveNext(e, mirrors);
  }

  /** Reset is not supported: it always fails. */
  function EnumReset(e: Enumerator): (r: Result<Enumerator>)
    ensures r.Fault?
  {
    Fault("Specified method is not supported.")
  }
}
