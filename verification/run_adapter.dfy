/** The run cursor: hands out the runs of a line, in visual order, one per
    step, and starts over after the last one. */
module RunAdapter {
  import opened BidiTypes
  import opened Line

  /** What a step reports: a run's offset in the line, length and level. */
  datatype RunAgent = RunAgent(offset: int, length: int, level: Byte)

  /** The agent of a reset cursor: no run, level 255. */
  const NoRun := RunAgent(-1, 0, 255)

  /** The cursor: the loaded line, the index of the next run and the agent
      of the last step. */
  datatype Adapter = Adapter(line: LineData, index: int, agent: RunAgent)

  predicate ValidAdapter(ad: Adapter) {
    0 <= ad.index <= |ad.line.runs|
  }

  /** LoadLine: the line, at its first run, with the agent cleared. */
  function LoadLine(line: LineData): (ad: Adapter)
    ensures ad.line == line && ad.index == 0 && ad.agent == NoRun
  {
    Adapter(line, 0, NoRun)
  }

  function Reset(ad: Adapter): (r: Adapter)
    ensures r == LoadLine(ad.line)
  {
    ad.(index := 0, agent := NoRun)
  }

  function AgentOf(x: Run): RunAgent {
    RunAgent(x.offset, x.length, x.level)
  }

  /** The outcome of one step: whether a run was handed out, and the
      cursor after it. */
  datatype Step = Step(found: bool, next: Adapter)

  /** MoveNext: hands out the next run, or answers false and resets when
      every run has been handed out. */
  function MoveNext(ad: Adapter): (r: Step)
    requires ValidAdapter(ad)
    ensures ValidAdapter(r.next) && r.next.line == ad.line
    ensures r.found <==> ad.index < |ad.line.runs|
    ensures r.found ==> r.next.index == ad.index + 1 && r.next.agent == AgentOf(ad.line.runs[ad.index])
    ensures !r.found ==> r.next == LoadLine(ad.line)
  {
    if ad.index < |ad.line.runs| then
      var run := ad.line.runs[ad.index];
      Step(true, ad.(agent := AgentOf(run), index := ad.index + 1))
    else
      Step(false, Reset(ad))
  }

  /** The cursor after `k` steps. */
  function Advance(ad: Adapter, k: nat): (r: Adapter)
    requires ValidAdapter(ad)
    ensures ValidAdapter(r) && r.line == ad.line
    decreases k
  {
    if k == 0 then ad else Advance(MoveNext(ad).next, k - 1)
  }

  /** The answers of `k` steps, in order. */
  function Answers(ad: Adapter, k: nat): (r: seq<bool>)
    requires ValidAdapter(ad)
    ensures |r| == k
    decreases k
  {
    if k == 0 then [] else [MoveNext(ad).found] + Answers(MoveNext(ad).next, k - 1)
  }

  /** From run `i` on, `k` further steps (not past the last run) hand out
      runs `i .. i + k - 1`, each step reporting the run it passed. */
  lemma {:induction false} AdvanceWithinPass(line: LineData, i: nat, agent: RunAgent, k: nat)
    requires i + k <= |line.runs|
    ensures var ad := Adapter(line, i, agent);
            && Advance(ad, k).index == i + k
            && (k > 0 ==> Advance(ad, k).agent == AgentOf(line.runs[i + k - 1]))
            && Answers(ad, k) == seq(k, _ => true)
    decreases k
  {
    if k > 0 {
      var ad := Adapter(line, i, agent);
      var next := MoveNext(ad).next;
      assert next == Adapter(line, i + 1, AgentOf(line.runs[i]));
      AdvanceWithinPass(line, i + 1, AgentOf(line.runs[i]), k - 1);
    }
  }

  /** A pass from a freshly loaded line: the `k`-th step hands out the
      `k`-th run, so the answer is true exactly as many times as there are
      runs; the step after the last run answers false and leaves the cursor
      as freshly loaded, so the next pass starts at the first run again. */
  lemma PassHandsOutRuns(line: LineData, k: nat)
    requires 0 < k <= |line.runs|
    ensures Advance(LoadLine(line), k).agent == AgentOf(line.runs[k - 1])
    ensures Answers(LoadLine(line), |line.runs| + 1) == seq(|line.runs|, _ => true) + [false]
    ensures Advance(LoadLine(line), |line.runs| + 1) == LoadLine(line)
  {
    var n := |line.runs|;
    AdvanceWithinPass(line, 0, NoRun, k);
    AdvanceAppend(LoadLine(line), n);
    AdvanceWithinPass(line, 0, NoRun, n);
  }

  /** One more step after `k` steps. */
  lemma {:induction false} AdvanceAppend(ad: Adapter, k: nat)
    requires ValidAdapter(ad)
    ensures Advance(ad, k + 1) == MoveNext(Advance(ad, k)).next
    ensures Answers(ad, k + 1) == Answers(ad, k) + [MoveNext(Advance(ad, k)).found]
    decreases k
  {
    if k > 0 {
      AdvanceAppend(MoveNext(ad).next, k - 1);
    }
  }
}
