# SheenBidi core, modelled in Dafny

SheenBidi (C#) implements the second half of the Unicode Bidirectional
Algorithm (UAX #9). After the explicit levels are known, it groups the text
into isolating run sequences and resolves their weak types (rules W1–W7),
bracket pairs (N0), neutrals (N1–N2) and implicit levels (I1–I2). It then
cuts a line out of the paragraph, resets separators and trailing whitespace
(L1), orders the runs for display (L2) and locates mirrored glyphs (L4).

This project models that core as pure Dafny functions and short methods,
and proves what each component promises.

- **Links and chains** (`BidiLink`, `BidiChain`). The text is a ring of
  links, each covering a stretch of characters of one type and level. The
  heap is an arena `seq<Link>` whose `next` fields are indices, with -1 for
  null. `IsRing` says which indices the ring visits, in order.
- **Status stack, level runs, run queue, bracket queue** (`StatusStack`,
  `LevelRun`, `RunQueue`, `BracketQueue`). These are immutable values with
  the source's capacity, its flags and its fault cases. The faults of the
  status stack and the bracket queue are `Result` values. The debug-build
  checks of the level runs, which the run queue's `Enqueue` inherits
  through `AttachLevelRun`, are preconditions (see Left out).
- **Isolating runs** (`IsolatingRun`, with `Spans`, `WeakRules`,
  `BracketRules`, `NeutralRules` and `ImplicitRules`):
  - `Splice` links the level runs of one sequence into a ring through the
    roller link.
  - `Walk` reads the ring as a sequence of spans.
  - The rule passes run over the spans. W1–W3, W4–W7 and N1–N2 are each
    proved equal to an independent per-character reference definition of
    their rules. N0 is stated against its rule text for a ring with one
    bracket pair (`BracketRules.OnePairResolves`); with several pairs only
    bounds are proved. I1–I2 are stated per span by their parity and wrap
    lemmas.
  - `Restore` writes the result back into the arena and re-attaches every
    run's original successor.
- **Lines** (`Line`). L1 is the backward scan of the source. Lines are
  built on that scan as written. A corrected scan is proved equal to a
  declarative definition of which positions are reset, and the scan as
  written agrees with it on lines without characters removed by X9 (see
  Findings). Runs are cut at level changes. L2 reverses maximal blocks
  level by level, from the highest level down to 1 as the source loops;
  it is proved to be a permutation, equal to the block reversals, and
  equal to L2 as section 3.4 of UAX #9 states it, which stops at the
  lowest odd level of the line.
- **Cursors** (`RunAdapter`, `MirrorLocator`, `MirrorAdapter`). Each cursor
  is a state value with a step function or step method. Each step is
  stated against "what is left to report" in the current pass.

The source keeps two copies of several components, one under `Internal/`
and one under `Collections/`. They are the same code apart from field-name
prefixes, visibility and namespace; both keep their lists in the same
chained fixed-size blocks. One model stands for both. The character-type table, the
bracket and mirror tables, and the paragraph's explicit-level resolution
(X1–X10) are not part of this model. They enter as parameters: the
paragraph's types and levels, a `pairing` function from characters to
bracket data, and a `mirrors` sequence holding each character's mirror
code point, with 0 for none.

## Model

| member | source | states |
|---|---|---|
| Level.LevelToEmbeddingType | Level.cs:24-30 | L exactly for even levels, R exactly for odd ones |
| Level.LevelToOppositeType | Level.cs:32-38 | R exactly for even levels, L exactly for odd ones |
| Level.DirectionsDistinct | Level.cs:24-38 | both results are directions and they always differ |
| BidiTypes.ToByte | Internal/StatusStack.cs:76-84 | the byte cast keeps values below 256 and is otherwise congruent modulo 256 |
| BidiLink.MergeNext | Internal/BidiLink.cs:35-41 | the link absorbs its successor's length and skips it; every other link is unchanged |
| BidiLink.AbandonNext | Internal/BidiLink.cs:30-33 | the link skips its successor; nothing else changes |
| BidiLink.ReplaceNext | Internal/BidiLink.cs:43-46 | only the link's successor changes, to the given one |
| BidiLink.MergeNextInRing | Collections/BidiLink.cs:37-43 | merging inside a ring leaves a ring one link shorter, covering the same total length |
| BidiLink.AbandonNextInRing | Collections/BidiLink.cs:32-35 | abandoning inside a ring leaves a ring one link shorter, losing exactly the skipped link's length |
| BidiLink.MergeNextShape | Internal/BidiLink.cs:35-41 | the ring after a merge visits the same links minus the absorbed one |
| BidiLink.TotalLengthAppend | Internal/BidiLink.cs:35-41 | the covered length of two concatenated link paths is the sum of their lengths |
| BidiChain.NewChain | Collections/BidiChain.cs:32-36 | a valid chain whose only link is the roller, unlinked, and whose last link is the roller |
| BidiChain.AddLink | Collections/BidiChain.cs:38-43 | the new link becomes last and points back to the roller; the old last link points to it; no other link changes |
| BidiChain.AddLinkExtendsRing | Collections/BidiChain.cs:38-43 | appending to a ring yields a ring visiting the old links and then the new one |
| BidiChain.AddLinksRing | Collections/BidiChain.cs:38-43 | adding links one by one to a new chain yields the ring roller, 1, …, n, each holding the added link's data |
| BidiChain.AddLinksAppend | Collections/BidiChain.cs:38-43 | adding two batches in turn equals adding their concatenation |
| StatusStack.NewStack | Internal/StatusStack.cs:39-49 | a new stack is valid and empty |
| StatusStack.Reset | Internal/StatusStack.cs:44-49 | reset empties the stack and returns to the first, zeroed slot |
| StatusStack.Clear | Internal/StatusStack.cs:86-89 | clear only zeroes the count; the top entry is still readable |
| StatusStack.EvenLevel | Internal/StatusStack.cs:76-79 | below 254 the result is the least even level above the current embedding level |
| StatusStack.OddLevel | Internal/StatusStack.cs:81-84 | below 254 the result is the least odd level above the current embedding level |
| StatusStack.Push | Internal/StatusStack.cs:91-125 | faults exactly at max_depth + 2 entries; otherwise the count grows by one and the top holds the pushed entry |
| StatusStack.Pop | Internal/StatusStack.cs:127-144 | faults exactly on an empty stack; otherwise the count drops by one and the entry below becomes the top |
| StatusStack.PushPopRestoresTop | Internal/StatusStack.cs:91-144 | a push followed by a pop restores the count and the top entry |
| StatusStack.PushAllWithinCapacity | Collections/StatusStack.cs:94-128 | a series of pushes succeeds exactly when it fits in max_depth + 2; the count and top then reflect every push |
| LevelRun.SOR | Internal/LevelRun.cs:46-54 | the start-of-run type is always a direction |
| LevelRun.EOR | Internal/LevelRun.cs:57-66 | the end-of-run type is always a direction |
| LevelRun.NewLevelRun | Internal/LevelRun.cs:103-155 | the run's level is its first link's; it is an isolate initiator exactly when its last link is one, and a terminator exactly when its first link is PDI; it keeps sor, eor and its last link's successor |
| LevelRun.AttachLevelRun | Internal/LevelRun.cs:157-180 | the next run is recorded; an isolate stops being partial; the attached run is marked attached exactly when it terminates an isolate or already was; nothing else changes |
| LevelRun.AttachKeepsClassification | Internal/LevelRun.cs:157-180 | attaching never changes whether a run initiates or terminates an isolate, and completes an isolate initiator |
| RunQueue.NewRunQueue | Internal/RunQueue.cs:41-53 | a new queue is empty and ready to dequeue |
| RunQueue.FindPreviousIncompleteRun | Internal/RunQueue.cs:135-161 | the result is the last partial isolate at or before the given run, or -1 when there is none |
| RunQueue.Enqueue | Internal/RunQueue.cs:70-109 | the queue stays valid and grows by one run at its back |
| RunQueue.Dequeue | Internal/RunQueue.cs:111-133 | removes exactly the front run; the pending isolate is untouched |
| RunQueue.EnqueueIsFifo | Internal/RunQueue.cs:70-109 | enqueueing changes no queued run except the pending isolate, and leaves the front in place |
| RunQueue.EnqueueAttaches | Internal/RunQueue.cs:70-109 | a terminator attaches to the pending isolate, which stops being partial, and the pending isolate moves to the previous incomplete one; any other run is appended unattached |
| RunQueue.ShouldDequeueMeansNoOpenIsolate | Internal/RunQueue.cs:65-68 | dequeuing is allowed exactly when no queued isolate is still waiting for its terminator |
| RunQueue.IsolatePairCompletes | Internal/RunQueue.cs:70-109 | an isolate initiator followed by its terminator leaves a completed, attached pair and restores the previous pending isolate |
| RunQueue.NestedIsolatesComplete | Internal/RunQueue.cs:70-161 | with two nested isolates the inner pair completes first, the outer initiator becomes pending again and then continues into its own terminator; the queue ends with the pending initiator it had before |
| BracketQueue.Clear | Internal/BracketQueue.cs:62-73 | the queue is emptied, takes the embedding direction and drops the dequeue flag |
| BracketQueue.Enqueue | Internal/BracketQueue.cs:75-99 | the pair is appended after the live pairs; nothing else changes |
| BracketQueue.Dequeue | Internal/BracketQueue.cs:101-128 | faults exactly on an empty queue; otherwise drops the front pair only |
| BracketQueue.SetStrongType | Internal/BracketQueue.cs:130-154 | every live open pair not yet at the embedding direction takes the strong type; no other pair changes |
| BracketQueue.FindMatch | Internal/BracketQueue.cs:156-189 | the result is the last live open pair with the bracket, or -1 when there is none |
| BracketQueue.InvalidatePairs | Internal/BracketQueue.cs:191-210 | every open pair after the match loses its opening link; every other pair is unchanged |
| BracketQueue.ClosePairEffect | Internal/BracketQueue.cs:156-189 | with no matching open pair nothing changes; otherwise the last match is closed, later open pairs are invalidated, and the dequeue flag is raised when the match is the front pair |
| BracketQueue.ClosePairChangesLinks | Internal/BracketQueue.cs:156-210 | closing changes each pair at most by setting its closing link or clearing its opening link |
| BracketQueue.ShouldDequeueIsSticky | Internal/BracketQueue.cs:75-189 | once raised, the dequeue flag survives every operation except Clear |
| BracketQueue.DirectionIsFinal | Internal/BracketQueue.cs:130-154 | a pair whose strong type is the embedding direction keeps it |
| BracketQueue.InvalidPairStaysIncomplete | Internal/BracketQueue.cs:156-210 | an invalidated pair is never closed or completed afterwards |
| Spans.EmitShape | Internal/IsolatingRun.cs:175-182 | emitting a span either lengthens the previous span, when that span carries the type the pass read and the type is not ON, or appends it |
| Spans.EmitNoAdjacentET | Internal/IsolatingRun.cs:175-182 | emitting a span read as ET whenever it is ET never leaves two ET spans side by side |
| Spans.FoldNoAdjacentET | Internal/IsolatingRun.cs:123-183 | a whole pass that reads every ET link as ET leaves no two ET spans side by side |
| Spans.FoldLast | Internal/IsolatingRun.cs:175-182 | when every link folded into a span already carries that span's type, the last output span carries the last link's type |
| Spans.FoldCovers | Internal/IsolatingRun.cs:123-183 | when every link folded into a span already carries that span's type, the output covers exactly the characters, with exactly the types, of the stored links |
| Spans.FoldTypesFrom | Internal/IsolatingRun.cs:123-183 | every output span carries the type of one of the stored links |
| Spans.FoldIds | Internal/IsolatingRun.cs:123-183 | a pass invents no link identity, keeps identities distinct and keeps the first link |
| Spans.IdsFromTrans | Internal/IsolatingRun.cs:118-262 | two passes in turn still invent no identity and keep the first link |
| Spans.FoldOffsets | Internal/IsolatingRun.cs:123-183 | every output span starts at an offset inside the text, as every stored link does |
| Spans.EmitExpands | Internal/IsolatingRun.cs:120-183 | emitting adds exactly the emitted span's characters to the character types covered |
| Spans.EmitIds | Internal/IsolatingRun.cs:120-183 | emitting invents no link identity, keeps identities distinct and keeps the first link |
| WeakRules.AfterNsm | Internal/IsolatingRun.cs:129-148 | W1: NSM takes the previous type, or ON after an isolate initiator or PDI |
| WeakRules.W2W3 | Internal/IsolatingRun.cs:150-173 | W2: EN becomes AN exactly after AL; W3: AL becomes R; everything else is kept |
| WeakRules.ResolveW1ToW3Characters | Internal/IsolatingRun.cs:118-183 | the first pass yields, character by character, the W1–W3 reference types; it keeps the total length and leaves no adjacent ET spans |
| WeakRules.W1TypeChain | Internal/IsolatingRun.cs:129-148 | a run of NSMs resolves through the last non-NSM before it |
| WeakRules.FirstStepState | Internal/IsolatingRun.cs:127-173 | at each link the first pass reads the W1 reference type, stores the W1–W3 reference type, and carries the reference's prior type and last strong type on |
| WeakRules.FirstPassStateHolds | Internal/IsolatingRun.cs:120-173 | at every link the first pass's state is the reference's |
| WeakRules.FirstPassIsReference | Internal/IsolatingRun.cs:118-183 | the links the first pass stores are the input retyped by the W1–W3 reference, and it reads each with its W1 type |
| WeakRules.FirstFoldsSafely | Internal/IsolatingRun.cs:175-182 | in the first pass a link is folded only into a predecessor carrying the link's own stored type |
| WeakRules.W1TypeAfterW1 | Internal/IsolatingRun.cs:129-148 | after W1 no link is NSM and every type is still a chain type |
| WeakRules.Reference1AfterW3 | Internal/IsolatingRun.cs:118-173 | after W1–W3 no NSM or AL is left |
| WeakRules.FirstPassTypes | Internal/IsolatingRun.cs:118-183 | the spans of the first pass carry no NSM or AL |
| WeakRules.W4 | Internal/IsolatingRun.cs:195-206 | W4: only a single ES or CS changes, and only to the EN or AN found on both sides (ES only between ENs) |
| WeakRules.W5 | Internal/IsolatingRun.cs:208-216 | W5: ET becomes EN exactly when next to EN, and nothing else changes |
| WeakRules.W6W7 | Internal/IsolatingRun.cs:218-250 | W6: separators and terminators become ON; W7: EN becomes L exactly after a strong L |
| WeakRules.W4BeforeSeparator | Internal/IsolatingRun.cs:195-206 | the type before a separator or terminator is never itself changed by W4 |
| WeakRules.SecondStepState | Internal/IsolatingRun.cs:190-250 | at each link the second pass reads the W5 reference type, stores the W4–W7 reference type, and carries the reference's prior types and last strong type on |
| WeakRules.SecondPassStateHolds | Internal/IsolatingRun.cs:185-250 | at every link the second pass's state is the reference's |
| WeakRules.SecondPassIsReference | Internal/IsolatingRun.cs:185-262 | the links the second pass stores are the input retyped by the W4–W7 reference, and it reads each with its W5 type |
| WeakRules.SecondSafeAtReference | Internal/IsolatingRun.cs:252-259 | a link whose W5 type is not ON and equals its predecessor's W4–W7 type keeps that type through W6 and W7 |
| WeakRules.SecondFoldsSafely | Internal/IsolatingRun.cs:252-259 | in the second pass a link is folded only into a predecessor carrying the link's own stored type |
| WeakRules.Reference2AfterW7 | Internal/IsolatingRun.cs:185-250 | after W4–W7 no ES, ET or CS is left |
| WeakRules.SecondPassTypes | Internal/IsolatingRun.cs:185-262 | the spans of the second pass carry no NSM, AL, ES, ET or CS |
| WeakRules.ResolveW4ToW7Characters | Internal/IsolatingRun.cs:185-262 | the second pass yields, character by character, the W4–W7 reference types, keeping the total length |
| WeakRules.ResolveWeakTypesShape | Internal/IsolatingRun.cs:118-262 | after W1–W7 only L, R, EN, AN and neutral types remain; length and the first link are kept; no identity is invented or duplicated |
| WeakRules.WeakTypesTyped | Internal/IsolatingRun.cs:118-262 | after W1–W7 every span carries L, R, EN, AN or a neutral type |
| WeakRules.WeakTypesKeepLength | Internal/IsolatingRun.cs:118-262 | W1–W7 cover exactly the characters they were given |
| WeakRules.FirstPassIds | Internal/IsolatingRun.cs:118-183 | the first pass invents no link, keeps identities distinct and keeps the first link |
| WeakRules.SecondPassIds | Internal/IsolatingRun.cs:185-262 | the second pass invents no link, keeps identities distinct and keeps the first link |
| WeakRules.WeakTypesKeepIds | Internal/IsolatingRun.cs:118-262 | W1–W7 invent no link, keep identities distinct and keep the first link |
| WeakRules.WeakTypesKeepOffsets | Internal/IsolatingRun.cs:118-262 | every surviving span still starts inside the text |
| BracketRules.PairType | Internal/IsolatingRun.cs:339-395 | N0: a pair with the embedding direction inside takes it; one with only the opposite direction inside takes it when the prior strong type agrees, otherwise the embedding direction; one with no strong type inside stays unresolved |
| BracketRules.PairTypeIsDirection | Internal/IsolatingRun.cs:339-402 | a pair is resolved exactly when a strong type was found inside it, and then to a direction |
| BracketRules.PriorStrongTypeIsLastStrong | Internal/IsolatingRun.cs:352-378 | the strong type before an opening bracket is the last L or R before it, counting EN and AN as R |
| BracketRules.ResolvePair | Internal/IsolatingRun.cs:337-405 | an incomplete or unresolved pair changes nothing; a resolved one sets both brackets to its type and leaves all else |
| BracketRules.ResolveAvailableBracketPairs | Internal/IsolatingRun.cs:330-353 | the queue is drained; only bracket links change, and only to directions |
| BracketRules.ResolveBrackets | Internal/IsolatingRun.cs:269-328 | N0 changes only ON characters that are brackets, and only to directions |
| BracketRules.StickyFlagDrainsOnAnyClose | Internal/IsolatingRun.cs:298-306 | once the front pair has closed, the next closing bracket of any kind drains the queue |
| BracketRules.UnmatchedCloseIsIgnored | Internal/IsolatingRun.cs:298-306 | a closing bracket with no open partner changes nothing |
| BracketRules.ClosingOldestPairResolves | Internal/IsolatingRun.cs:298-306 | closing the front pair resolves and empties the queue |
| BracketRules.LastStrongLink | Internal/IsolatingRun.cs:311-321 | the prior strong link is the last L, R, AL, EN or AN before the position, or none when there is none |
| BracketRules.InnerStrongMeaning | Internal/BracketQueue.cs:130-154 | an open pair's recorded strong type is the embedding direction when a strong link of that direction followed the opening bracket, and otherwise the last strong direction seen after it, or none |
| BracketRules.OnePairIsResolved | Internal/IsolatingRun.cs:269-328 | on a ring whose only bracket pair is `o`, `c`, the pass resolves that pair with the strong type found between the brackets and the context before the opening one |
| BracketRules.ClosedPairFollowsN0 | Internal/IsolatingRun.cs:337-405 | resolving that pair is N0 b-d: a strong type of the embedding direction inside gives both brackets that direction; only opposite ones give the opposite direction when the context before agrees, else the embedding one; none inside leaves them ON; nothing else changes |
| BracketRules.OnePairResolves | Internal/IsolatingRun.cs:269-405 | N0 over a ring whose only bracket pair is `o`, `c` gives the brackets exactly what N0 b-d prescribes and changes nothing else |
| NeutralRules.RunStartIsMaximal | Internal/IsolatingRun.cs:446-449 | a neutral run starts right after a non-neutral character or at the sequence start |
| NeutralRules.NeutralReference | Internal/IsolatingRun.cs:412-483 | N1/N2 reference: a neutral takes a direction, every other type is kept |
| NeutralRules.ResolveNeutrals | Internal/IsolatingRun.cs:412-483 | every position equals the N1/N2 reference: a neutral run takes the direction on both sides when they agree (EN and AN counting as R, sos and eos at the ends), otherwise the embedding direction |
| NeutralRules.ResolveNeutralsLeavesNoNeutral | Internal/IsolatingRun.cs:485-506 | after N1/N2 only L, R, EN and AN remain |
| NeutralRules.NeutralsBetweenSameDirection | Internal/IsolatingRun.cs:464-479 | N1: neutrals between two characters of the same direction take that direction |
| ImplicitRules.ResolveImplicitLevels | Internal/IsolatingRun.cs:512-552 | every span keeps all but its level, which becomes the byte sum of its level and the I1/I2 increment for its type; what that level means is stated by ImplicitLevelParity, ResolvedParityMatchesType and ImplicitLevelWraps |
| ImplicitRules.Increment | Internal/IsolatingRun.cs:512-552 | the I1/I2 increment is at most 2 |
| ImplicitRules.ImplicitLevelParity | Internal/IsolatingRun.cs:512-552 | the new level is odd exactly for R, grows by at most 2, stays put exactly when the type already agrees with the level, and puts EN or AN on an even level two higher |
| ImplicitRules.ImplicitLevelWraps | Internal/IsolatingRun.cs:512-552 | the new level is the plain sum below 256 and the sum less 256 from 256 on; at levels up to max_depth + 1 it never wraps |
| ImplicitRules.ResolvedParityMatchesType | Internal/IsolatingRun.cs:554-567 | on one level run, a resolved level is odd exactly for R characters |
| IsolatingRun.StartsIncrease | Internal/IsolatingRun.cs:80-106 | the level runs occupy consecutive, non-overlapping stretches of the sequence |
| IsolatingRun.LastLinksDistinct | Internal/IsolatingRun.cs:80-106 | the runs' last links lie in the sequence and are pairwise distinct |
| IsolatingRun.LastLinkTarget | Internal/IsolatingRun.cs:85-91 | a run's last link, when not the end of the sequence, is followed by the next run's first link |
| IsolatingRun.RelinkFrom | Internal/IsolatingRun.cs:108-114 | relinking changes only successors, and only those of the runs' last links |
| IsolatingRun.RelinkFromTargets | Internal/IsolatingRun.cs:108-114 | each run's last link ends up pointing at its given target |
| IsolatingRun.Splice | Internal/IsolatingRun.cs:80-93 | splicing changes successors only |
| IsolatingRun.SpliceLastLink | Internal/IsolatingRun.cs:85-91 | each last link points to the next run's first link, the final one to the roller |
| IsolatingRun.SpliceElsewhere | Internal/IsolatingRun.cs:80-93 | the roller points to the first run's first link; no link other than a last link changes |
| IsolatingRun.SpliceFormsRing | Internal/IsolatingRun.cs:80-93 | the splice closes the sequence's links into a ring through the roller, touching nothing outside it |
| IsolatingRun.Walk | Internal/IsolatingRun.cs:125-127 | the walk reads every visited link's identity, offset, length, type and level, in order |
| IsolatingRun.Eos | Internal/IsolatingRun.cs:93-105 | eos is the last run's eor, or for a partial isolate the direction of the higher of its level and the paragraph level |
| IsolatingRun.BracketsLeaveNeutralInput | Internal/IsolatingRun.cs:269-328 | after N0 the types are still valid input for N1/N2 |
| IsolatingRun.ResolveNeutralTypes | Internal/IsolatingRun.cs:269-483 | N0 and N1/N2 change types only, and leave only types valid for I1/I2 |
| IsolatingRun.ResolveRing | Internal/IsolatingRun.cs:58-78 | after all rules every span carries L, R, EN or AN |
| IsolatingRun.ResolveRingKeepsSpans | Internal/IsolatingRun.cs:58-78 | N0, N1–N2 and I1–I2 keep the spans W1–W7 left: same links, offsets and lengths |
| IsolatingRun.ResolveRingKeepsLength | Internal/IsolatingRun.cs:58-78 | resolution covers exactly the characters it was given |
| IsolatingRun.ResolveRingKeepsIds | Internal/IsolatingRun.cs:58-78 | resolution keeps the first link and invents or duplicates no link |
| IsolatingRun.WriteBack | Internal/IsolatingRun.cs:58-78 | writing back touches only the surviving links |
| IsolatingRun.WriteBackStores | Internal/IsolatingRun.cs:58-78 | every surviving link receives its span's length, type and level |
| IsolatingRun.RestoreFields | Internal/IsolatingRun.cs:58-78 | after the restore every survivor holds its span's data |
| IsolatingRun.RestoreFrame | Internal/IsolatingRun.cs:108-114 | links neither surviving nor last links of a run are untouched |
| IsolatingRun.RestoreInnerNext | Internal/IsolatingRun.cs:58-78 | inside a run, each survivor points to the next survivor |
| IsolatingRun.RestoreLastLinkNext | Internal/IsolatingRun.cs:108-114 | each run's last link points again to its original successor |
| IsolatingRun.RestoreRestores | Internal/IsolatingRun.cs:58-114 | restoring after a splice gives back the original chain with resolved survivors and the final survivor linked to the last run's successor |
| IsolatingRun.WalkIsRingInput | Internal/IsolatingRun.cs:58-106 | the walked ring is valid input for the rule passes |
| IsolatingRun.WalkLength | Internal/IsolatingRun.cs:125-127 | the walk covers the same characters as the links it visits |
| IsolatingRun.ResolvedRingShape | Internal/IsolatingRun.cs:58-78 | the resolved ring starts at the first link, keeps identities distinct and inside the sequence, keeps the total length, and carries only L, R, EN or AN |
| IsolatingRun.RingFits | Internal/IsolatingRun.cs:58-114 | any resolved ring inside the sequence can be written back into the spliced arena |
| IsolatingRun.ResolveRestoresChain | Internal/IsolatingRun.cs:58-114 | Resolve leaves the links outside the sequence unchanged, gives every survivor its resolved data, chains the survivors in order, and reconnects every run to its original successor |
| Line.SetNewLevel | Line.cs:155-162 | exactly the positions in the range take the new level |
| Line.ResetStep | Line.cs:117-151 | one step of the backward scan: a separator takes the paragraph level and restarts trailing, a removed character is counted, any other non-space ends trailing; no level outside the pending stretch changes and every level is kept or set to the paragraph level |
| Line.ResetLevelsAsWritten | Line.cs:108-153 | the scan as the source writes it, which the lines use: separators take the paragraph level, every character outside the reset classes keeps its level, every other level is kept or set to the paragraph level |
| Line.ResetLevels | Line.cs:108-153 | the corrected scan of the Findings: the same bounds as the scan as written; ResetLevelsIsReference proves it computes L1 |
| Line.ResetLevelsIsReference | Line.cs:108-153 | the corrected scan resets exactly the separators, the whitespace and isolate controls before a separator or the line end, and the removed characters that follow a reset character; all other levels are kept |
| Line.ResetKeepsInnerLevels | Line.cs:147-150 | strong, weak and other neutral characters keep their levels |
| Line.ResetLevelsAsWrittenWithoutIgnorables | Line.cs:108-153 | on a line with no removed characters the scan as written agrees with the reference |
| Line.ResetLevelsAsWrittenResetsInnerSpace | Line.cs:135-145 | the scan as written resets a whitespace that does not trail (see Findings) |
| Line.DetermineRuns | Line.cs:168-200 | the runs tile the line in order with positive lengths; each has one level, and adjacent runs differ; the returned level is the largest level |
| Line.ReverseRuns | Line.cs:227-241 | the swap loop reverses exactly the given range |
| Line.ReverseRangeInvolution | Line.cs:227-241 | reversing a range twice restores it |
| Line.ReverseRangeIsPermutation | Line.cs:227-241 | reversal only moves runs |
| Line.SegmentStart | Line.cs:214-219 | the backward search stops at the start of the maximal block at or above the level |
| Line.ReorderAtLevel | Line.cs:210-223 | a pass never touches runs beyond its scan position |
| Line.ReorderRuns | Line.cs:206-225 | L2 shows every run exactly once, and the order is that of the block reversals from the highest level down to 1, the levels the source loops over |
| Line.LowestOddLevel | Line.cs:206-225 | the lowest odd level of a line is odd, no run lies more than one level below it, and it or the level below it occurs on the line |
| Line.BlockReversalsStopAtLowestOdd | Line.cs:206-225 | the block reversals down to level 1 equal those down to the lowest odd level, because the passes below it each reverse the whole line and come in an even number |
| Line.ReorderRunsIsUaxL2 | Line.cs:206-225 | the source's loop from the line's highest level down to 1 is L2 of UAX #9, which stops at the lowest odd level |
| Line.ReorderAtLevelAboveAll | Line.cs:210-223 | a pass above every run's level changes nothing |
| Line.ReorderAtLevelBelowAll | Line.cs:210-223 | a pass no run is below reverses the whole line |
| Line.ReorderUniformLine | Line.cs:206-225 | a line of one level is reversed exactly when that level is odd |
| Line.ReorderPassesAboveMax | Line.cs:206-225 | starting L2 above the highest level gives the same order |
| Line.ReorderAtLevelReversesBlocks | Line.cs:210-223 | the pass at one level reverses every maximal block of runs at that level or higher and leaves every other run in place |
| Line.ReorderPassesReverseBlocks | Line.cs:206-225 | the loop over the levels equals the block reversals from the highest level down to 1 |
| Line.ReorderPassesArePermutation | Line.cs:206-225 | the loop over the levels only moves runs |
| Line.MirrorInvolution | Line.cs:210-223 | the place a run takes in a pass, taken again, is the run's own place, and the run is found there after the pass |
| Line.PassOrder | Line.cs:210-223 | two runs swap their order in a pass exactly when no run between them lies below the pass level, and they never land on one place |
| Line.PassKeepsBlocks | Line.cs:206-225 | a pass keeps, for every lower level, whether two runs lie in one block at that level, so the later passes see the same blocks |
| Line.Initialize | Line.cs:97-102 | the runs are the maximal runs of the levels after L1 as written, in the order of the block reversals of L2 from their highest level; so each appears once, and all lie inside the line |
| Line.LineRunsUnique | Line.cs:168-200 | the maximal runs of a level sequence are unique |
| Line.LineRunsWithoutIgnorables | Line.cs:97-200 | on a line without characters removed by X9, the line's runs are those of the L1 reference levels |
| Line.TilingIsRunsOf | Line.cs:168-200 | any maximal tiling equals the run-by-run decomposition |
| Line.NewLine | Line.cs:72-82 | a line over a stretch of the paragraph succeeds exactly for a non-empty stretch inside it, and holds that stretch's runs in visual order |
| Line.LineFromText | Line.cs:84-95 | a whole-paragraph line fails exactly for empty text, and otherwise holds the paragraph's runs in visual order |
| MirrorLocator.Scan | MirrorLocator.cs:47-82 | the scan reports the first remaining mirrorable character of an odd run, and what is left afterwards is the rest; with none left it ends past the last run |
| MirrorLocator.ScanRun | MirrorLocator.cs:56-74 | the inner scan stops at the first mirrorable character of the run, or at its limit |
| MirrorLocator.PendingSound | MirrorLocator.cs:54-75 | every character still to report lies in an odd run at or after the cursor and carries its own nonzero mirror |
| MirrorLocator.PendingOrdered | MirrorLocator.cs:50-78 | characters come in run order, left to right within a run, never twice |
| MirrorLocator.PendingComplete | MirrorLocator.cs:50-78 | every mirrorable character of an odd run at or after the cursor is still to report |
| MirrorLocator.PassExact | MirrorLocator.cs:47-82 | a pass reports exactly the mirrorable characters of the odd runs at their lookup positions, each once, in run order and left to right |
| MirrorLocator.MatchesExact | MirrorLocator.cs:47-82 | a pass reports exactly the mirrorable characters of the odd runs, each once, in order |
| MirrorLocator.MatchesAsWrittenExact | MirrorLocator.cs:47-82 | the pass as written reports exactly the positions of the odd runs whose character at the same index of the paragraph text is mirrorable, in order; on a line that starts its paragraph it is the corrected pass |
| MirrorLocator.MatchesAsWrittenMissesLineText | MirrorLocator.cs:64 | the lookup as written reads the wrong character on a line that does not start its paragraph (see Findings) |
| MirrorLocator.LoadLine | MirrorLocator.cs:41-45 | loading a line sets the run cursor to 0, the character cursor to -1 and the agent to index -1, mirror 0 |
| MirrorLocator.Reset | MirrorLocator.cs:84-90 | reset equals loading the same line again |
| MirrorLocator.LoadLineStartsPass | MirrorLocator.cs:41-45 | a freshly loaded cursor has the whole pass as written ahead of it |
| MirrorLocator.MoveNext | MirrorLocator.cs:47-82 | a step reports the next character of the pass as written and drops it from what is left; with nothing left it answers false and resets |
| MirrorAdapter.GetEnumerator | MirrorAdapter.cs:110-113 | each enumerator starts at the first run with the character cursor at -1 |
| MirrorAdapter.GetEnumeratorStartsPass | MirrorAdapter.cs:35-43 | each enumeration has the whole pass as written ahead of it |
| MirrorAdapter.EnumMoveNext | MirrorAdapter.cs:55-89 | a step reports the next character of the pass as written and drops it; with nothing left it answers false, stays past the last run and keeps its agent |
| MirrorAdapter.ExhaustedStaysExhausted | MirrorAdapter.cs:55-89 | an exhausted enumerator keeps answering false without moving |
| MirrorAdapter.EnumReset | MirrorAdapter.cs:91-94 | Reset always fails |
| RunAdapter.LoadLine | RunAdapter.cs:39-43 | loading sets the cursor to 0 and the agent to offset -1, length 0, level 255 |
| RunAdapter.Reset | RunAdapter.cs:62-68 | reset equals loading the same line again |
| RunAdapter.MoveNext | RunAdapter.cs:45-60 | a step copies the next run into the agent and advances, or answers false and resets after the last run |
| RunAdapter.AdvanceWithinPass | RunAdapter.cs:45-56 | consecutive steps within a pass hand out consecutive runs, each answering true |
| RunAdapter.PassHandsOutRuns | RunAdapter.cs:45-60 | from a loaded line the k-th step hands out the k-th run; exactly as many steps as runs answer true, the next answers false and leaves the cursor freshly loaded |

## Left out

- Character classification (`CharTypeLookup`), the bracket and mirror tables (`PairingLookup`), `BracketPair` and `Paragraph` (X1–X10) are not part of this model. Their results are parameters: `pairing` gives each character's bracket data and `mirrors` each character's mirror code point.
- Merging and abandoning links during the passes is modelled on the span sequence. The arena is updated once at the end by `Restore`, so the `next` fields of links that the passes folded away are not tracked. A folded link is no longer reachable from the ring in either case.
- The object identity of the source's `LevelRun`, `BidiLink` and `Run` instances becomes indices into sequences. Aliasing between them is not modelled. This includes the whole-paragraph line constructor writing its resets into the paragraph's own level array.
- `#if DEBUG` checks in `LevelRun`, `AttachLevelRun` and the `Validate*` methods become preconditions. The same-level requires of `RunQueue.Enqueue` is the attach check of `AttachLevelRun`. The faults of the status stack and the bracket queue are `Result` values.
- RunQueue.Dequeue: requires a non-empty queue, and so does `RunQueue.Peek`. The source does not check this: dequeuing an empty queue drives its size below zero, and peeking reads whatever the front slot holds. That behaviour is not modelled.
- MirrorLocator.MoveNext: calling a cursor before any line is loaded dereferences null in the source. This is not modelled; every cursor holds a line.
- MirrorAdapter.GetEnumerator: `MirrorAgent.cs` is not part of this model. Before the first success the enumerator's agent is taken to hold the zero defaults of its fields.
- MirrorAdapter: the `IEnumerable`/`IDisposable` plumbing (`Current`, `Dispose`, the non-generic `GetEnumerator`) is left out. It only forwards to the modelled members.
- The null checks of `Line(string, …)` are left out. Dafny strings are never null; only the empty case is modelled.
- NewLine: the exception raised for a stretch outside the paragraph, or an empty one, is a `Fault`. The message text is not the runtime's.
- Line.ResetLevelsIsReference: like the source, it resets a removed character only when the character before it is reset. Section 5.2 of UAX #9 instead treats removed characters as part of the whitespace sequence that follows them, so in `L BN WS` at the end of a line the BN keeps its level here. This is the source's design, not a slip, and it is kept.
- Line.Initialize: the `levels` copied for a line are taken as given. The paragraph's own arrays are not modelled.
- BracketQueue: the dequeue flag, once raised, stays raised until `Clear`. So after the front pair closes, any later closing bracket drains the whole queue (`BracketRules.StickyFlagDrainsOnAnyClose`). This is modelled as written.
- WeakRules: the first pass can leave two adjacent spans of the same type R, because W3 turns AL into R after the merge check. This is modelled as written; the reference definitions work per character and are unaffected.
- StatusStack.Clear: it zeroes only the count and leaves the top cursor, as in the source.
- BracketRules.ResolveBrackets: for a ring with several bracket pairs, the pass is not proved against N0. It is bounded only: ON brackets alone may change, and only to directions. N0 itself is proved for a ring with one bracket pair (`BracketRules.OnePairResolves`).
- BracketRules.OnePairResolves: N0 is stated against its rule text only for a ring with one bracket pair. With several pairs the pass is bounded by `ResolveBrackets` (only ON brackets change, only to directions) and by the queue lemmas.
- Line.PassOrder: the order of two runs is stated for one pass, and the whole of L2 as the block reversals of UAX #9 (down to the lowest odd level, by `Line.ReorderRunsIsUaxL2`). A closed form for the final order of two runs across all passes is not stated.

## Findings

| source | as written | input that shows it | evidently intended | confidence | as-written member | corrected member |
|---|---|---|---|---|---|---|
| Line.cs:135-145 | a WS, LRI, RLI, FSI or PDI that is not reset leaves the count of pending removed characters as it is | line `B WS BN L` at levels 1 1 1 1, paragraph level 0: the B resets both itself and the WS, giving 0 0 1 1 | the count is dropped at such a character, giving 0 1 1 1, as L1 asks (the WS neither trails nor precedes a separator) | medium, not executed | Line.ResetLevelsAsWrittenResetsInnerSpace | Line.ResetLevelsIsReference |
| MirrorLocator.cs:64 | the mirror lookup reads `Text[index]` with a line-relative index, while `Text` is the whole paragraph's text (Line.cs:74) | text `a(`, line over position 1 only, one odd run: the lookup reads `a` and reports nothing | the lookup reads `Text[Offset + index]`, reporting the `(` at line position 0 | high, not executed | MirrorLocator.MatchesAsWrittenMissesLineText | MirrorLocator.MatchesExact |

The line constructors (`Line.Initialize`, `Line.NewLine`, `Line.LineFromText`) and both mirror cursors (`MirrorLocator.MoveNext`, `MirrorAdapter.EnumMoveNext`) follow the source as written: they use `Line.ResetLevelsAsWritten` and the lookup at the line-relative index. The corrected halves, `Line.ResetLevels` and `MirrorLocator.Matches`, stand beside them with the intended property proved.
