/** Rule N0 of UAX #9 (section 3.3.5) as the resolver applies it: one pass
    over the ring after the weak rules that pairs brackets through the
    bracket queue and gives both brackets of a resolved pair one strong
    direction.

    The types of the ring are a sequence indexed by position; a bracket
    pair's links are positions. The bracket pairing lookup and the text are
    parameters. */
module BracketRules {
  import opened BidiTypes
  import opened Spans
  import opened BQ = BracketQueue
  import Level

  /** What the pairing lookup says of a character. */
  datatype BracketType = NoBracket | Open | Close

  /** A character's bracket kind and the opening bracket it pairs with. */
  datatype Bracket = Bracket(pairedChar: char, kind: BracketType)

  /** N0 b-d: the type both brackets of a complete pair take, or `Nil`
      when they keep their types. An inner strong type equal to the
      embedding direction wins; an inner type of the opposite direction
      wins only when the context before the pair is also opposite, and
      otherwise the embedding direction is used; with no inner strong type
      nothing happens. */
  function PairType(innerStrongType: CharType, priorStrongType: CharType, level: Byte): (r: CharType)
    ensures var e := Level.LevelToEmbeddingType(level);
            var o := Level.LevelToOppositeType(level);
            && (innerStrongType == e ==> r == e)
            && (innerStrongType == o && priorStrongType == o ==> r == o)
            && (innerStrongType == o && priorStrongType != o ==> r == e)
            && (!IsDirection(innerStrongType) ==> r == Nil)
  {
    var embeddingDirection := Level.LevelToEmbeddingType(level);
    var oppositeDirection := Level.LevelToOppositeType(level);
    if innerStrongType == embeddingDirection then innerStrongType
    else if innerStrongType == oppositeDirection then
      (if priorStrongType == oppositeDirection then oppositeDirection else embeddingDirection)
    else Nil
  }

  /** The direction `PairType` picks is always a strong direction. */
  lemma PairTypeIsDirection(innerStrongType: CharType, priorStrongType: CharType, level: Byte)
    ensures PairType(innerStrongType, priorStrongType, level) != Nil <==> IsDirection(innerStrongType)
    ensures PairType(innerStrongType, priorStrongType, level) != Nil ==>
              IsDirection(PairType(innerStrongType, priorStrongType, level))
  {
    Level.DirectionsDistinct(level);
  }

  /** The last L or R among positions `lo` .. `hi - 1`, or `init`. */
  function LastLR(types: seq<CharType>, lo: int, hi: int, init: CharType): (r: CharType)
    requires 0 <= lo && hi <= |types|
    ensures r == init || IsDirection(r)
    decreases hi - lo
  {
    if hi <= lo then init
    else if IsDirection(types[hi - 1]) then types[hi - 1]
    else LastLR(types, lo, hi - 1, init)
  }

  /** The strong context before a pair: the prior strong link's type (EN
      and AN read as R) updated by every L or R met on the way to the
      opening bracket; sos when there is no prior strong link. */
  function PriorStrongType(types: seq<CharType>, pair: BracketPair, sos: CharType): CharType
    requires pair.openingLink.Some? && pair.openingLink.value <= |types|
    requires pair.priorStrongLink.Some? ==> pair.priorStrongLink.value < pair.openingLink.value
  {
    match pair.priorStrongLink
    case None => sos
    case Some(p) => LastLR(types, p + 1, pair.openingLink.value, StrongOf(types[p]))
  }

  /** The last strong type before `hi` in the sense of N0 (L, or R, EN and
      AN read as R); `init` when there is none. */
  function LastStrongBefore(types: seq<CharType>, hi: int, init: CharType): CharType
    requires 0 <= hi <= |types|
  {
    if hi == 0 then init
    else if types[hi - 1] in {L, R, EN, AN} then StrongOf(types[hi - 1])
    else LastStrongBefore(types, hi - 1, init)
  }

  /** When the prior strong link is the last link typed L, R, EN or AN
      before a stretch holding no EN or AN, the context scan finds the
      strong type nearest before the opening bracket, as N0 c asks. */
  lemma {:induction false} PriorStrongTypeIsLastStrong(types: seq<CharType>, p: int, hi: int)
    requires 0 <= p < hi <= |types|
    requires types[p] in {L, R, EN, AN}
    requires forall k :: p < k < hi ==> types[k] != EN && types[k] != AN
    ensures LastLR(types, p + 1, hi, StrongOf(types[p])) == LastStrongBefore(types, hi, Nil)
    decreases hi - p
  {
    if hi - 1 > p {
      if !IsDirection(types[hi - 1]) {
        PriorStrongTypeIsLastStrong(types, p, hi - 1);
      }
    }
  }

  /** Every link a live pair refers to is a position of the ring, and the
      prior strong link precedes the opening bracket. */
  predicate PairsIn(q: BracketQueue, n: int) {
    && BQ.Valid(q)
    && forall j :: q.front <= j < |q.pairs| ==>
         && (q.pairs[j].openingLink.Some? ==> q.pairs[j].openingLink.value < n)
         && (q.pairs[j].closingLink.Some? ==> q.pairs[j].closingLink.value < n)
         && (q.pairs[j].priorStrongLink.Some? && q.pairs[j].openingLink.Some? ==>
               q.pairs[j].priorStrongLink.value < q.pairs[j].openingLink.value)
  }

  /** The positions of the brackets of the live complete pairs. */
  function BracketLinks(q: BracketQueue): set<int>
    requires BQ.Valid(q)
  {
    (set j | q.front <= j < |q.pairs| && IsComplete(q.pairs[j]) :: q.pairs[j].openingLink.value)
    + (set j | q.front <= j < |q.pairs| && IsComplete(q.pairs[j]) :: q.pairs[j].closingLink.value)
  }

  /** Resolves the pair at the front of the queue: a complete pair whose
      `PairType` is a direction gets it on both brackets; nothing else
      changes. */
  function ResolvePair(types: seq<CharType>, pair: BracketPair, sos: CharType, level: Byte): (r: seq<CharType>)
    requires pair.openingLink.Some? ==> pair.openingLink.value < |types|
    requires pair.closingLink.Some? ==> pair.closingLink.value < |types|
    requires pair.priorStrongLink.Some? && pair.openingLink.Some? ==>
               pair.priorStrongLink.value < pair.openingLink.value
    ensures |r| == |types|
    ensures !IsComplete(pair) ==> r == types
    ensures IsComplete(pair) ==>
              var t := PairType(pair.strongType, PriorStrongType(types, pair, sos), level);
              && (t == Nil ==> r == types)
              && (t != Nil ==> r[pair.openingLink.value] == t && r[pair.closingLink.value] == t)
              && (forall k :: 0 <= k < |types| && k != pair.openingLink.value && k != pair.closingLink.value ==>
                    r[k] == types[k])
  {
    if IsComplete(pair) then
      var pairType := PairType(pair.strongType, PriorStrongType(types, pair, sos), level);
      if pairType != Nil then
        types[pair.openingLink.value := pairType][pair.closingLink.value := pairType]
      else types
    else types
  }

  /** Resolves and dequeues every live pair, oldest first, whether complete
      or not: incomplete pairs are dropped. */
  function ResolveAvailableBracketPairs(types: seq<CharType>, q: BracketQueue, sos: CharType, level: Byte)
    : (r: (seq<CharType>, BracketQueue))
    requires PairsIn(q, |types|)
    ensures |r.0| == |types|
    ensures BQ.Valid(r.1) && BQ.IsEmpty(r.1)
    ensures r.1.pairs == q.pairs && r.1.direction == q.direction && r.1.shouldDequeue == q.shouldDequeue
    ensures forall k :: 0 <= k < |types| && r.0[k] != types[k] ==> k in BracketLinks(q) && IsDirection(r.0[k])
    decreases BQ.Count(q)
  {
    if BQ.IsEmpty(q) then (types, q)
    else
      var pair := Peek(q);
      var types' := ResolvePair(types, pair, sos, level);
      var q' := q.(front := q.front + 1);
      assert BQ.Dequeue(q) == Ok(q');
      var r := ResolveAvailableBracketPairs(types', q', sos, level);
      assert forall k :: 0 <= k < |types| && types'[k] != types[k] ==> k in BracketLinks(q) && IsDirection(types'[k]) by {
        if IsComplete(pair) {
          PairTypeIsDirection(pair.strongType, PriorStrongType(types, pair, sos), level);
        }
      }
      assert BracketLinks(q') <= BracketLinks(q);
      r
  }

  /** What the bracket pass carries from link to link. */
  datatype BracketPass = BracketPass(types: seq<CharType>, queue: BracketQueue, priorStrongLink: Option<nat>)

  /** The character at a span's offset, which the pairing lookup reads,
      exists. */
  predicate OffsetsIn(s: seq<Span>, text: string) {
    OffsetsBelow(s, |text|)
  }

  /** The pairing lookup of the character at each link's offset. */
  function Lookups(s: seq<Span>, text: string, pairing: char -> Bracket): (b: seq<Bracket>)
    requires OffsetsIn(s, text)
    ensures |b| == |s|
    ensures forall k :: 0 <= k < |s| ==> b[k] == pairing(text[s[k].offset])
  {
    seq(|s|, k requires 0 <= k < |s| && OffsetsIn(s, text) => pairing(text[s[k].offset]))
  }

  /** Every live pair's links hold ON in the input and are brackets of the
      matching kind. */
  predicate PairsAreBrackets(s: seq<Span>, b: seq<Bracket>, q: BracketQueue)
    requires |b| == |s| && PairsIn(q, |s|)
  {
    && (forall j :: q.front <= j < |q.pairs| && q.pairs[j].openingLink.Some? ==>
          s[q.pairs[j].openingLink.value].charType == ON && b[q.pairs[j].openingLink.value].kind == Open)
    && (forall j :: q.front <= j < |q.pairs| && q.pairs[j].closingLink.Some? ==>
          s[q.pairs[j].closingLink.value].charType == ON && b[q.pairs[j].closingLink.value].kind == Close)
  }

  /** The only positions whose type differs from the input are brackets
      that held ON and now hold a strong direction. */
  predicate OnlyBracketsChanged(s: seq<Span>, b: seq<Bracket>, types: seq<CharType>)
    requires |b| == |s| == |types|
  {
    forall k :: 0 <= k < |s| && types[k] != s[k].charType ==>
      s[k].charType == ON && b[k].kind != NoBracket && IsDirection(types[k])
  }

  /** The bracket pass state after `n` links: the queue refers only to
      visited brackets, and only brackets have changed type. */
  predicate BracketPassValid(s: seq<Span>, b: seq<Bracket>, n: nat, st: BracketPass) {
    && n <= |s| == |b|
    && |st.types| == |s|
    && PairsIn(st.queue, n)
    && PairsAreBrackets(s, b, st.queue)
    && (st.priorStrongLink.Some? ==> st.priorStrongLink.value < n)
    && (forall k :: n <= k < |s| ==> st.types[k] == s[k].charType)
    && OnlyBracketsChanged(s, b, st.types)
  }

  /** A valid state stays valid one link further on. */
  lemma PassValidLater(s: seq<Span>, b: seq<Bracket>, n: nat, st: BracketPass)
    requires n < |s| && BracketPassValid(s, b, n, st)
    ensures BracketPassValid(s, b, n + 1, st)
  {
  }

  /** Draining the queue keeps the state valid. */
  lemma ResolveAvailableKeepsValid(s: seq<Span>, b: seq<Bracket>, n: nat, st: BracketPass, sos: CharType, level: Byte)
    requires BracketPassValid(s, b, n, st)
    ensures var r := ResolveAvailableBracketPairs(st.types, st.queue, sos, level);
            BracketPassValid(s, b, n, BracketPass(r.0, r.1, st.priorStrongLink))
  {
    var r := ResolveAvailableBracketPairs(st.types, st.queue, sos, level);
    forall k | 0 <= k < |s| && r.0[k] != st.types[k]
      ensures s[k].charType == ON && b[k].kind != NoBracket && k < n
    {
      assert k in BracketLinks(st.queue);
    }
  }

  /** An opening bracket at link `i` becomes a new open pair recording the
      prior strong link. */
  function OpenBracket(s: seq<Span>, b: seq<Bracket>, i: nat, ch: char, st: BracketPass): (r: BracketPass)
    requires i < |s| && BracketPassValid(s, b, i, st) && st.types[i] == ON && b[i].kind == Open
    ensures BracketPassValid(s, b, i + 1, r)
    ensures r.types == st.types && r.priorStrongLink == st.priorStrongLink
    ensures r.queue.pairs[r.queue.front..] == st.queue.pairs[st.queue.front..] + [BracketPair(Some(i), None, ch, st.priorStrongLink, Nil)]
  {
    st.(queue := BQ.Enqueue(st.queue, BracketPair(Some(i), None, ch, st.priorStrongLink, Nil)))
  }

  /** A closing bracket at link `i` closes the newest open pair with the
      same opening bracket, if any, and drains the queue when the dequeue
      flag is up. An empty queue ignores it. */
  function CloseBracket(s: seq<Span>, b: seq<Bracket>, i: nat, st: BracketPass, sos: CharType, level: Byte)
    : (r: BracketPass)
    requires i < |s| && BracketPassValid(s, b, i, st) && st.types[i] == ON && b[i].kind == Close
    ensures BracketPassValid(s, b, i + 1, r)
    ensures r.priorStrongLink == st.priorStrongLink
    ensures BQ.IsEmpty(st.queue) ==> r == st
  {
    if BQ.IsEmpty(st.queue) then
      PassValidLater(s, b, i, st);
      st
    else
      var q := ClosePair(st.queue, i, b[i].pairedChar);
      var st' := st.(queue := q);
      ClosePairKeepsValid(s, b, i, st);
      if q.shouldDequeue then
        ResolveAvailableKeepsValid(s, b, i + 1, st', sos, level);
        var r := ResolveAvailableBracketPairs(st.types, q, sos, level);
        BracketPass(r.0, r.1, st.priorStrongLink)
      else st'
  }

  /** Closing a pair at link `i` keeps the state valid one link further
      on. */
  lemma ClosePairKeepsValid(s: seq<Span>, b: seq<Bracket>, i: nat, st: BracketPass)
    requires i < |s| && BracketPassValid(s, b, i, st) && st.types[i] == ON && b[i].kind == Close
    requires !BQ.IsEmpty(st.queue)
    ensures BracketPassValid(s, b, i + 1, st.(queue := ClosePair(st.queue, i, b[i].pairedChar)))
  {
    var q := ClosePair(st.queue, i, b[i].pairedChar);
    ClosePairChangesLinks(st.queue, i, b[i].pairedChar);
    assert forall j :: st.queue.front <= j < |q.pairs| ==>
      || q.pairs[j] == st.queue.pairs[j]
      || q.pairs[j] == st.queue.pairs[j].(closingLink := Some(i))
      || q.pairs[j] == st.queue.pairs[j].(openingLink := None);
  }

  /** A strong type or number at link `i` becomes the strong type of the
      open pairs (EN and AN read as R) and the prior strong link. */
  function StrongLink(s: seq<Span>, b: seq<Bracket>, i: nat, st: BracketPass): (r: BracketPass)
    requires i < |s| && BracketPassValid(s, b, i, st)
    ensures BracketPassValid(s, b, i + 1, r)
    ensures r.types == st.types && r.priorStrongLink == Some(i)
  {
    var q := if BQ.IsEmpty(st.queue) then st.queue else SetStrongType(st.queue, StrongOf(st.types[i]));
    BracketPass(st.types, q, Some(i))
  }

  /** The types the bracket pass records as strong: L, R, AL and the
      numbers. */
  predicate IsStrongLink(t: CharType) {
    t in {L, R, AL, EN, AN}
  }

  /** Visits link `i`: ON links are looked up as brackets, strong types and
      numbers are recorded, and every other type is passed over. */
  function BracketStep(s: seq<Span>, b: seq<Bracket>, text: string, sos: CharType, level: Byte,
                       i: nat, st: BracketPass): (r: BracketPass)
    requires OffsetsIn(s, text)
    requires i < |s| && BracketPassValid(s, b, i, st)
    ensures BracketPassValid(s, b, i + 1, r)
  {
    var t := st.types[i];
    if t == ON then
      match b[i].kind
      case Open => OpenBracket(s, b, i, text[s[i].offset], st)
      case Close => CloseBracket(s, b, i, st, sos, level)
      case NoBracket => PassValidLater(s, b, i, st); st
    else if IsStrongLink(t) then StrongLink(s, b, i, st)
    else PassValidLater(s, b, i, st); st
  }

  /** The bracket pass after the first `n` links. */
  function BracketPassUpTo(s: seq<Span>, b: seq<Bracket>, text: string, sos: CharType, level: Byte, n: nat)
    : (r: BracketPass)
    requires OffsetsIn(s, text) && |b| == |s| && n <= |s|
    ensures BracketPassValid(s, b, n, r)
  {
    if n == 0 then BracketPass(Types(s), Clear(Level.LevelToEmbeddingType(level)), None)
    else BracketStep(s, b, text, sos, level, n - 1, BracketPassUpTo(s, b, text, sos, level, n - 1))
  }

  /** The types of the spans, in order. */
  function Types(s: seq<Span>): (types: seq<CharType>)
    ensures |types| == |s|
    ensures forall k :: 0 <= k < |s| ==> types[k] == s[k].charType
  {
    seq(|s|, k requires 0 <= k < |s| => s[k].charType)
  }

  /** Rule N0 over the ring: the pass, then every pair still queued is
      resolved. Returns the new type of every position: only links that
      held ON and are brackets by the pairing lookup change, and they
      change to a strong direction. */
  function ResolveBrackets(s: seq<Span>, text: string, pairing: char -> Bracket, sos: CharType, level: Byte)
    : (types: seq<CharType>)
    requires OffsetsIn(s, text)
    ensures |types| == |s|
    ensures forall k :: 0 <= k < |s| && types[k] != s[k].charType ==>
              && s[k].charType == ON
              && pairing(text[s[k].offset]).kind != NoBracket
              && IsDirection(types[k])
  {
    var b := Lookups(s, text, pairing);
    var st := BracketPassUpTo(s, b, text, sos, level, |s|);
    ResolveAvailableKeepsValid(s, b, |s|, st, sos, level);
    ResolveAvailableBracketPairs(st.types, st.queue, sos, level).0
  }

  /** Once the dequeue flag is up, any closing bracket met while pairs are
      queued (whether or not it matches one of them) resolves every queued
      pair and empties the queue, so pairs still open at that point are
      dropped for good. */
  lemma StickyFlagDrainsOnAnyClose(s: seq<Span>, b: seq<Bracket>, i: nat, st: BracketPass, sos: CharType, level: Byte)
    requires i < |s| && BracketPassValid(s, b, i, st) && st.types[i] == ON && b[i].kind == Close
    requires st.queue.shouldDequeue
    ensures BQ.IsEmpty(CloseBracket(s, b, i, st, sos, level).queue)
  {
  }

  /** Before the flag is up, a closing bracket that matches no open pair
      leaves the queue as it was. */
  lemma UnmatchedCloseIsIgnored(s: seq<Span>, b: seq<Bracket>, i: nat, st: BracketPass, sos: CharType, level: Byte)
    requires i < |s| && BracketPassValid(s, b, i, st) && st.types[i] == ON && b[i].kind == Close
    requires !st.queue.shouldDequeue
    requires forall j :: st.queue.front <= j < |st.queue.pairs| ==>
               !(IsOpen(st.queue.pairs[j]) && st.queue.pairs[j].bracket == b[i].pairedChar)
    ensures CloseBracket(s, b, i, st, sos, level) == st
  {
    if !BQ.IsEmpty(st.queue) {
      assert FindMatch(st.queue.pairs, st.queue.front, |st.queue.pairs|, b[i].pairedChar) == -1;
    }
  }

  /** Closing the oldest queued pair raises the dequeue flag, so its pair
      and every pair after it are resolved right away. */
  lemma ClosingOldestPairResolves(s: seq<Span>, b: seq<Bracket>, i: nat, st: BracketPass, sos: CharType, level: Byte)
    requires i < |s| && BracketPassValid(s, b, i, st) && st.types[i] == ON && b[i].kind == Close
    requires !BQ.IsEmpty(st.queue)
    requires FindMatch(st.queue.pairs, st.queue.front, |st.queue.pairs|, b[i].pairedChar) == st.queue.front
    ensures BQ.IsEmpty(CloseBracket(s, b, i, st, sos, level).queue)
    ensures CloseBracket(s, b, i, st, sos, level).queue.shouldDequeue
  {
  }

  // ---------------------------------------------------------------------
  // One bracket pair: what N0 gives its brackets.
  // ---------------------------------------------------------------------

  /** The last position in `lo .. n - 1` whose type the pass records as
      strong. */
  function LastStrongLink(s: seq<Span>, lo: nat, n: int): (r: Option<nat>)
    requires n <= |s|
    ensures r.Some? ==> lo <= r.value < n && IsStrongLink(s[r.value].charType)
    ensures r.Some? ==> forall j :: r.value < j < n ==> !IsStrongLink(s[j].charType)
    ensures r.None? ==> forall j :: lo <= j < n ==> !IsStrongLink(s[j].charType)
    decreases n - lo
  {
    if n <= lo then None
    else if IsStrongLink(s[n - 1].charType) then Some(n - 1)
    else LastStrongLink(s, lo, n - 1)
  }

  /** The strong context before position `o` as N0 c reads it: the last
      strong type before it (numbers read as R), or sos. */
  function PriorContext(s: seq<Span>, o: nat, sos: CharType): CharType
    requires o <= |s|
  {
    match LastStrongLink(s, 0, o)
    case None => sos
    case Some(p) => StrongOf(s[p].charType)
  }

  /** The strong type an open pair at `o` has recorded after the links
      `o + 1 .. n - 1`, when it sees every strong link there: each one
      overwrites it until the embedding direction `e` is seen. */
  function InnerStrong(s: seq<Span>, o: nat, n: int, e: CharType): CharType
    requires n <= |s|
    decreases n
  {
    if n <= o + 1 then Nil
    else
      var before := InnerStrong(s, o, n - 1, e);
      if IsStrongLink(s[n - 1].charType) && before != e then StrongOf(s[n - 1].charType) else before
  }

  /** What the recorded strong type means: the embedding direction when
      some strong type inside reads as it, else the last strong type
      inside, else Nil. */
  lemma {:induction false} InnerStrongMeaning(s: seq<Span>, o: nat, n: int, e: CharType)
    requires n <= |s| && IsDirection(e)
    ensures (exists k :: o < k < n && IsStrongLink(s[k].charType) && StrongOf(s[k].charType) == e) ==>
              InnerStrong(s, o, n, e) == e
    ensures !(exists k :: o < k < n && IsStrongLink(s[k].charType) && StrongOf(s[k].charType) == e) ==>
              InnerStrong(s, o, n, e) == match LastStrongLink(s, o + 1, n)
                                         case None => Nil
                                         case Some(k) => StrongOf(s[k].charType)
    decreases n
  {
    if n > o + 1 {
      InnerStrongMeaning(s, o, n - 1, e);
      if IsStrongLink(s[n - 1].charType) {
        assert LastStrongLink(s, o + 1, n) == Some(n - 1);
      } else {
        assert LastStrongLink(s, o + 1, n) == LastStrongLink(s, o + 1, n - 1);
      }
    }
  }

  /** With no L or R in `lo .. hi - 1`, the context scan keeps `init`. */
  lemma {:induction false} LastLRWithoutDirections(types: seq<CharType>, lo: int, hi: int, init: CharType)
    requires 0 <= lo && hi <= |types|
    requires forall k :: lo <= k < hi ==> !IsDirection(types[k])
    ensures LastLR(types, lo, hi, init) == init
    decreases hi - lo
  {
    if lo < hi {
      LastLRWithoutDirections(types, lo, hi - 1, init);
    }
  }

  /** The lookup finds exactly one pair: an opening bracket at `o` and a
      closing bracket at `c` that pairs with it; every other ON link is
      no bracket. */
  predicate OnePair(s: seq<Span>, b: seq<Bracket>, text: string, o: nat, c: nat)
    requires OffsetsIn(s, text) && |b| == |s|
  {
    && o < c < |s|
    && s[o].charType == ON && b[o].kind == Open
    && s[c].charType == ON && b[c].kind == Close && b[c].pairedChar == text[s[o].offset]
    && forall k :: 0 <= k < |s| && k != o && k != c && s[k].charType == ON ==> b[k].kind == NoBracket
  }

  /** The pair at `o` as the queue holds it after the links before `n`. */
  function PendingPair(s: seq<Span>, text: string, o: nat, n: int, e: CharType): BracketPair
    requires OffsetsIn(s, text) && o < |s| && n <= |s|
  {
    BracketPair(Some(o), None, text[s[o].offset], LastStrongLink(s, 0, o), InnerStrong(s, o, n, e))
  }

  /** Before the opening bracket the queue stays empty and only the prior
      strong link moves. */
  lemma {:induction false} BeforeThePair(s: seq<Span>, b: seq<Bracket>, text: string, sos: CharType, level: Byte,
                                         o: nat, c: nat, n: nat)
    requires OffsetsIn(s, text) && |b| == |s| && OnePair(s, b, text, o, c) && n <= o
    ensures BracketPassUpTo(s, b, text, sos, level, n)
            == BracketPass(Types(s), Clear(Level.LevelToEmbeddingType(level)), LastStrongLink(s, 0, n))
    decreases n
  {
    if n > 0 {
      BeforeThePair(s, b, text, sos, level, o, c, n - 1);
    }
  }

  /** After the links before `n` the pass has left the types alone and its
      queue holds only the open pair at `o`. */
  predicate HoldsOpenPair(s: seq<Span>, b: seq<Bracket>, text: string, sos: CharType, level: Byte, o: nat, n: nat)
    requires OffsetsIn(s, text) && |b| == |s| && o < |s| && n <= |s|
  {
    var e := Level.LevelToEmbeddingType(level);
    BracketPassUpTo(s, b, text, sos, level, n)
    == BracketPass(Types(s), BracketQueue([PendingPair(s, text, o, n, e)], 0, e, false), LastStrongLink(s, 0, n))
  }

  /** After the links before `n` the pass has resolved the pair `o`, `c`
      and its queue is empty again. */
  predicate HoldsClosedPair(s: seq<Span>, b: seq<Bracket>, text: string, sos: CharType, level: Byte, o: nat, c: nat, n: nat)
    requires OffsetsIn(s, text) && |b| == |s| && o < c < |s| && n <= |s|
  {
    var e := Level.LevelToEmbeddingType(level);
    var pair := ClosedPair(s, text, o, c, e);
    BracketPassUpTo(s, b, text, sos, level, n)
    == BracketPass(ResolvePair(Types(s), pair, sos, level), BracketQueue([pair], 1, e, true), LastStrongLink(s, 0, n))
  }

  /** The opening bracket enqueues the pair into the empty queue. */
  lemma AtTheOpen(s: seq<Span>, b: seq<Bracket>, text: string, sos: CharType, level: Byte, o: nat, c: nat)
    requires OffsetsIn(s, text) && |b| == |s| && OnePair(s, b, text, o, c)
    ensures HoldsOpenPair(s, b, text, sos, level, o, o + 1)
  {
    var e := Level.LevelToEmbeddingType(level);
    BeforeThePair(s, b, text, sos, level, o, c, o);
    var st := BracketPassUpTo(s, b, text, sos, level, o);
    assert st == BracketPass(Types(s), Clear(e), LastStrongLink(s, 0, o));
    var pair := BracketPair(Some(o), None, text[s[o].offset], st.priorStrongLink, Nil);
    assert BracketPassUpTo(s, b, text, sos, level, o + 1) == OpenBracket(s, b, o, text[s[o].offset], st);
    assert PendingPair(s, text, o, o + 1, e) == pair;
    assert LastStrongLink(s, 0, o + 1) == LastStrongLink(s, 0, o);
    assert Clear(e).pairs + [pair] == [pair];
  }

  /** Between the brackets the queue holds the one open pair, which records
      every strong link it meets. */
  lemma {:induction false} InsideThePair(s: seq<Span>, b: seq<Bracket>, text: string, sos: CharType, level: Byte,
                                         o: nat, c: nat, n: nat)
    requires OffsetsIn(s, text) && |b| == |s| && OnePair(s, b, text, o, c) && o < n <= c
    ensures HoldsOpenPair(s, b, text, sos, level, o, n)
    decreases n
  {
    hide *;
    if n == o + 1 {
      AtTheOpen(s, b, text, sos, level, o, c);
    } else {
      InsideThePair(s, b, text, sos, level, o, c, n - 1);
      InsideStep(s, b, text, sos, level, o, c, n - 1);
    }
  }

  /** One link between the brackets. */
  lemma InsideStep(s: seq<Span>, b: seq<Bracket>, text: string, sos: CharType, level: Byte, o: nat, c: nat, m: nat)
    requires OffsetsIn(s, text) && |b| == |s| && OnePair(s, b, text, o, c) && o < m < c
    requires HoldsOpenPair(s, b, text, sos, level, o, m)
    ensures HoldsOpenPair(s, b, text, sos, level, o, m + 1)
  {
    var e := Level.LevelToEmbeddingType(level);
    var q := BracketQueue([PendingPair(s, text, o, m, e)], 0, e, false);
    var st := BracketPassUpTo(s, b, text, sos, level, m);
    assert BracketPassUpTo(s, b, text, sos, level, m + 1) == BracketStep(s, b, text, sos, level, m, st);
    if IsStrongLink(s[m].charType) {
      assert SetStrongType(q, StrongOf(s[m].charType)).pairs == [PendingPair(s, text, o, m + 1, e)];
    }
  }

  /** The pair's strong type and context after the closing bracket. */
  function ClosedPair(s: seq<Span>, text: string, o: nat, c: nat, e: CharType): BracketPair
    requires OffsetsIn(s, text) && o < |s| && c <= |s|
  {
    PendingPair(s, text, o, c, e).(closingLink := Some(c))
  }

  /** A closing bracket that matches the only queued pair closes it and
      raises the dequeue flag. */
  lemma CloseOnlyPair(pending: BracketPair, e: CharType, c: nat)
    requires IsOpen(pending)
    ensures ClosePair(BracketQueue([pending], 0, e, false), c, pending.bracket)
            == BracketQueue([pending.(closingLink := Some(c))], 0, e, true)
  {
    var q := BracketQueue([pending], 0, e, false);
    assert FindMatch(q.pairs, 0, 1, pending.bracket) == 0;
    var closed := [pending.(closingLink := Some(c))];
    assert InvalidatePairs(closed, 0) == closed;
  }

  /** Draining a queue holding one pair resolves that pair. */
  lemma ResolveOnlyPair(types: seq<CharType>, pair: BracketPair, e: CharType, sos: CharType, level: Byte)
    requires PairsIn(BracketQueue([pair], 0, e, true), |types|)
    ensures ResolveAvailableBracketPairs(types, BracketQueue([pair], 0, e, true), sos, level)
            == (ResolvePair(types, pair, sos, level), BracketQueue([pair], 1, e, true))
  {
    var q := BracketQueue([pair], 0, e, true);
    assert Peek(q) == pair;
  }

  /** The closing bracket closes the pair, which is the oldest, so the pair
      is resolved at once and the queue is left empty. */
  lemma AtTheClose(s: seq<Span>, b: seq<Bracket>, text: string, sos: CharType, level: Byte, o: nat, c: nat)
    requires OffsetsIn(s, text) && |b| == |s| && OnePair(s, b, text, o, c)
    ensures HoldsClosedPair(s, b, text, sos, level, o, c, c + 1)
  {
    var e := Level.LevelToEmbeddingType(level);
    var pending := PendingPair(s, text, o, c, e);
    var q := BracketQueue([pending], 0, e, false);
    InsideThePair(s, b, text, sos, level, o, c, c);
    var st := BracketPassUpTo(s, b, text, sos, level, c);
    assert st == BracketPass(Types(s), q, LastStrongLink(s, 0, c));
    assert BracketPassUpTo(s, b, text, sos, level, c + 1) == CloseBracket(s, b, c, st, sos, level);
    var pair := ClosedPair(s, text, o, c, e);
    CloseOnlyPair(pending, e, c);
    ResolveOnlyPair(Types(s), pair, e, sos, level);
  }

  /** One link after the closing bracket. */
  lemma AfterStep(s: seq<Span>, b: seq<Bracket>, text: string, sos: CharType, level: Byte, o: nat, c: nat, m: nat)
    requires OffsetsIn(s, text) && |b| == |s| && OnePair(s, b, text, o, c) && c < m < |s|
    requires HoldsClosedPair(s, b, text, sos, level, o, c, m)
    ensures HoldsClosedPair(s, b, text, sos, level, o, c, m + 1)
  {
    var st := BracketPassUpTo(s, b, text, sos, level, m);
    assert st.types[m] == s[m].charType;
    assert BracketPassUpTo(s, b, text, sos, level, m + 1) == BracketStep(s, b, text, sos, level, m, st);
  }

  /** After the closing bracket the queue stays empty and the types stay
      as the pair left them. */
  lemma {:induction false} AfterThePair(s: seq<Span>, b: seq<Bracket>, text: string, sos: CharType, level: Byte,
                                        o: nat, c: nat, n: nat)
    requires OffsetsIn(s, text) && |b| == |s| && OnePair(s, b, text, o, c) && c < n <= |s|
    ensures HoldsClosedPair(s, b, text, sos, level, o, c, n)
    decreases n
  {
    hide *;
    if n == c + 1 {
      AtTheClose(s, b, text, sos, level, o, c);
    } else {
      AfterThePair(s, b, text, sos, level, o, c, n - 1);
      AfterStep(s, b, text, sos, level, o, c, n - 1);
    }
  }

  /** With one bracket pair, N0 over the ring is the resolution of that
      pair on the input types. */
  lemma OnePairIsResolved(s: seq<Span>, text: string, pairing: char -> Bracket, sos: CharType, level: Byte, o: nat, c: nat)
    requires OffsetsIn(s, text) && OnePair(s, Lookups(s, text, pairing), text, o, c)
    ensures ResolveBrackets(s, text, pairing, sos, level)
            == ResolvePair(Types(s), ClosedPair(s, text, o, c, Level.LevelToEmbeddingType(level)), sos, level)
  {
    var b := Lookups(s, text, pairing);
    var e := Level.LevelToEmbeddingType(level);
    var pair := ClosedPair(s, text, o, c, e);
    AfterThePair(s, b, text, sos, level, o, c, |s|);
  }

  /** N0 b-d for the pair `o`, `c` and the types `r` after it: no other
      link changes; when a strong type inside the pair reads as the
      embedding direction, both brackets take it (N0 b); when every strong
      type inside reads as the opposite direction, both brackets take the
      opposite direction if the context before the pair does too, else the
      embedding direction (N0 c); with no strong type inside, both stay ON
      (N0 d). */
  predicate PairResolvedByN0(s: seq<Span>, o: nat, c: nat, sos: CharType, level: Byte, r: seq<CharType>)
    requires o < c < |s| == |r|
  {
    var e := Level.LevelToEmbeddingType(level);
    var opposite := Level.LevelToOppositeType(level);
    && (forall k :: 0 <= k < |s| && k != o && k != c ==> r[k] == s[k].charType)
    && ((exists k :: o < k < c && IsStrongLink(s[k].charType) && StrongOf(s[k].charType) == e) ==>
          r[o] == e && r[c] == e)
    && ((exists k :: o < k < c && StrongOf(s[k].charType) == opposite)
        && (forall k :: o < k < c && IsStrongLink(s[k].charType) ==> StrongOf(s[k].charType) == opposite) ==>
          var t := if PriorContext(s, o, sos) == opposite then opposite else e;
          r[o] == t && r[c] == t)
    && ((forall k :: o < k < c ==> !IsStrongLink(s[k].charType)) ==> r[o] == ON && r[c] == ON)
  }

  /** The context the closed pair reads before its opening bracket is the
      last strong type before it, or sos. */
  lemma ClosedPairContext(s: seq<Span>, text: string, o: nat, c: nat, sos: CharType, e: CharType)
    requires OffsetsIn(s, text) && o < c < |s|
    ensures PriorStrongType(Types(s), ClosedPair(s, text, o, c, e), sos) == PriorContext(s, o, sos)
  {
    var prior := LastStrongLink(s, 0, o);
    if prior.Some? {
      LastLRWithoutDirections(Types(s), prior.value + 1, o, StrongOf(s[prior.value].charType));
    }
  }

  /** Resolving the closed pair on the input types is N0 b-d. */
  lemma ClosedPairFollowsN0(s: seq<Span>, text: string, o: nat, c: nat, sos: CharType, level: Byte)
    requires OffsetsIn(s, text) && o < c < |s| && s[o].charType == ON && s[c].charType == ON
    ensures PairResolvedByN0(s, o, c, sos, level,
                             ResolvePair(Types(s), ClosedPair(s, text, o, c, Level.LevelToEmbeddingType(level)), sos, level))
  {
    var e := Level.LevelToEmbeddingType(level);
    var opposite := Level.LevelToOppositeType(level);
    var pair := ClosedPair(s, text, o, c, e);
    var types := Types(s);
    var r := ResolvePair(types, pair, sos, level);
    var context := PriorContext(s, o, sos);
    ClosedPairContext(s, text, o, c, sos, e);
    Level.DirectionsDistinct(level);
    InnerStrongMeaning(s, o, c, e);
    var t := PairType(pair.strongType, context, level);
    assert IsComplete(pair);
    assert forall k :: 0 <= k < |s| && k != o && k != c ==> r[k] == s[k].charType;
    if exists k :: o < k < c && IsStrongLink(s[k].charType) && StrongOf(s[k].charType) == e {
      assert t == e;
    } else if exists k :: o < k < c && StrongOf(s[k].charType) == opposite {
      var k :| o < k < c && StrongOf(s[k].charType) == opposite;
      assert IsStrongLink(s[k].charType);
      var j := LastStrongLink(s, o + 1, c).value;
      if forall k :: o < k < c && IsStrongLink(s[k].charType) ==> StrongOf(s[k].charType) == opposite {
        assert StrongOf(s[j].charType) == opposite;
        assert t == if context == opposite then opposite else e;
      }
    } else if forall k :: o < k < c ==> !IsStrongLink(s[k].charType) {
      assert pair.strongType == Nil;
    }
  }

  /** N0 over a ring whose only bracket pair is `o`, `c`. */
  lemma OnePairResolves(s: seq<Span>, text: string, pairing: char -> Bracket, sos: CharType, level: Byte, o: nat, c: nat)
    requires OffsetsIn(s, text) && OnePair(s, Lookups(s, text, pairing), text, o, c)
    ensures PairResolvedByN0(s, o, c, sos, level, ResolveBrackets(s, text, pairing, sos, level))
  {
    OnePairIsResolved(s, text, pairing, sos, level, o, c);
    ClosedPairFollowsN0(s, text, o, c, sos, level);
  }
}
