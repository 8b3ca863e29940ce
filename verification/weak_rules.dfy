/** Rules W1-W7 of UAX #9 (section 3.3.4) as the resolver applies them: two
    passes over the ring of an isolating run sequence. The first applies
    W1-W3, the second W4-W7. Each pass walks the links carrying a small
    state, stores a new type in every link and emits it, folding it into
    its predecessor when the type it read for the link (before W2/W3,
    respectively before W6/W7) equals the predecessor's stored type and is
    not ON.

    Each pass is paired with a reference that types every position from its
    neighbours in the pass's input, as the annex states the rules, and a
    theorem that the characters the pass output covers carry exactly the
    reference types. */
module WeakRules {
  import opened BidiTypes
  import opened Spans

  /** A type a link of the chain can carry when weak resolution starts:
      explicit formatting characters and BN have been folded away by X9,
      and only the roller reads as `Nil`. */
  predicate IsChainType(t: CharType) {
    t != Nil && !IsRemovedByX9(t)
  }

  /** The types that remain after W1-W3: no NSM and no AL. */
  predicate IsAfterW3(t: CharType) {
    IsChainType(t) && t != NSM && t != AL
  }

  /** The types that remain after W1-W7: moreover no ES, ET or CS. */
  predicate IsAfterW7(t: CharType) {
    IsAfterW3(t) && t != ES && t != ET && t != CS
  }

  predicate AllChainTypes(s: seq<Span>) {
    forall k :: 0 <= k < |s| ==> IsChainType(s[k].charType)
  }

  predicate AllAfterW3(s: seq<Span>) {
    forall k :: 0 <= k < |s| ==> IsAfterW3(s[k].charType)
  }

  predicate AllAfterW7(s: seq<Span>) {
    forall k :: 0 <= k < |s| ==> IsAfterW7(s[k].charType)
  }

  // ---------------------------------------------------------------------
  // First pass: W1-W3.

  /** The strong types W2 looks back for. */
  predicate IsW2Strong(t: CharType) {
    t == L || t == R || t == AL
  }

  /** W1: the type an NSM takes after a character typed `prior`; after an
      isolate initiator or PDI it is ON. */
  function AfterNsm(prior: CharType): (t: CharType)
    ensures IsIsolateControl(prior) ==> t == ON
    ensures !IsIsolateControl(prior) ==> t == prior
  {
    if IsIsolateControl(prior) then ON else prior
  }

  /** W2 and W3 applied to a type `t` that W1 produced, given the last
      strong type before it. */
  function W2W3(t: CharType, strong: CharType): (r: CharType)
    ensures r != AL
    ensures t == EN ==> (r == AN <==> strong == AL) && (r == EN <==> strong != AL)
    ensures t == AL ==> r == R
    ensures t != EN && t != AL ==> r == t
  {
    if t == EN then (if strong == AL then AN else EN)
    else if t == AL then R
    else t
  }

  /** What the first pass carries from link to link: W1's prior type and
      W2's last strong type. */
  datatype FirstPass = FirstPass(w1PriorType: CharType, w2StrongType: CharType)

  /** The type the first pass reads for `x` after W1. */
  function FirstLocalType(st: FirstPass, x: Span): CharType {
    if x.charType == NSM then AfterNsm(st.w1PriorType) else x.charType
  }

  /** The link `x` as the first pass stores it: retyped by W2 and W3. */
  function FirstStored(st: FirstPass, x: Span): Span {
    x.(charType := W2W3(FirstLocalType(st, x), st.w2StrongType))
  }

  function FirstStep(st: FirstPass, x: Span): FirstPass {
    var t := FirstLocalType(st, x);
    FirstPass(t, if IsW2Strong(t) then t else st.w2StrongType)
  }

  /** The state of the first pass when it reaches link `n`. */
  function FirstPassUpTo(s: seq<Span>, sos: CharType, n: nat): FirstPass
    requires n <= |s|
  {
    if n == 0 then FirstPass(sos, sos)
    else FirstStep(FirstPassUpTo(s, sos, n - 1), s[n - 1])
  }

  /** The links as the first pass stores them, and the types it reads
      them with. */
  function FirstStoredLinks(s: seq<Span>, sos: CharType): (ys: seq<Span>)
    ensures |ys| == |s|
  {
    seq(|s|, i requires 0 <= i < |s| => FirstStored(FirstPassUpTo(s, sos, i), s[i]))
  }

  function FirstReadTypes(s: seq<Span>, sos: CharType): (ts: seq<CharType>)
    ensures |ts| == |s|
  {
    seq(|s|, i requires 0 <= i < |s| => FirstLocalType(FirstPassUpTo(s, sos, i), s[i]))
  }

  /** Rules W1-W3 over the whole ring: every stored link emitted in turn. */
  function ResolveW1ToW3(s: seq<Span>, sos: CharType): seq<Span> {
    Fold(FirstStoredLinks(s, sos), FirstReadTypes(s, sos), |s|)
  }

  /** The nearest position before `i` whose type is not NSM, or -1. */
  function LastNonNsm(s: seq<Span>, i: int): (j: int)
    requires 0 <= i <= |s|
    ensures -1 <= j < i
    ensures j >= 0 ==> s[j].charType != NSM
    ensures forall k :: j < k < i ==> s[k].charType == NSM
  {
    if i == 0 then -1
    else if s[i - 1].charType != NSM then i - 1
    else LastNonNsm(s, i - 1)
  }

  /** W1 as the annex states it: an NSM takes the type of the nearest
      earlier character that is not an NSM (sos when there is none), except
      that after an isolate initiator or PDI it becomes ON. */
  function W1Type(s: seq<Span>, sos: CharType, i: int): CharType
    requires 0 <= i < |s|
  {
    if s[i].charType != NSM then s[i].charType
    else
      var j := LastNonNsm(s, i);
      if j < 0 then sos else AfterNsm(s[j].charType)
  }

  /** The last W1 type among the first `i` positions that is L, R or AL;
      sos when there is none. */
  function LastW2Strong(s: seq<Span>, sos: CharType, i: int): CharType
    requires 0 <= i <= |s|
  {
    if i == 0 then sos
    else if IsW2Strong(W1Type(s, sos, i - 1)) then W1Type(s, sos, i - 1)
    else LastW2Strong(s, sos, i - 1)
  }

  /** The type W1-W3 give position `i`. */
  function WeakType1(s: seq<Span>, sos: CharType, i: int): CharType
    requires 0 <= i < |s|
  {
    W2W3(W1Type(s, sos, i), LastW2Strong(s, sos, i))
  }

  /** The input with every position retyped by W1-W3 and nothing merged. */
  function Reference1(s: seq<Span>, sos: CharType): seq<Span> {
    Retype(s, seq(|s|, i requires 0 <= i < |s| => WeakType1(s, sos, i)))
  }

  /** The types the reference reads positions with: W1's. */
  function LocalTypes1(s: seq<Span>, sos: CharType): (ts: seq<CharType>)
    ensures |ts| == |s|
  {
    seq(|s|, i requires 0 <= i < |s| => W1Type(s, sos, i))
  }

  /** W1 applied to an NSM that follows an NSM repeats the earlier result. */
  lemma W1TypeChain(s: seq<Span>, sos: CharType, i: int)
    requires IsDirection(sos)
    requires 0 < i < |s| && s[i].charType == NSM
    ensures W1Type(s, sos, i) == AfterNsm(W1Type(s, sos, i - 1))
  {
    if s[i - 1].charType == NSM {
      assert LastNonNsm(s, i) == LastNonNsm(s, i - 1);
    }
  }

  /** The first pass at link `n` agrees with the reference: W1's prior
      type and W2's last strong type are the reference's. */
  predicate FirstPassState(s: seq<Span>, sos: CharType, n: nat, st: FirstPass)
    requires n <= |s|
  {
    && (n == 0 ==> st.w1PriorType == sos)
    && (n > 0 ==> st.w1PriorType == W1Type(s, sos, n - 1))
    && st.w2StrongType == LastW2Strong(s, sos, n)
  }

  /** The first pass reads link `m` with its W1 type, stores its W1-W3
      type, and keeps its state in agreement with the reference. */
  lemma FirstStepState(s: seq<Span>, sos: CharType, m: nat, st: FirstPass)
    requires IsDirection(sos)
    requires m < |s|
    requires FirstPassState(s, sos, m, st)
    ensures FirstLocalType(st, s[m]) == W1Type(s, sos, m)
    ensures FirstStored(st, s[m]).charType == WeakType1(s, sos, m)
    ensures FirstPassState(s, sos, m + 1, FirstStep(st, s[m]))
  {
    if s[m].charType == NSM && m > 0 {
      W1TypeChain(s, sos, m);
    }
  }

  lemma {:induction false} FirstPassStateHolds(s: seq<Span>, sos: CharType, n: nat)
    requires IsDirection(sos)
    requires n <= |s|
    ensures FirstPassState(s, sos, n, FirstPassUpTo(s, sos, n))
    decreases n
  {
    if n > 0 {
      FirstPassStateHolds(s, sos, n - 1);
      FirstStepState(s, sos, n - 1, FirstPassUpTo(s, sos, n - 1));
    }
  }

  /** Link `m` as the first pass stores and reads it is the reference's. */
  lemma FirstStoredAt(s: seq<Span>, sos: CharType, m: nat)
    requires IsDirection(sos)
    requires m < |s|
    ensures FirstStoredLinks(s, sos)[m] == Reference1(s, sos)[m]
    ensures FirstReadTypes(s, sos)[m] == LocalTypes1(s, sos)[m]
  {
    FirstPassStateHolds(s, sos, m);
    FirstStepState(s, sos, m, FirstPassUpTo(s, sos, m));
  }

  /** The first pass stores every link with its W1-W3 reference type and
      reads it with its W1 type. */
  lemma FirstPassIsReference(s: seq<Span>, sos: CharType)
    requires IsDirection(sos)
    ensures FirstStoredLinks(s, sos) == Reference1(s, sos)
    ensures FirstReadTypes(s, sos) == LocalTypes1(s, sos)
  {
    forall m | 0 <= m < |s|
      ensures FirstStoredLinks(s, sos)[m] == Reference1(s, sos)[m]
      ensures FirstReadTypes(s, sos)[m] == LocalTypes1(s, sos)[m]
    {
      FirstStoredAt(s, sos, m);
    }
  }

  /** Folding in the first pass never changes a type: a link read as EN
      is folded into an EN only under the same W2 context, so W2 leaves
      it EN as well; a link read as AL is never folded. */
  lemma FirstSafeAt(s: seq<Span>, sos: CharType, k: int)
    requires 0 < k < |s|
    requires W1Type(s, sos, k) != ON && WeakType1(s, sos, k - 1) == W1Type(s, sos, k)
    ensures WeakType1(s, sos, k) == W1Type(s, sos, k)
  {
  }

  lemma FirstFoldsSafely(s: seq<Span>, sos: CharType)
    ensures FoldsSafely(Reference1(s, sos), LocalTypes1(s, sos))
  {
    var ys, ts := Reference1(s, sos), LocalTypes1(s, sos);
    forall k | 0 < k < |ys| && ts[k] != ON && ys[k - 1].charType == ts[k]
      ensures ys[k].charType == ts[k]
    {
      FirstSafeAt(s, sos, k);
    }
  }

  /** A position the reference types ET was read as ET. */
  lemma FirstKeepsET(s: seq<Span>, sos: CharType)
    ensures forall k :: 0 <= k < |s| && Reference1(s, sos)[k].charType == ET ==> LocalTypes1(s, sos)[k] == ET
  {
  }

  /** W1-W3 change no character's type other than as the reference says,
      and the merges keep every character: the characters the output
      covers carry exactly the reference types, and no two neighbouring
      output links are ET. */
  lemma ResolveW1ToW3Characters(s: seq<Span>, sos: CharType)
    requires IsDirection(sos)
    ensures Expand(ResolveW1ToW3(s, sos)) == Expand(Reference1(s, sos))
    ensures TotalLength(ResolveW1ToW3(s, sos)) == TotalLength(s)
    ensures NoAdjacentET(ResolveW1ToW3(s, sos))
  {
    var ys, ts := Reference1(s, sos), LocalTypes1(s, sos);
    FirstPassIsReference(s, sos);
    FirstFoldsSafely(s, sos);
    FoldCovers(ys, ts, |s|);
    assert ys[..|s|] == ys;
    RetypeKeepsLength(s, seq(|s|, i requires 0 <= i < |s| => WeakType1(s, sos, i)));
    FirstKeepsET(s, sos);
    FoldNoAdjacentET(ys, ts, |s|);
  }

  /** Retyping keeps the covered length. */
  lemma {:induction false} RetypeKeepsLength(s: seq<Span>, types: seq<CharType>)
    requires |types| == |s|
    ensures TotalLength(Retype(s, types)) == TotalLength(s)
    decreases |s|
  {
    if |s| > 0 {
      var n := |s| - 1;
      assert Retype(s, types)[..n] == Retype(s[..n], types[..n]);
      RetypeKeepsLength(s[..n], types[..n]);
    }
  }

  /** On a chain's types, W1 gives every position a chain type other than
      NSM. */
  lemma W1TypeAfterW1(s: seq<Span>, sos: CharType, k: int)
    requires IsDirection(sos)
    requires AllChainTypes(s)
    requires 0 <= k < |s|
    ensures IsChainType(W1Type(s, sos, k)) && W1Type(s, sos, k) != NSM
  {
    if s[k].charType == NSM {
      var j := LastNonNsm(s, k);
      if j >= 0 {
        assert IsChainType(s[j].charType);
      }
    }
  }

  /** On a chain's types, W1-W3 give every position a type other than NSM
      and AL. */
  lemma Reference1AfterW3(s: seq<Span>, sos: CharType)
    requires IsDirection(sos)
    requires AllChainTypes(s)
    ensures AllAfterW3(Reference1(s, sos))
  {
    forall k | 0 <= k < |s| ensures IsAfterW3(WeakType1(s, sos, k)) {
      W1TypeAfterW1(s, sos, k);
    }
  }

  /** On a chain's types, the first pass leaves neither NSM nor AL. */
  lemma FirstPassTypes(s: seq<Span>, sos: CharType)
    requires IsDirection(sos)
    requires AllChainTypes(s)
    ensures AllAfterW3(ResolveW1ToW3(s, sos))
  {
    var ys, ts := Reference1(s, sos), LocalTypes1(s, sos);
    FirstPassIsReference(s, sos);
    Reference1AfterW3(s, sos);
    FoldTypesFrom(ys, ts, |s|);
  }

  // ---------------------------------------------------------------------
  // Second pass: W4-W7.

  /** The type of the link after position `i`; past the last link it is
      the roller's, `Nil`. */
  function NextType(s: seq<Span>, i: int): CharType
    requires 0 <= i < |s|
  {
    if i + 1 < |s| then s[i + 1].charType else Nil
  }

  /** The type of the link before position `i`; sos before the first. */
  function PriorType(s: seq<Span>, sos: CharType, i: int): CharType
    requires 0 <= i < |s|
  {
    if i == 0 then sos else s[i - 1].charType
  }

  /** W4: a single ES between two ENs becomes EN; a single CS between two
      ENs or two ANs takes their type. */
  function W4(x: Span, prior: CharType, next: CharType): (t: CharType)
    ensures t != x.charType ==> (x.charType == ES || x.charType == CS) && x.length == 1
    ensures t != x.charType ==> t == prior && t == next && (t == EN || t == AN)
    ensures t != x.charType ==> t == EN || x.charType == CS
  {
    if x.length == 1 && (x.charType == ES || x.charType == CS)
       && (prior == EN || prior == AN) && prior == next && (prior == EN || x.charType == CS)
    then prior
    else x.charType
  }

  /** W5: an ET next to an EN becomes EN. */
  function W5(t: CharType, prior: CharType, next: CharType): (r: CharType)
    ensures r != t ==> t == ET && r == EN && (prior == EN || next == EN)
    ensures t == ET && (prior == EN || next == EN) ==> r == EN
  {
    if t == ET && (prior == EN || next == EN) then EN else t
  }

  /** W6 and W7: a remaining separator or terminator becomes ON, and an EN
      whose last strong type is L becomes L. */
  function W6W7(t: CharType, strong: CharType): (r: CharType)
    ensures r != ET && r != ES && r != CS
    ensures t == ET || t == ES || t == CS ==> r == ON
    ensures t == EN ==> (r == L <==> strong == L) && (r == EN <==> strong != L)
    ensures t != ET && t != ES && t != CS && t != EN ==> r == t
  {
    if t == ET || t == CS || t == ES then ON
    else if t == EN && strong == L then L
    else t
  }

  /** What the second pass carries from link to link: the prior types W4
      and W5 read, and W7's last strong type. */
  datatype SecondPass = SecondPass(w4PriorType: CharType, w5PriorType: CharType, w7StrongType: CharType)

  /** The type the second pass reads for `x` after W4 and W5. */
  function SecondLocalType(st: SecondPass, x: Span, next: CharType): CharType {
    W5(W4(x, st.w4PriorType, next), st.w5PriorType, next)
  }

  /** The link `x` as the second pass stores it: retyped by W6 and W7. */
  function SecondStored(st: SecondPass, x: Span, next: CharType): Span {
    x.(charType := W6W7(SecondLocalType(st, x, next), st.w7StrongType))
  }

  function SecondStep(st: SecondPass, x: Span, next: CharType): SecondPass {
    var t4 := W4(x, st.w4PriorType, next);
    var t5 := SecondLocalType(st, x, next);
    SecondPass(t4, t5, if t5 == L || t5 == R then t5 else st.w7StrongType)
  }

  /** The state of the second pass when it reaches link `n`; each link
      reads the type of its successor as the first pass left it. */
  function SecondPassUpTo(s: seq<Span>, sos: CharType, n: nat): SecondPass
    requires n <= |s|
  {
    if n == 0 then SecondPass(sos, sos, sos)
    else SecondStep(SecondPassUpTo(s, sos, n - 1), s[n - 1], NextType(s, n - 1))
  }

  /** The links as the second pass stores them, and the types it reads
      them with. */
  function SecondStoredLinks(s: seq<Span>, sos: CharType): (ys: seq<Span>)
    ensures |ys| == |s|
  {
    seq(|s|, i requires 0 <= i < |s| => SecondStored(SecondPassUpTo(s, sos, i), s[i], NextType(s, i)))
  }

  function SecondReadTypes(s: seq<Span>, sos: CharType): (ts: seq<CharType>)
    ensures |ts| == |s|
  {
    seq(|s|, i requires 0 <= i < |s| => SecondLocalType(SecondPassUpTo(s, sos, i), s[i], NextType(s, i)))
  }

  /** Rules W4-W7 over the whole ring: every stored link emitted in turn. */
  function ResolveW4ToW7(s: seq<Span>, sos: CharType): seq<Span> {
    Fold(SecondStoredLinks(s, sos), SecondReadTypes(s, sos), |s|)
  }

  /** Rules W1-W7: the two passes in turn. */
  function ResolveWeakTypes(s: seq<Span>, sos: CharType): seq<Span> {
    ResolveW4ToW7(ResolveW1ToW3(s, sos), sos)
  }

  /** W4 as the annex states it, reading both neighbours in the input. */
  function W4Type(s: seq<Span>, sos: CharType, i: int): CharType
    requires 0 <= i < |s|
  {
    W4(s[i], PriorType(s, sos, i), NextType(s, i))
  }

  /** W5 as the annex states it, reading both neighbours in the input. */
  function W5Type(s: seq<Span>, sos: CharType, i: int): CharType
    requires 0 <= i < |s|
  {
    W5(W4Type(s, sos, i), PriorType(s, sos, i), NextType(s, i))
  }

  /** The last L or R among the first `i` positions; sos when none. */
  function LastDirection(s: seq<Span>, sos: CharType, i: int): CharType
    requires 0 <= i <= |s|
  {
    if i == 0 then sos
    else if IsDirection(s[i - 1].charType) then s[i - 1].charType
    else LastDirection(s, sos, i - 1)
  }

  /** The type W4-W7 give position `i`. */
  function WeakType2(s: seq<Span>, sos: CharType, i: int): CharType
    requires 0 <= i < |s|
  {
    W6W7(W5Type(s, sos, i), LastDirection(s, sos, i))
  }

  /** The input with every position retyped by W4-W7 and nothing merged. */
  function Reference2(s: seq<Span>, sos: CharType): seq<Span> {
    Retype(s, seq(|s|, i requires 0 <= i < |s| => WeakType2(s, sos, i)))
  }

  /** The types the reference reads positions with: W5's. */
  function LocalTypes2(s: seq<Span>, sos: CharType): (ts: seq<CharType>)
    ensures |ts| == |s|
  {
    seq(|s|, i requires 0 <= i < |s| => W5Type(s, sos, i))
  }

  /** The W4 result of the link before an ES, CS or ET is that link's own
      type: W4 changes a link only when its successor is a number. */
  lemma W4BeforeSeparator(s: seq<Span>, sos: CharType, i: int)
    requires 0 < i < |s|
    requires s[i].charType == ES || s[i].charType == CS || s[i].charType == ET
    ensures W4Type(s, sos, i - 1) == s[i - 1].charType
  {
  }

  /** The second pass at link `n` agrees with the reference: the prior
      types of W4 and W5 and W7's last strong type are the reference's. */
  predicate SecondPassState(s: seq<Span>, sos: CharType, n: nat, st: SecondPass)
    requires n <= |s|
  {
    && (n == 0 ==> st.w4PriorType == sos && st.w5PriorType == sos)
    && (n > 0 ==> st.w4PriorType == W4Type(s, sos, n - 1) && st.w5PriorType == W5Type(s, sos, n - 1))
    && st.w7StrongType == LastDirection(s, sos, n)
  }

  /** The second pass reads link `m` with its W5 type, stores its W4-W7
      type, and keeps its state in agreement with the reference, provided
      no two neighbouring input links are ET. */
  lemma SecondStepState(s: seq<Span>, sos: CharType, m: nat, st: SecondPass)
    requires IsDirection(sos)
    requires NoAdjacentET(s)
    requires m < |s|
    requires SecondPassState(s, sos, m, st)
    ensures SecondLocalType(st, s[m], NextType(s, m)) == W5Type(s, sos, m)
    ensures SecondStored(st, s[m], NextType(s, m)).charType == WeakType2(s, sos, m)
    ensures SecondPassState(s, sos, m + 1, SecondStep(st, s[m], NextType(s, m)))
  {
    var x := s[m];
    var next := NextType(s, m);
    if m > 0 && (x.charType == ES || x.charType == CS || x.charType == ET) {
      W4BeforeSeparator(s, sos, m);
    }
    var t4 := W4(x, st.w4PriorType, next);
    assert t4 == W4Type(s, sos, m);
    var t5 := W5(t4, st.w5PriorType, next);
    assert t5 == W5Type(s, sos, m);
  }

  /** The second pass keeps its state in agreement with the reference. */
  lemma {:induction false} SecondPassStateHolds(s: seq<Span>, sos: CharType, n: nat)
    requires IsDirection(sos)
    requires NoAdjacentET(s)
    requires n <= |s|
    ensures SecondPassState(s, sos, n, SecondPassUpTo(s, sos, n))
    decreases n
  {
    if n > 0 {
      SecondPassStateHolds(s, sos, n - 1);
      SecondStepState(s, sos, n - 1, SecondPassUpTo(s, sos, n - 1));
    }
  }

  /** Link `m` as the second pass stores and reads it is the reference's. */
  lemma SecondStoredAt(s: seq<Span>, sos: CharType, m: nat)
    requires IsDirection(sos)
    requires NoAdjacentET(s)
    requires m < |s|
    ensures SecondStoredLinks(s, sos)[m] == Reference2(s, sos)[m]
    ensures SecondReadTypes(s, sos)[m] == LocalTypes2(s, sos)[m]
  {
    SecondPassStateHolds(s, sos, m);
    SecondStepState(s, sos, m, SecondPassUpTo(s, sos, m));
  }

  /** On a ring without neighbouring ET links, the second pass stores
      every link with its W4-W7 reference type and reads it with its W5
      type. */
  lemma SecondPassIsReference(s: seq<Span>, sos: CharType)
    requires IsDirection(sos)
    requires NoAdjacentET(s)
    ensures SecondStoredLinks(s, sos) == Reference2(s, sos)
    ensures SecondReadTypes(s, sos) == LocalTypes2(s, sos)
  {
    forall m | 0 <= m < |s|
      ensures SecondStoredLinks(s, sos)[m] == Reference2(s, sos)[m]
      ensures SecondReadTypes(s, sos)[m] == LocalTypes2(s, sos)[m]
    {
      SecondStoredAt(s, sos, m);
    }
  }

  /** Folding in the second pass never changes a type: separators and
      terminators are never folded, since W6 turns every earlier one into
      ON, and an EN is folded into an EN only under the same W7 context. */
  lemma SecondSafeAt(s: seq<Span>, sos: CharType, k: int)
    requires 0 < k < |s|
    requires W5Type(s, sos, k) != ON && WeakType2(s, sos, k - 1) == W5Type(s, sos, k)
    ensures WeakType2(s, sos, k) == W5Type(s, sos, k)
  {
  }

  lemma SecondFoldsSafely(s: seq<Span>, sos: CharType)
    ensures FoldsSafely(Reference2(s, sos), LocalTypes2(s, sos))
  {
    var ys, ts := Reference2(s, sos), LocalTypes2(s, sos);
    forall k | 0 < k < |ys| && ts[k] != ON && ys[k - 1].charType == ts[k]
      ensures ys[k].charType == ts[k]
    {
      SecondSafeAtReference(s, sos, k);
    }
  }

  lemma SecondSafeAtReference(s: seq<Span>, sos: CharType, k: int)
    requires 0 < k < |s|
    requires LocalTypes2(s, sos)[k] != ON
    requires Reference2(s, sos)[k - 1].charType == LocalTypes2(s, sos)[k]
    ensures Reference2(s, sos)[k].charType == LocalTypes2(s, sos)[k]
  {
    Reference2At(s, sos, k - 1);
    Reference2At(s, sos, k);
    SecondSafeAt(s, sos, k);
  }

  /** Position `k` of the reference carries its W4-W7 type and is read
      with its W5 type. */
  lemma Reference2At(s: seq<Span>, sos: CharType, k: int)
    requires 0 <= k < |s|
    ensures Reference2(s, sos)[k].charType == WeakType2(s, sos, k)
    ensures LocalTypes2(s, sos)[k] == W5Type(s, sos, k)
  {
  }

  /** W4-W7 on a ring without neighbouring ET links: the characters the
      output covers carry exactly the reference types. */
  lemma ResolveW4ToW7Characters(s: seq<Span>, sos: CharType)
    requires IsDirection(sos)
    requires NoAdjacentET(s)
    ensures Expand(ResolveW4ToW7(s, sos)) == Expand(Reference2(s, sos))
    ensures TotalLength(ResolveW4ToW7(s, sos)) == TotalLength(s)
  {
    var ys, ts := Reference2(s, sos), LocalTypes2(s, sos);
    SecondPassIsReference(s, sos);
    SecondFoldsSafely(s, sos);
    FoldCovers(ys, ts, |s|);
    assert ys[..|s|] == ys;
    RetypeKeepsLength(s, seq(|s|, i requires 0 <= i < |s| => WeakType2(s, sos, i)));
  }

  /** After W1-W3, W4-W7 give every position a type other than ES, ET and
      CS. */
  lemma Reference2AfterW7(s: seq<Span>, sos: CharType)
    requires AllAfterW3(s)
    ensures AllAfterW7(Reference2(s, sos))
  {
    forall k | 0 <= k < |s| ensures IsAfterW7(WeakType2(s, sos, k)) {
      assert IsAfterW3(s[k].charType);
    }
  }

  /** After W1-W3, the second pass leaves no ES, ET or CS. */
  lemma SecondPassTypes(s: seq<Span>, sos: CharType)
    requires IsDirection(sos)
    requires NoAdjacentET(s)
    requires AllAfterW3(s)
    ensures AllAfterW7(ResolveW4ToW7(s, sos))
  {
    var ys, ts := Reference2(s, sos), LocalTypes2(s, sos);
    SecondPassIsReference(s, sos);
    Reference2AfterW7(s, sos);
    FoldTypesFrom(ys, ts, |s|);
  }

  // ---------------------------------------------------------------------
  // Both passes.

  /** W1-W7 on a chain leave only strong types, numbers, the separators of
      N1 and isolate controls. */
  lemma WeakTypesTyped(s: seq<Span>, sos: CharType)
    requires IsDirection(sos)
    requires AllChainTypes(s)
    ensures AllAfterW7(ResolveWeakTypes(s, sos))
  {
    FirstPassTypes(s, sos);
    ResolveW1ToW3Characters(s, sos);
    SecondPassTypes(ResolveW1ToW3(s, sos), sos);
  }

  /** W1-W7 cover exactly the characters they were given. */
  lemma WeakTypesKeepLength(s: seq<Span>, sos: CharType)
    requires IsDirection(sos)
    ensures TotalLength(ResolveWeakTypes(s, sos)) == TotalLength(s)
  {
    ResolveW1ToW3Characters(s, sos);
    ResolveW4ToW7Characters(ResolveW1ToW3(s, sos), sos);
  }

  /** W1-W7 invent no link, keep identities distinct and keep the first
      link. */
  lemma WeakTypesKeepIds(s: seq<Span>, sos: CharType)
    ensures IdsFrom(s, |s|, ResolveWeakTypes(s, sos))
  {
    var p := ResolveW1ToW3(s, sos);
    FirstPassIds(s, sos);
    SecondPassIds(p, sos);
    IdsFromTrans(s, p, ResolveW4ToW7(p, sos));
  }

  /** The first pass invents no link, keeps identities distinct and keeps
      the first link. */
  lemma FirstPassIds(s: seq<Span>, sos: CharType)
    ensures IdsFrom(s, |s|, ResolveW1ToW3(s, sos))
  {
    FoldIds(s, FirstStoredLinks(s, sos), FirstReadTypes(s, sos), |s|);
  }

  /** The second pass invents no link, keeps identities distinct and keeps
      the first link. */
  lemma SecondPassIds(s: seq<Span>, sos: CharType)
    ensures IdsFrom(s, |s|, ResolveW4ToW7(s, sos))
  {
    FoldIds(s, SecondStoredLinks(s, sos), SecondReadTypes(s, sos), |s|);
  }

  /** Rules W1-W7 on a chain: every character keeps its place and the
      types left are strong, numbers, separators of N1 and isolate
      controls; the first link survives and no link is invented. */
  lemma ResolveWeakTypesShape(s: seq<Span>, sos: CharType)
    requires IsDirection(sos)
    requires AllChainTypes(s)
    ensures AllAfterW7(ResolveWeakTypes(s, sos))
    ensures TotalLength(ResolveWeakTypes(s, sos)) == TotalLength(s)
    ensures IdSet(ResolveWeakTypes(s, sos)) <= IdSet(s)
    ensures DistinctIds(s) ==> DistinctIds(ResolveWeakTypes(s, sos))
    ensures |s| > 0 ==> |ResolveWeakTypes(s, sos)| > 0 && ResolveWeakTypes(s, sos)[0].id == s[0].id
  {
    WeakTypesTyped(s, sos);
    WeakTypesKeepLength(s, sos);
    WeakTypesKeepIds(s, sos);
    assert s[..|s|] == s;
  }

  /** W1-W7 keep every link's offset inside the text. */
  lemma WeakTypesKeepOffsets(s: seq<Span>, sos: CharType, bound: int)
    requires OffsetsBelow(s, bound)
    ensures OffsetsBelow(ResolveWeakTypes(s, sos), bound)
  {
    var p := ResolveW1ToW3(s, sos);
    FoldOffsets(FirstStoredLinks(s, sos), FirstReadTypes(s, sos), |s|, bound);
    FoldOffsets(SecondStoredLinks(p, sos), SecondReadTypes(p, sos), |p|, bound);
  }
}
