/** The ring of an isolating run sequence read in visiting order, as the
    rule passes of rules W1-W7, N0-N2 and I1-I2 see it.

    Each span is one link of the ring: the arena index it came from, the
    text range it covers, its current type and its level. A pass walks the
    spans in order; when it folds a link into its predecessor (`MergeNext`
    on the predecessor), the output keeps the predecessor's span with the
    lengths added. */
module Spans {
  import opened BidiTypes

  datatype Span = Span(id: int, offset: int, length: nat, charType: CharType, level: Byte)

  /** The character types a sequence of spans stands for: each span's type
      repeated over its length. */
  function Expand(s: seq<Span>): (e: seq<CharType>)
    ensures |e| == TotalLength(s)
  {
    if |s| == 0 then [] else Expand(s[..|s| - 1]) + Repeat(s[|s| - 1])
  }

  /** One span's type, once per covered character. */
  function Repeat(x: Span): (e: seq<CharType>)
    ensures |e| == x.length
    ensures forall k :: 0 <= k < |e| ==> e[k] == x.charType
  {
    seq(x.length, _ => x.charType)
  }

  /** The number of characters the spans cover. */
  function TotalLength(s: seq<Span>): nat {
    if |s| == 0 then 0 else TotalLength(s[..|s| - 1]) + s[|s| - 1].length
  }

  /** The span identities, in order. */
  function Ids(s: seq<Span>): (ids: seq<int>)
    ensures |ids| == |s|
    ensures forall k :: 0 <= k < |s| ==> ids[k] == s[k].id
  {
    seq(|s|, k requires 0 <= k < |s| => s[k].id)
  }

  /** `s` with every span's type replaced by the matching entry of `types`. */
  function Retype(s: seq<Span>, types: seq<CharType>): (r: seq<Span>)
    requires |types| == |s|
    ensures |r| == |s|
    ensures forall k :: 0 <= k < |s| ==> r[k] == s[k].(charType := types[k])
  {
    seq(|s|, k requires 0 <= k < |s| => s[k].(charType := types[k]))
  }

  /** Whether a pass folds a link whose type it read as `localType` into
      the last link already emitted: never for ON, otherwise when that
      link's stored type is the same. */
  predicate Merges(out: seq<Span>, localType: CharType) {
    |out| > 0 && localType != ON && out[|out| - 1].charType == localType
  }

  /** Emits `x` (already carrying its stored type) after `out`, folding it
      into the last span when `Merges` says so. */
  function Emit(out: seq<Span>, x: Span, localType: CharType): seq<Span> {
    if Merges(out, localType) then
      var n := |out| - 1;
      out[..n] + [out[n].(length := out[n].length + x.length)]
    else
      out + [x]
  }

  /** Emitting either lengthens the last span by the emitted span's length,
      leaving the others and the last one's type and identity alone, or
      appends the emitted span. */
  lemma EmitShape(out: seq<Span>, x: Span, localType: CharType)
    ensures var r := Emit(out, x, localType);
            && (Merges(out, localType) ==>
                  && |r| == |out|
                  && (forall k :: 0 <= k < |out| - 1 ==> r[k] == out[k])
                  && r[|out| - 1] == out[|out| - 1].(length := out[|out| - 1].length + x.length))
            && (!Merges(out, localType) ==> r == out + [x])
  {
  }

  lemma {:induction false} ExpandAppend(s: seq<Span>, t: seq<Span>)
    ensures Expand(s + t) == Expand(s) + Expand(t)
    decreases |t|
  {
    if |t| == 0 {
      assert s + t == s;
    } else {
      var n := |t| - 1;
      assert (s + t)[..|s + t| - 1] == s + t[..n];
      ExpandAppend(s, t[..n]);
    }
  }

  lemma ExpandOne(x: Span)
    ensures Expand([x]) == Repeat(x)
  {
    assert [x][..0] == [];
  }

  /** Emitting a span whose stored type agrees with the local type whenever
      it is folded adds exactly its characters: the character types covered
      by the output grow by the span's. */
  lemma EmitExpands(out: seq<Span>, x: Span, localType: CharType)
    requires Merges(out, localType) ==> x.charType == localType
    ensures Expand(Emit(out, x, localType)) == Expand(out) + Repeat(x)
  {
    var r := Emit(out, x, localType);
    if Merges(out, localType) {
      var n := |out| - 1;
      var y := out[n];
      assert out == out[..n] + [y];
      ExpandAppend(out[..n], [y]);
      ExpandOne(y);
      var y' := y.(length := y.length + x.length);
      ExpandAppend(out[..n], [y']);
      ExpandOne(y');
      assert Repeat(y') == Repeat(y) + Repeat(x);
    } else {
      ExpandAppend(out, [x]);
      ExpandOne(x);
    }
  }

  /** `Expand` of a prefix one longer adds that span's characters. */
  lemma ExpandPrefix(s: seq<Span>, n: nat)
    requires n < |s|
    ensures Expand(s[..n + 1]) == Expand(s[..n]) + Repeat(s[n])
  {
    assert s[..n + 1][..n] == s[..n];
  }

  /** A pass's output after `n` links, when it emits link `k` as `ys[k]`
      having read it with local type `ts[k]`. */
  function Fold(ys: seq<Span>, ts: seq<CharType>, n: nat): seq<Span>
    requires n <= |ys| == |ts|
    decreases n
  {
    if n == 0 then [] else Emit(Fold(ys, ts, n - 1), ys[n - 1], ts[n - 1])
  }

  /** A link is folded only into a predecessor that carries the link's own
      emitted type: whenever the local type of link `k` is not ON and equals
      the emitted type of link `k - 1`, it is link `k`'s emitted type too. */
  predicate FoldsSafely(ys: seq<Span>, ts: seq<CharType>)
    requires |ys| == |ts|
  {
    forall k :: 0 < k < |ys| ==> ts[k] != ON && ys[k - 1].charType == ts[k] ==> ys[k].charType == ts[k]
  }

  /** Folding safely keeps the last emitted type on the last span. */
  lemma {:induction false} FoldLast(ys: seq<Span>, ts: seq<CharType>, n: nat)
    requires 0 < n <= |ys| == |ts|
    requires FoldsSafely(ys, ts)
    ensures |Fold(ys, ts, n)| > 0 && Fold(ys, ts, n)[|Fold(ys, ts, n)| - 1].charType == ys[n - 1].charType
    decreases n
  {
    var out := Fold(ys, ts, n - 1);
    if Merges(out, ts[n - 1]) {
      FoldLast(ys, ts, n - 1);
    }
  }

  /** Folding safely loses no character and changes no character's type:
      the output covers exactly the characters of the emitted spans. */
  lemma {:induction false} FoldCovers(ys: seq<Span>, ts: seq<CharType>, n: nat)
    requires n <= |ys| == |ts|
    requires FoldsSafely(ys, ts)
    ensures Expand(Fold(ys, ts, n)) == Expand(ys[..n])
    decreases n
  {
    if n > 0 {
      FoldCovers(ys, ts, n - 1);
      var out := Fold(ys, ts, n - 1);
      if Merges(out, ts[n - 1]) {
        FoldLast(ys, ts, n - 1);
      }
      EmitExpands(out, ys[n - 1], ts[n - 1]);
      ExpandPrefix(ys, n - 1);
    }
  }

  /** No two neighbouring spans are both ET. */
  predicate NoAdjacentET(s: seq<Span>) {
    forall k :: 0 <= k < |s| - 1 ==> !(s[k].charType == ET && s[k + 1].charType == ET)
  }

  /** A fold whose ET links are all read as ET folds every ET link that
      follows an ET span, so no two ET spans end up side by side. */
  lemma {:induction false} FoldNoAdjacentET(ys: seq<Span>, ts: seq<CharType>, n: nat)
    requires n <= |ys| == |ts|
    requires forall k :: 0 <= k < |ys| && ys[k].charType == ET ==> ts[k] == ET
    ensures NoAdjacentET(Fold(ys, ts, n))
    decreases n
  {
    if n > 0 {
      FoldNoAdjacentET(ys, ts, n - 1);
      EmitNoAdjacentET(Fold(ys, ts, n - 1), ys[n - 1], ts[n - 1]);
    }
  }

  /** Emitting an ET span read as ET right after an ET span folds it, so
      no two ET spans end up side by side. */
  lemma EmitNoAdjacentET(out: seq<Span>, x: Span, localType: CharType)
    requires NoAdjacentET(out)
    requires x.charType == ET ==> localType == ET
    ensures NoAdjacentET(Emit(out, x, localType))
  {
    var r := Emit(out, x, localType);
    if Merges(out, localType) {
      assert forall k :: 0 <= k < |r| ==> r[k].charType == out[k].charType;
    } else {
      assert forall k :: 0 <= k < |out| ==> r[k] == out[k];
    }
  }

  /** Every span of `out` carries the type of one of the first `n` spans
      of `ys`. */
  predicate TypesFrom(out: seq<Span>, ys: seq<Span>, n: nat)
    requires n <= |ys|
  {
    forall k :: 0 <= k < |out| ==> exists j :: 0 <= j < n && out[k].charType == ys[j].charType
  }

  /** Every span a fold outputs carries the type of some span it emitted. */
  lemma {:induction false} FoldTypesFrom(ys: seq<Span>, ts: seq<CharType>, n: nat)
    requires n <= |ys| == |ts|
    ensures TypesFrom(Fold(ys, ts, n), ys, n)
    decreases n
  {
    if n > 0 {
      var m := n - 1;
      FoldTypesFrom(ys, ts, m);
      FoldTypesStep(ys, ts, m);
    }
  }

  /** Emitting span `m` keeps every output type among the emitted spans'. */
  lemma FoldTypesStep(ys: seq<Span>, ts: seq<CharType>, m: nat)
    requires m < |ys| == |ts|
    requires TypesFrom(Fold(ys, ts, m), ys, m)
    ensures TypesFrom(Fold(ys, ts, m + 1), ys, m + 1)
  {
    var out := Fold(ys, ts, m);
    var r := Emit(out, ys[m], ts[m]);
    assert Fold(ys, ts, m + 1) == r;
    EmitShape(out, ys[m], ts[m]);
    forall k | 0 <= k < |r|
      ensures exists j :: 0 <= j < m + 1 && r[k].charType == ys[j].charType
    {
      if k < |out| {
        var j :| 0 <= j < m && out[k].charType == ys[j].charType;
        assert r[k].charType == ys[j].charType;
      } else {
        assert r[k] == ys[m];
      }
    }
  }

  /** Folding links that carry the identities of `s`, in order, invents
      no identity, keeps them distinct and keeps the first. */
  lemma {:induction false} FoldIds(s: seq<Span>, ys: seq<Span>, ts: seq<CharType>, n: nat)
    requires |ys| == |ts| == |s| && n <= |s|
    requires forall i :: 0 <= i < |s| ==> ys[i].id == s[i].id
    ensures IdsFrom(s, n, Fold(ys, ts, n))
    decreases n
  {
    if n > 0 {
      FoldIds(s, ys, ts, n - 1);
      EmitKeepsIds(s, n, Fold(ys, ts, n - 1), ys[n - 1], ts[n - 1]);
    }
  }

  /** Two passes that each invent no identity and keep the first invent
      none and keep the first together. */
  lemma IdsFromTrans(s: seq<Span>, p: seq<Span>, r: seq<Span>)
    requires IdsFrom(s, |s|, p) && IdsFrom(p, |p|, r)
    ensures IdsFrom(s, |s|, r)
  {
    assert s[..|s|] == s;
    assert p[..|p|] == p;
  }

  /** Folding keeps every offset among the emitted spans' offsets. */
  lemma {:induction false} FoldOffsets(ys: seq<Span>, ts: seq<CharType>, n: nat, bound: int)
    requires n <= |ys| == |ts|
    requires OffsetsBelow(ys, bound)
    ensures OffsetsBelow(Fold(ys, ts, n), bound)
    decreases n
  {
    if n > 0 {
      FoldOffsets(ys, ts, n - 1, bound);
      EmitOffsets(Fold(ys, ts, n - 1), ys[n - 1], ts[n - 1], bound);
    }
  }

  /** The characters a sequence covers are as many as its total length,
      so emitting never loses or gains characters. */
  lemma EmitKeepsLength(out: seq<Span>, x: Span, localType: CharType)
    requires Merges(out, localType) ==> x.charType == localType
    ensures TotalLength(Emit(out, x, localType)) == TotalLength(out) + x.length
  {
    EmitExpands(out, x, localType);
  }

  /** The identities of the spans, as a set. */
  function IdSet(s: seq<Span>): set<int> {
    set k | 0 <= k < |s| :: s[k].id
  }

  predicate DistinctIds(s: seq<Span>) {
    forall p, q :: 0 <= p < q < |s| ==> s[p].id != s[q].id
  }

  /** Emitting never invents an identity: the output's identities are the
      old ones plus the emitted span's, and they stay pairwise distinct when
      the emitted span's identity is new. The first span is never folded
      away. */
  lemma EmitIds(out: seq<Span>, x: Span, localType: CharType)
    ensures IdSet(Emit(out, x, localType)) <= IdSet(out) + {x.id}
    ensures DistinctIds(out) && x.id !in IdSet(out) ==> DistinctIds(Emit(out, x, localType))
    ensures |out| > 0 ==> Emit(out, x, localType)[0].id == out[0].id
    ensures |out| == 0 ==> Emit(out, x, localType) == [x]
  {
    var r := Emit(out, x, localType);
    if Merges(out, localType) {
      assert forall k :: 0 <= k < |r| ==> r[k].id == out[k].id;
    } else {
      assert forall k :: 0 <= k < |out| ==> r[k] == out[k];
    }
  }

  /** A prefix one longer adds one identity. */
  lemma IdSetPrefix(s: seq<Span>, n: nat)
    requires n < |s|
    ensures IdSet(s[..n + 1]) == IdSet(s[..n]) + {s[n].id}
  {
    var a, b := s[..n + 1], s[..n];
    assert forall k :: 0 <= k < n ==> a[k] == b[k];
    assert a[n] == s[n];
    forall i | i in IdSet(a) ensures i in IdSet(b) + {s[n].id} {
      var k :| 0 <= k < |a| && a[k].id == i;
      if k < n { assert b[k].id == i; }
    }
    forall i | i in IdSet(b) ensures i in IdSet(a) {
      var k :| 0 <= k < |b| && b[k].id == i;
      assert a[k].id == i;
    }
  }

  /** In distinct identities, the identity at `n` is not among those
      before it. */
  lemma DistinctIdsPrefix(s: seq<Span>, n: nat)
    requires n < |s| && DistinctIds(s)
    ensures s[n].id !in IdSet(s[..n])
  {
    assert forall k :: 0 <= k < n ==> s[..n][k].id != s[n].id;
  }

  /** What a pass that emitted `out` from the first `n` spans of `s` keeps
      of their identities: no new ones, distinct when the input's are, the
      first span's in front, and no more spans than it read. */
  predicate IdsFrom(s: seq<Span>, n: nat, out: seq<Span>)
    requires n <= |s|
  {
    && IdSet(out) <= IdSet(s[..n])
    && (DistinctIds(s) ==> DistinctIds(out))
    && (n > 0 ==> |out| > 0 && out[0].id == s[0].id)
    && |out| <= n
  }

  /** Emitting span `n - 1`, whatever its new type, keeps what the pass
      knows about identities. */
  lemma EmitKeepsIds(s: seq<Span>, n: nat, out: seq<Span>, x: Span, localType: CharType)
    requires 0 < n <= |s| && x.id == s[n - 1].id
    requires IdsFrom(s, n - 1, out)
    ensures IdsFrom(s, n, Emit(out, x, localType))
  {
    EmitIds(out, x, localType);
    IdSetPrefix(s, n - 1);
    if DistinctIds(s) {
      DistinctIdsPrefix(s, n - 1);
    }
  }

  /** Every span starts inside a text of `n` characters. */
  predicate OffsetsBelow(s: seq<Span>, n: int) {
    forall k :: 0 <= k < |s| ==> 0 <= s[k].offset < n
  }

  /** Emitting keeps every offset one of the offsets already there or the
      emitted span's. */
  lemma EmitOffsets(out: seq<Span>, x: Span, localType: CharType, n: int)
    requires OffsetsBelow(out, n) && 0 <= x.offset < n
    ensures OffsetsBelow(Emit(out, x, localType), n)
  {
    var r := Emit(out, x, localType);
    if Merges(out, localType) {
      assert forall k :: 0 <= k < |r| ==> r[k].offset == out[k].offset;
    } else {
      assert forall k :: 0 <= k < |out| ==> r[k] == out[k];
    }
  }
}
