/** The link chain: spans of characters sharing one bidirectional type,
    kept in a singly linked ring closed through a sentinel "roller" link.

    References between links become indices into an arena (`seq<Link>`);
    `next == NoLink` stands for a null successor. */
module BidiLink {
  import opened BidiTypes

  const NoLink: int := -1

  /** One link: the span [offset, offset + length) of the text, its current
      type and level, and the index of its successor. */
  datatype Link = Link(offset: int, length: int, charType: CharType, level: Byte, next: int)

  type Arena = seq<Link>

  /** `i` names a link of the arena. */
  predicate Addr(a: Arena, i: int) {
    0 <= i < |a|
  }

  /** Every successor is either null or a link of the arena. */
  predicate Closed(a: Arena) {
    forall i :: 0 <= i < |a| ==> a[i].next == NoLink || Addr(a, a[i].next)
  }

  /** The link a link's successor points to is a link of the arena. */
  predicate HasNext(a: Arena, i: int) {
    Addr(a, i) && Addr(a, a[i].next)
  }

  /** Skips the successor of link `i`; its length is dropped, not absorbed. */
  function AbandonNext(a: Arena, i: int): (r: Arena)
    requires HasNext(a, i)
    ensures |r| == |a|
    ensures r[i].next == a[a[i].next].next
    ensures r[i] == a[i].(next := r[i].next)
    ensures forall j :: 0 <= j < |a| && j != i ==> r[j] == a[j]
  {
    a[i := a[i].(next := a[a[i].next].next)]
  }

  /** Absorbs the successor of link `i` into it: the successor's length is
      added and the successor's successor becomes the new successor. */
  function MergeNext(a: Arena, i: int): (r: Arena)
    requires HasNext(a, i)
    ensures |r| == |a|
    ensures r[i].next == a[a[i].next].next
    ensures r[i].length == a[i].length + a[a[i].next].length
    ensures r[i].offset == a[i].offset && r[i].charType == a[i].charType && r[i].level == a[i].level
    ensures forall j :: 0 <= j < |a| && j != i ==> r[j] == a[j]
  {
    var firstNext := a[i].next;
    var secondNext := a[firstNext].next;
    a[i := a[i].(next := secondNext, length := a[i].length + a[firstNext].length)]
  }

  /** Points link `i` at `next` (a link index or `NoLink`). */
  function ReplaceNext(a: Arena, i: int, next: int): (r: Arena)
    requires Addr(a, i)
    ensures |r| == |a|
    ensures r[i].next == next
    ensures r[i] == a[i].(next := next)
    ensures forall j :: 0 <= j < |a| && j != i ==> r[j] == a[j]
  {
    a[i := a[i].(next := next)]
  }

  /** The indices in `order` are pairwise distinct. */
  predicate Distinct(order: seq<int>) {
    forall p, q :: 0 <= p < q < |order| ==> order[p] != order[q]
  }

  /** Every index of `order` names a link of the arena. */
  predicate InArena(a: Arena, order: seq<int>) {
    forall k :: 0 <= k < |order| ==> 0 <= order[k] < |a|
  }

  /** Following `next` from `order[0]` visits `order` in turn. */
  predicate IsPath(a: Arena, order: seq<int>) {
    && InArena(a, order)
    && (forall k :: 0 <= k < |order| - 1 ==> a[order[k]].next == order[k + 1])
  }

  /** The ring view: following `next` from the roller visits exactly the
      links of `order`, each once, and comes back to the roller. */
  predicate IsRing(a: Arena, roller: int, order: seq<int>) {
    && Addr(a, roller)
    && |order| > 0
    && IsPath(a, order)
    && Distinct(order)
    && roller !in order
    && a[roller].next == order[0]
    && a[order[|order| - 1]].next == roller
  }

  /** The total length of the links of `order`. */
  function TotalLength(a: Arena, order: seq<int>): int
    requires InArena(a, order)
  {
    if |order| == 0 then 0 else TotalLength(a, order[..|order| - 1]) + a[order[|order| - 1]].length
  }

  /** `order` with its k-th element removed. */
  function Remove(order: seq<int>, k: int): (r: seq<int>)
    requires 0 <= k < |order|
    ensures |r| == |order| - 1
    ensures forall j :: 0 <= j < k ==> r[j] == order[j]
    ensures forall j :: k <= j < |r| ==> r[j] == order[j + 1]
  {
    order[..k] + order[k + 1..]
  }

  lemma {:induction false} TotalLengthAppend(a: Arena, p: seq<int>, q: seq<int>)
    requires InArena(a, p) && InArena(a, q)
    ensures InArena(a, p + q)
    ensures TotalLength(a, p + q) == TotalLength(a, p) + TotalLength(a, q)
    decreases |q|
  {
    if |q| > 0 {
      var n := |q|;
      assert (p + q)[..|p + q| - 1] == p + q[..n - 1];
      TotalLengthAppend(a, p, q[..n - 1]);
    } else {
      assert p + q == p;
    }
  }

  /** Two arenas that agree on the lengths of the links of `order` give it
      the same total. */
  lemma {:induction false} TotalLengthFrame(a: Arena, b: Arena, order: seq<int>)
    requires InArena(a, order) && InArena(b, order)
    requires forall j :: 0 <= j < |order| ==> a[order[j]].length == b[order[j]].length
    ensures TotalLength(a, order) == TotalLength(b, order)
    decreases |order|
  {
    if |order| > 0 {
      TotalLengthFrame(a, b, order[..|order| - 1]);
    }
  }

  /** Merging the successor of the k-th link of a ring removes exactly that
      successor from the ring. */
  lemma MergeNextShape(a: Arena, roller: int, order: seq<int>, k: int)
    requires IsRing(a, roller, order)
    requires 0 <= k < |order| - 1
    ensures HasNext(a, order[k])
    ensures IsRing(MergeNext(a, order[k]), roller, Remove(order, k + 1))
  {
    assert a[order[k]].next == order[k + 1];
    var r := MergeNext(a, order[k]);
    var o := Remove(order, k + 1);
    assert IsPath(r, o) by {
      forall j | 0 <= j < |o| - 1
        ensures r[o[j]].next == o[j + 1]
      {
        if j == k {
          assert o[j + 1] == order[k + 2];
        } else if j < k {
          assert o[j] != order[k];
        } else {
          assert o[j] == order[j + 1] && o[j + 1] == order[j + 2];
          assert o[j] != order[k];
        }
      }
    }
    if k + 1 == |order| - 1 {
      assert r[o[|o| - 1]].next == roller;
    } else {
      assert o[|o| - 1] == order[|order| - 1];
      assert o[|o| - 1] != order[k];
    }
    assert r[roller].next == o[0] by {
      assert roller != order[k];
    }
    assert roller !in o by {
      forall j | 0 <= j < |o| ensures o[j] != roller {
        if j <= k { assert o[j] == order[j]; } else { assert o[j] == order[j + 1]; }
      }
    }
  }

  /** Splits the total of a ring's order around its k-th and (k+1)-th links. */
  lemma SplitAround(a: Arena, order: seq<int>, k: int)
    requires InArena(a, order) && Distinct(order)
    requires 0 <= k < |order| - 1
    ensures InArena(a, order[..k]) && InArena(a, order[k + 2..])
    ensures TotalLength(a, order) == TotalLength(a, order[..k]) + a[order[k]].length
                                     + a[order[k + 1]].length + TotalLength(a, order[k + 2..])
    ensures TotalLength(a, Remove(order, k + 1)) == TotalLength(a, order[..k]) + a[order[k]].length
                                                   + TotalLength(a, order[k + 2..])
  {
    var p, x, y, q := order[..k], order[k], order[k + 1], order[k + 2..];
    assert order == p + [x] + [y] + q;
    assert Remove(order, k + 1) == p + [x] + q;
    TotalLengthAppend(a, p, [x]);
    TotalLengthAppend(a, p + [x], [y]);
    TotalLengthAppend(a, p + [x] + [y], q);
    TotalLengthAppend(a, p + [x], q);
    assert [x][..0] == [];
    assert [y][..0] == [];
  }

  /** Merging the successor of the k-th link of a ring removes exactly that
      successor from the ring, keeps the total covered length, and drops the
      number of links by one. */
  lemma MergeNextInRing(a: Arena, roller: int, order: seq<int>, k: int)
    requires IsRing(a, roller, order)
    requires 0 <= k < |order| - 1
    ensures HasNext(a, order[k])
    ensures IsRing(MergeNext(a, order[k]), roller, Remove(order, k + 1))
    ensures TotalLength(MergeNext(a, order[k]), Remove(order, k + 1)) == TotalLength(a, order)
    ensures |Remove(order, k + 1)| == |order| - 1
  {
    MergeNextShape(a, roller, order, k);
    var r := MergeNext(a, order[k]);
    SplitAround(a, order, k);
    SplitAround(r, order, k);
    var p := order[..k];
    assert forall j :: 0 <= j < |p| ==> p[j] != order[k];
    TotalLengthFrame(a, r, p);
    var q := order[k + 2..];
    assert forall j :: 0 <= j < |q| ==> q[j] != order[k];
    TotalLengthFrame(a, r, q);
  }

  /** Abandoning the successor of the k-th link of a ring removes exactly that
      successor from the ring; the covered length shrinks by its length. */
  lemma AbandonNextInRing(a: Arena, roller: int, order: seq<int>, k: int)
    requires IsRing(a, roller, order)
    requires 0 <= k < |order| - 1
    ensures HasNext(a, order[k])
    ensures IsRing(AbandonNext(a, order[k]), roller, Remove(order, k + 1))
    ensures TotalLength(AbandonNext(a, order[k]), Remove(order, k + 1))
            == TotalLength(a, order) - a[order[k + 1]].length
  {
    MergeNextShape(a, roller, order, k);
    var r := AbandonNext(a, order[k]);
    assert IsRing(r, roller, Remove(order, k + 1)) by {
      var m := MergeNext(a, order[k]);
      assert forall j :: 0 <= j < |r| ==> r[j].next == m[j].next;
    }
    SplitAround(a, order, k);
    SplitAround(r, order, k);
    var p := order[..k];
    assert forall j :: 0 <= j < |p| ==> p[j] != order[k];
    TotalLengthFrame(a, r, p);
    var q := order[k + 2..];
    assert forall j :: 0 <= j < |q| ==> q[j] != order[k];
    TotalLengthFrame(a, r, q);
  }
}
