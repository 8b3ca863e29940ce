/** A chain of links closed through its roller: links are appended at the
    tail, and the roller both precedes the first link and follows the last. */
module BidiChain {
  import opened BidiTypes
  import opened BidiLink

  /** The arena holding the chain, the roller's index and the last link's
      index (the roller itself while the chain is empty). */
  datatype Chain = Chain(links: Arena, roller: int, last: int)

  /** A freshly allocated link: every field at its default value, the type
      reading as `Nil` and the successor null. */
  const DefaultLink: Link := Link(0, 0, Nil, 0, NoLink)

  predicate Valid(c: Chain) {
    Addr(c.links, c.roller) && Addr(c.links, c.last)
  }

  /** A chain holding only its roller, which is also the last link. */
  function NewChain(): (c: Chain)
    ensures Valid(c)
    ensures c.last == c.roller
    ensures c.links == [DefaultLink]
  {
    Chain([DefaultLink], 0, 0)
  }

  /** Appends `link` as a new arena entry: the new link's successor is the
      roller, the former last link's successor is the new link, and the new
      link becomes the last one. The roller is never replaced. */
  function AddLink(c: Chain, link: Link): (r: Chain)
    requires Valid(c)
    ensures Valid(r)
    ensures |r.links| == |c.links| + 1
    ensures r.roller == c.roller
    ensures r.last == |c.links|
    ensures r.links[r.last] == link.(next := c.roller)
    ensures r.links[c.last].next == r.last
    ensures r.links[c.last] == c.links[c.last].(next := r.last)
    ensures forall j :: 0 <= j < |c.links| && j != c.last ==> r.links[j] == c.links[j]
  {
    var added := |c.links|;
    var a := c.links + [link.(next := c.roller)];
    Chain(ReplaceNext(a, c.last, added), c.roller, added)
  }

  /** Appends every link of `links`, in order. */
  function AddLinks(c: Chain, links: seq<Link>): (r: Chain)
    requires Valid(c)
    ensures Valid(r)
    ensures r.roller == c.roller
    ensures |r.links| == |c.links| + |links|
    decreases |links|
  {
    if |links| == 0 then c else AddLinks(AddLink(c, links[0]), links[1..])
  }

  /** Adding a link to a non-empty chain extends its ring view by the new link. */
  lemma AddLinkExtendsRing(c: Chain, order: seq<int>, link: Link)
    requires Valid(c)
    requires IsRing(c.links, c.roller, order)
    requires c.last == order[|order| - 1]
    ensures IsRing(AddLink(c, link).links, c.roller, order + [|c.links|])
  {
    var r := AddLink(c, link);
    var o := order + [|c.links|];
    assert forall j :: 0 <= j < |order| ==> order[j] != |c.links|;
    assert IsPath(r.links, o) by {
      forall j | 0 <= j < |o| - 1
        ensures r.links[o[j]].next == o[j + 1]
      {
        if j < |order| - 1 {
          assert order[j] != c.last;
        }
      }
    }
    if c.roller == c.last {
      assert false;
    }
  }

  /** The ring view of a chain built by `AddLinks` from a new chain lists
      the added links in insertion order, and each keeps its payload. */
  lemma AddLinksRing(links: seq<Link>)
    requires |links| > 0
    ensures var c := AddLinks(NewChain(), links);
            && c.last == |links|
            && IsRing(c.links, c.roller, seq(|links|, j => j + 1))
            && forall j :: 0 <= j < |links| ==> c.links[j + 1] == links[j].(next := c.links[j + 1].next)
  {
    AddLinksRingFrom(links, |links|);
    assert links[..|links|] == links;
  }

  /** After the first `m` of `links` are added to a new chain, its ring
      lists them in order, each keeping its payload. */
  predicate RingAfter(links: seq<Link>, m: nat)
    requires m <= |links|
  {
    var c := AddLinks(NewChain(), links[..m]);
    && c.last == m
    && IsRing(c.links, c.roller, seq(m, j => j + 1))
    && forall j :: 0 <= j < m ==> c.links[j + 1] == links[j].(next := c.links[j + 1].next)
  }

  lemma {:induction false} AddLinksRingFrom(links: seq<Link>, m: nat)
    requires 0 < m <= |links|
    ensures RingAfter(links, m)
    decreases m
  {
    if m == 1 {
      var c0 := NewChain();
      assert AddLinks(c0, links[..1]) == AddLinks(AddLink(c0, links[0]), []);
      assert seq(1, j => j + 1) == [1];
    } else {
      var k := m - 1;
      AddLinksRingFrom(links, k);
      AddLinksRingStep(links, k);
    }
  }

  /** Adding link `k` extends the ring by it. */
  lemma AddLinksRingStep(links: seq<Link>, k: nat)
    requires 0 < k < |links| && RingAfter(links, k)
    ensures RingAfter(links, k + 1)
  {
    var prev := AddLinks(NewChain(), links[..k]);
    var c := AddLink(prev, links[k]);
    AddLinksAppend(NewChain(), links[..k], [links[k]]);
    assert links[..k] + [links[k]] == links[..k + 1];
    assert AddLinks(prev, [links[k]]) == AddLinks(c, []);
    var order := seq(k, j => j + 1);
    AddLinkExtendsRing(prev, order, links[k]);
    assert order + [k + 1] == seq(k + 1, j => j + 1);
  }

  /** Adding two batches one after the other is adding their concatenation. */
  lemma {:induction false} AddLinksAppend(c: Chain, xs: seq<Link>, ys: seq<Link>)
    requires Valid(c)
    ensures AddLinks(AddLinks(c, xs), ys) == AddLinks(c, xs + ys)
    decreases |xs|
  {
    if |xs| > 0 {
      assert (xs + ys)[1..] == xs[1..] + ys;
      AddLinksAppend(AddLink(c, xs[0]), xs[1..], ys);
    } else {
      assert xs + ys == ys;
    }
  }
}
