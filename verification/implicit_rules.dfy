/** Rules I1 and I2 of UAX #9 (section 3.3.6): after the neutral rules
    every link of an isolating run sequence is L, R, EN or AN, and its
    level is raised so that its parity matches its direction. The source
    stores levels in a byte, so an increment wraps past 255; with levels
    bounded by max_depth this never happens, and `ImplicitLevelWraps`
    says so. */
module ImplicitRules {
  import opened BidiTypes
  import opened Spans
  import Level

  /** The types the implicit rules accept. */
  predicate IsImplicitInput(t: CharType) {
    t == L || t == R || t == EN || t == AN
  }

  predicate AllImplicitInput(s: seq<Span>) {
    forall k :: 0 <= k < |s| ==> IsImplicitInput(s[k].charType)
  }

  /** How much I1 (even run level) or I2 (odd run level) raises a link of
      type `t`. */
  function Increment(t: CharType, runLevel: Byte): (n: nat)
    requires IsImplicitInput(t)
    ensures n <= 2
  {
    if runLevel % 2 == 0 then
      (if t == R then 1 else if t != L then 2 else 0)
    else
      (if t != R then 1 else 0)
  }

  /** The new level of one link, wrapped to a byte as the source's `+=`
      on a byte does. */
  function ImplicitLevel(t: CharType, runLevel: Byte, level: Byte): Byte
    requires IsImplicitInput(t)
  {
    ToByte(level + Increment(t, runLevel))
  }

  /** I1 and I2 over the ring: each link's level is raised by its
      increment and nothing else about it changes. */
  function ResolveImplicitLevels(s: seq<Span>, runLevel: Byte): (r: seq<Span>)
    requires AllImplicitInput(s)
    ensures |r| == |s|
    ensures forall k :: 0 <= k < |s| ==>
              r[k] == s[k].(level := ImplicitLevel(s[k].charType, runLevel, s[k].level))
  {
    seq(|s|, k requires 0 <= k < |s| && AllImplicitInput(s) =>
               s[k].(level := ImplicitLevel(s[k].charType, runLevel, s[k].level)))
  }

  /** The characterisation of I1 and I2 for a link at the run's level (no
      wrap): R ends on an odd level and L, EN and AN on an even one; the
      level never drops and rises by at most two; it stays put exactly when
      the parity already fits and the type is not a number on an even
      level; numbers always end above an even run level. */
  lemma ImplicitLevelParity(t: CharType, runLevel: Byte)
    requires IsImplicitInput(t) && runLevel + 2 < 256
    ensures var r := ImplicitLevel(t, runLevel, runLevel);
            && runLevel <= r <= runLevel + 2
            && (r % 2 == 1 <==> t == R)
            && (r == runLevel <==> (t == R) == (runLevel % 2 == 1) && !(runLevel % 2 == 0 && (t == EN || t == AN)))
            && (runLevel % 2 == 0 && (t == EN || t == AN) ==> r == runLevel + 2)
            && (r % 2 == 0 <==> Level.LevelToEmbeddingType(r) == L)
  {
    var n := Increment(t, runLevel);
    assert ImplicitLevel(t, runLevel, runLevel) == runLevel + n;
    if runLevel % 2 == 0 {
      assert n == (if t == R then 1 else if t == L then 0 else 2);
    } else {
      assert n == (if t == R then 0 else 1);
    }
  }

  /** The new level is the byte sum of the old level and the increment:
      the plain sum below 256, the sum less 256 from there on, and the
      plain sum whenever the old level is at most max_depth + 1. */
  lemma ImplicitLevelWraps(t: CharType, runLevel: Byte, level: Byte)
    requires IsImplicitInput(t)
    ensures var sum := level + Increment(t, runLevel);
            && (sum < 256 ==> ImplicitLevel(t, runLevel, level) == sum)
            && (sum >= 256 ==> ImplicitLevel(t, runLevel, level) == sum - 256)
            && (level <= Level.MaxValue + 1 ==> ImplicitLevel(t, runLevel, level) == sum)
  {
    var sum := level + Increment(t, runLevel);
    var r := ImplicitLevel(t, runLevel, level);
    if sum >= 256 {
      assert (r - sum) % 256 == 0 && -258 < r - sum < 0;
    }
  }

  /** After the implicit rules every link's level parity is its resolved
      direction: odd exactly for R. */
  lemma ResolvedParityMatchesType(s: seq<Span>, runLevel: Byte)
    requires AllImplicitInput(s) && runLevel + 2 < 256
    requires forall k :: 0 <= k < |s| ==> s[k].level == runLevel
    ensures forall k :: 0 <= k < |s| ==>
              (ResolveImplicitLevels(s, runLevel)[k].level % 2 == 1 <==> s[k].charType == R)
  {
    forall k | 0 <= k < |s|
      ensures ResolveImplicitLevels(s, runLevel)[k].level % 2 == 1 <==> s[k].charType == R
    {
      ImplicitLevelParity(s[k].charType, runLevel);
    }
  }
}
