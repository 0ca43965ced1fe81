/**
 * The distance spread: starting from a log2 distance `d`, the distances
 * `d, d+1, d-1, d+2, d-2, ...` with every candidate outside [0, 256] skipped.
 *
 * `Candidates(d)` is that whole ordered list; a spread of `size` distances is
 * its first `size` entries. `IsSpread` characterises the same list without
 * reference to the walk: the `size` in-range distances closest to `d`, where
 * at equal offset the larger distance (`d + k`) comes before the smaller.
 */
module DistanceSpread {
  import NodeIds

  /** The largest log2 distance: the bit width of the key space. */
  const MAX_DISTANCE: nat := NodeIds.ID_BITS

  /** The largest number of distances one request may ask for. */
  const MAX_SIZE: nat := 127

  /** Position of `x` in the outward alternation around `d`: d is 0, d+k is 2k-1, d-k is 2k. */
  function Rank(d: nat, x: nat): nat
  {
    if x == d then 0 else if x > d then 2 * (x - d) - 1 else 2 * (d - x)
  }

  /** Different distances have different positions in the alternation. */
  lemma RankInjective(d: nat, x: nat, y: nat)
    requires Rank(d, x) == Rank(d, y)
    ensures x == y
  {
  }

  /** The in-range candidates at offset `k`: `d + k` first, then `d - k`. */
  function Step(d: nat, k: nat): seq<nat>
  {
    (if d + k <= MAX_DISTANCE then [d + k] else []) + (if k <= d then [d - k] else [])
  }

  /** `d` followed by the in-range candidates at offsets 1 through `n`. */
  function Walk(d: nat, n: nat): seq<nat>
  {
    if n == 0 then [d] else Walk(d, n - 1) + Step(d, n)
  }

  /** Every in-range distance, in alternation order around `d`. */
  function Candidates(d: nat): seq<nat>
  {
    Walk(d, MAX_DISTANCE)
  }

  /** `s` is the list of the `size` in-range distances with the smallest ranks, in rank order. */
  ghost predicate IsSpread(d: nat, size: nat, s: seq<nat>)
  {
    && |s| == size
    && (forall i :: 0 <= i < |s| ==> s[i] <= MAX_DISTANCE)
    && (forall i, j :: 0 <= i < j < |s| ==> Rank(d, s[i]) < Rank(d, s[j]))
    && (forall i, x: nat :: 0 <= i < |s| && x <= MAX_DISTANCE && x !in s ==> Rank(d, s[i]) < Rank(d, x))
  }

  /* ----- facts about the walk ----- */

  lemma {:induction false} WalkInRange(d: nat, n: nat)
    requires d <= MAX_DISTANCE
    ensures forall i :: 0 <= i < |Walk(d, n)| ==> Walk(d, n)[i] <= MAX_DISTANCE
  {
    if n > 0 {
      WalkInRange(d, n - 1);
    }
  }

  lemma {:induction false} WalkRankBound(d: nat, n: nat)
    ensures forall i :: 0 <= i < |Walk(d, n)| ==> Rank(d, Walk(d, n)[i]) <= 2 * n
  {
    if n > 0 {
      WalkRankBound(d, n - 1);
    }
  }

  /** The walk visits distances in strictly increasing rank. */
  lemma {:induction false} WalkRankIncreasing(d: nat, n: nat)
    ensures forall i, j :: 0 <= i < j < |Walk(d, n)| ==> Rank(d, Walk(d, n)[i]) < Rank(d, Walk(d, n)[j])
  {
    if n > 0 {
      WalkRankIncreasing(d, n - 1);
      WalkRankBound(d, n - 1);
      var w, w' := Walk(d, n - 1), Walk(d, n);
      forall i, j | 0 <= i < j < |w'|
        ensures Rank(d, w'[i]) < Rank(d, w'[j])
      {
        if j >= |w| && i < |w| {
          assert Rank(d, w'[i]) <= 2 * (n - 1);
        }
      }
    }
  }

  /** The walk reaches every in-range distance whose rank is at most 2n. */
  lemma {:induction false} WalkComplete(d: nat, n: nat, x: nat)
    requires x <= MAX_DISTANCE && Rank(d, x) <= 2 * n
    ensures x in Walk(d, n)
  {
    if n > 0 && Rank(d, x) <= 2 * (n - 1) {
      WalkComplete(d, n - 1, x);
    } else if n > 0 {
      assert x in Step(d, n);
    }
  }

  /** Up to offset 128, every offset contributes at least one in-range distance. */
  lemma {:induction false} WalkLength(d: nat, n: nat)
    requires d <= MAX_DISTANCE && n <= 128
    ensures |Walk(d, n)| >= n + 1
  {
    if n > 0 {
      WalkLength(d, n - 1);
    }
  }

  /** A shorter walk is a prefix of a longer one. */
  lemma {:induction false} WalkPrefix(d: nat, m: nat, n: nat)
    requires m <= n
    ensures Walk(d, m) <= Walk(d, n)
    decreases n
  {
    if m < n {
      WalkPrefix(d, m, n - 1);
    }
  }

  /* ----- the spread ----- */

  /**
   * The first `size` distances of the alternation around `d`: exactly `size`
   * distinct in-range values, `d` first, each closer (in alternation order)
   * than any in-range distance left out.
   */
  function Spread(d: nat, size: nat): (s: seq<nat>)
    requires d <= MAX_DISTANCE && size <= MAX_SIZE
    ensures IsSpread(d, size, s)
    ensures size > 0 ==> s[0] == d
  {
    WalkLength(d, 128);
    WalkPrefix(d, 128, MAX_DISTANCE);
    CandidatesPrefixIsSpread(d, size);
    Candidates(d)[..size]
  }

  lemma CandidatesPrefixIsSpread(d: nat, size: nat)
    requires d <= MAX_DISTANCE && size <= |Candidates(d)|
    ensures IsSpread(d, size, Candidates(d)[..size])
    ensures size > 0 ==> Candidates(d)[0] == d
  {
    var c := Candidates(d);
    var s := c[..size];
    WalkInRange(d, MAX_DISTANCE);
    WalkRankIncreasing(d, MAX_DISTANCE);
    forall i, x: nat | 0 <= i < |s| && x <= MAX_DISTANCE && x !in s
      ensures Rank(d, s[i]) < Rank(d, x)
    {
      LeftOutRanksHigher(d, size, i, x);
    }
    WalkPrefix(d, 0, MAX_DISTANCE);
  }

  /** Any walk long enough to cover `size` entries gives the spread as its prefix. */
  lemma SpreadFromWalk(d: nat, n: nat, size: nat)
    requires d <= MAX_DISTANCE && size <= MAX_SIZE && n <= MAX_DISTANCE && size <= |Walk(d, n)|
    ensures Spread(d, size) == Walk(d, n)[..size]
    ensures size == |Walk(d, n)| ==> Spread(d, size) == Walk(d, n)
  {
    WalkPrefix(d, n, MAX_DISTANCE);
  }

  /** An in-range distance missing from a prefix of the candidates lies beyond it, so ranks higher. */
  lemma LeftOutRanksHigher(d: nat, size: nat, i: nat, x: nat)
    requires d <= MAX_DISTANCE && i < size <= |Candidates(d)|
    requires x <= MAX_DISTANCE && x !in Candidates(d)[..size]
    ensures Rank(d, Candidates(d)[i]) < Rank(d, x)
  {
    var c := Candidates(d);
    WalkComplete(d, MAX_DISTANCE, x);
    var j :| 0 <= j < |c| && c[j] == x;
    WalkRankIncreasing(d, MAX_DISTANCE);
  }

  /** A spread lists distinct distances. */
  lemma SpreadDistinct(d: nat, size: nat, s: seq<nat>)
    requires IsSpread(d, size, s)
    ensures forall i, j :: 0 <= i < j < |s| ==> s[i] != s[j]
  {
  }

  /** Growing the size only appends: a smaller spread is a prefix of a larger one. */
  lemma SpreadGrows(d: nat, m: nat, n: nat)
    requires d <= MAX_DISTANCE && m <= n <= MAX_SIZE
    ensures Spread(d, m) <= Spread(d, n)
  {
  }

  /** The characterisation determines the list: every list meeting it is `Spread(d, size)`. */
  lemma SpreadUnique(d: nat, size: nat, s: seq<nat>)
    requires d <= MAX_DISTANCE && size <= MAX_SIZE
    requires IsSpread(d, size, s)
    ensures s == Spread(d, size)
  {
    var t := Spread(d, size);
    SpreadsAgree(d, size, s, t, size);
  }

  lemma {:induction false} SpreadsAgree(d: nat, size: nat, s: seq<nat>, t: seq<nat>, k: nat)
    requires IsSpread(d, size, s) && IsSpread(d, size, t) && k <= size
    ensures s[..k] == t[..k]
  {
    if k > 0 {
      SpreadsAgree(d, size, s, t, k - 1);
      var i := k - 1;
      NoSmallerRankAt(d, size, s, t, i);
      NoSmallerRankAt(d, size, t, s, i);
      RankInjective(d, s[i], t[i]);
      assert s[..k] == s[..i] + [s[i]];
      assert t[..k] == t[..i] + [t[i]];
    }
  }

  /** Where two spreads first may differ, neither can hold the lower-ranked entry. */
  lemma NoSmallerRankAt(d: nat, size: nat, s: seq<nat>, t: seq<nat>, i: nat)
    requires IsSpread(d, size, s) && IsSpread(d, size, t)
    requires i < size && s[..i] == t[..i]
    ensures Rank(d, s[i]) >= Rank(d, t[i])
  {
  }
}
