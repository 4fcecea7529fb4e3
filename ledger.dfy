/** The window ledger of the sliding-window rate limiter: an ordered map from a
    millisecond timestamp to the number of admissions granted at that instant.
    This module holds the value-level view of the ledger (the operations the
    limiter performs on its map, and the sum it computes over part of it);
    the class that owns the map lives in module RateLimiter. */
module Ledger {

  /** Every bucket holds at least one admission: buckets are created with 1 and
      only ever incremented or removed whole. */
  ghost predicate AllPositive(w: map<int, int>)
  {
    forall k :: k in w ==> w[k] >= 1
  }

  /** A ledger that is not empty holds some bucket. */
  lemma HasKey(w: map<int, int>)
    requires w.Keys != {}
    ensures exists k :: k in w.Keys
  {
    if forall k :: k !in w.Keys {
      assert false;
    }
  }

  /** Sum of all counts held in the ledger `w`. Summation is independent of the
      order in which the buckets are visited (see MassRemove), so the bucket
      removed first is an arbitrary one. */
  ghost function Mass(w: map<int, int>): int
    decreases |w|
  {
    if w.Keys == {} then 0
    else
      HasKey(w);
      var k :| k in w.Keys;
      w[k] + Mass(w - {k})
  }

  /** The part of the ledger at or after `lo`: the map's tail view, whose lower
      bound is inclusive. */
  function AtOrAfter(w: map<int, int>, lo: int): (r: map<int, int>)
    ensures forall k :: k in r <==> k in w && k >= lo
    ensures forall k :: k in r ==> r[k] == w[k]
  {
    map k | k in w && k >= lo :: w[k]
  }

  /** The ledger after one more admission recorded at `t`: the bucket at `t`
      becomes 1 when absent and grows by one otherwise. */
  function Bumped(w: map<int, int>, t: int): (r: map<int, int>)
    ensures r.Keys == w.Keys + {t}
    ensures r[t] == (if t in w then w[t] + 1 else 1)
    ensures forall k :: k in w && k != t ==> r[k] == w[k]
  {
    w[t := if t in w then w[t] + 1 else 1]
  }

  /** Number of admissions the ledger holds in the window that ends at `now`
      and lasts `timeLimit` milliseconds: every bucket with key at or after
      `now - timeLimit`, the boundary bucket included. */
  ghost function Count(w: map<int, int>, now: int, timeLimit: int): int
  {
    Mass(AtOrAfter(w, now - timeLimit))
  }

  /** Removing any one bucket takes exactly its count off the sum: the sum does
      not depend on which bucket Mass happens to visit first. */
  lemma {:induction false} MassRemove(w: map<int, int>, k: int)
    requires k in w
    ensures Mass(w) == w[k] + Mass(w - {k})
    decreases |w|
  {
    var j :| j in w && Mass(w) == w[j] + Mass(w - {j});
    if j != k {
      assert (w - {j}).Keys == w.Keys - {j};
      assert (w - {k}).Keys == w.Keys - {k};
      MassRemove(w - {j}, k);
      MassRemove(w - {k}, j);
      assert w - {j} - {k} == w - {k} - {j};
    }
  }

  /** A ledger whose counts are non-negative has a non-negative sum that is at
      least each of its buckets. */
  lemma {:induction false} MassNonNegative(w: map<int, int>)
    requires forall k :: k in w ==> w[k] >= 0
    ensures Mass(w) >= 0
    ensures forall k :: k in w ==> w[k] <= Mass(w)
    decreases |w|
  {
    if w.Keys != {} {
      HasKey(w);
      var j :| j in w.Keys;
      assert (w - {j}).Keys == w.Keys - {j};
      MassRemove(w, j);
      MassNonNegative(w - {j});
      forall k | k in w
        ensures w[k] <= Mass(w)
      {
        MassRemove(w, k);
        MassNonNegative(w - {k});
      }
    }
  }

  /** Dropping buckets (with non-negative counts) never increases the sum. */
  lemma {:induction false} MassSubmap(small: map<int, int>, big: map<int, int>)
    requires forall k :: k in big ==> big[k] >= 0
    requires forall k :: k in small ==> k in big && small[k] == big[k]
    ensures Mass(small) <= Mass(big)
    decreases |small|
  {
    if small.Keys == {} {
      MassNonNegative(big);
    } else {
      HasKey(small);
      var k :| k in small.Keys;
      assert (small - {k}).Keys == small.Keys - {k};
      MassRemove(small, k);
      MassRemove(big, k);
      MassSubmap(small - {k}, big - {k});
    }
  }

  /** Recording one admission adds exactly one to the sum of the ledger. */
  lemma MassBumped(w: map<int, int>, t: int)
    ensures Mass(Bumped(w, t)) == Mass(w) + 1
  {
    var r := Bumped(w, t);
    MassRemove(r, t);
    if t in w {
      MassRemove(w, t);
      assert r - {t} == w - {t};
    } else {
      assert r - {t} == w;
    }
  }

  /** The sum of a ledger with a single bucket is that bucket's count. */
  lemma MassSingleton(t: int, n: int)
    ensures Mass(map[t := n]) == n
  {
    MassRemove(map[t := n], t);
    assert map[t := n] - {t} == map[];
  }

  /** Recording at `t` adds one to the in-window count at `now` exactly when
      `t` lies at or after the window's lower bound; otherwise the count is
      unchanged. */
  lemma CountBumped(w: map<int, int>, t: int, now: int, timeLimit: int)
    ensures Count(Bumped(w, t), now, timeLimit)
         == Count(w, now, timeLimit) + (if t >= now - timeLimit then 1 else 0)
  {
    var lo := now - timeLimit;
    if t >= lo {
      assert AtOrAfter(Bumped(w, t), lo) == Bumped(AtOrAfter(w, lo), t);
      MassBumped(AtOrAfter(w, lo), t);
    } else {
      assert AtOrAfter(Bumped(w, t), lo) == AtOrAfter(w, lo);
    }
  }

  /** Boundary inclusivity: the in-window count at `now` is the count strictly
      inside the window plus the bucket sitting exactly at `now - timeLimit`,
      if there is one. */
  lemma BoundaryCounted(w: map<int, int>, now: int, timeLimit: int)
    ensures Count(w, now, timeLimit)
         == Mass(AtOrAfter(w, now - timeLimit + 1))
            + (if now - timeLimit in w then w[now - timeLimit] else 0)
  {
    var lo := now - timeLimit;
    var tail := AtOrAfter(w, lo);
    if lo in w {
      MassRemove(tail, lo);
      assert tail - {lo} == AtOrAfter(w, lo + 1);
    } else {
      assert tail == AtOrAfter(w, lo + 1);
    }
  }

  /** The window only slides forward: a later `now` never sees more
      admissions than an earlier one, for a ledger of non-negative counts. */
  lemma CountAntitone(w: map<int, int>, earlier: int, later: int, timeLimit: int)
    requires forall k :: k in w ==> w[k] >= 0
    requires earlier <= later
    ensures Count(w, later, timeLimit) <= Count(w, earlier, timeLimit)
  {
    MassSubmap(AtOrAfter(w, later - timeLimit), AtOrAfter(w, earlier - timeLimit));
  }

  /** Trimming the ledger at `cut` and then viewing it from a bound no lower
      than `cut` is the same as viewing the untrimmed ledger from that bound. */
  lemma TrimThenView(w: map<int, int>, cut: int, lo: int)
    requires cut <= lo
    ensures AtOrAfter(AtOrAfter(w, cut), lo) == AtOrAfter(w, lo)
  {
  }
}
