/**
 * The daily pool and the arithmetic of its distribution: the pool of one day is split over
 * the day's participants by ticket count, each ticket worth floor(pool / total tickets), and
 * the remainder handed out greedily, participant by participant, at most one point per ticket.
 *
 * The sequence functions recurse on the LAST element, the way the distribution loop consumes
 * its rows: what holds after the first i participants is what the loop knows after i steps.
 */
module Pool {
  import opened Results

  datatype PoolDay = PoolDay(poolPoints: int, distributed: bool, distributedAt: Option<int>)

  /** The record a missing day is created with (pool 0, not distributed). */
  const EmptyDay := PoolDay(0, false, None)

  /** What the daily job does with a day: nothing, seal it without paying, or pay and seal it. */
  datatype DistributionOutcome =
    | AlreadyDistributed
    | SealedEmptyPool
    | SealedNoTickets
    | Distributed(perTicket: int, remainder: int, payouts: seq<int>)

  /** The day record once the job finished with it: marked distributed at `now`. */
  function Sealed(d: PoolDay, now: int): (r: PoolDay)
    ensures r.distributed && r.distributedAt == Some(now) && r.poolPoints == d.poolPoints
  {
    d.(distributed := true, distributedAt := Some(now))
  }

  function Sum(ts: seq<int>): (total: int)
  {
    if |ts| == 0 then 0 else Sum(ts[..|ts| - 1]) + ts[|ts| - 1]
  }

  predicate AllNonNegative(ts: seq<int>)
  {
    forall i :: 0 <= i < |ts| ==> ts[i] >= 0
  }

  function Min(a: int, b: int): (m: int) { if a <= b then a else b }

  function Max(a: int, b: int): (m: int) { if a >= b then a else b }

  /** The remainder bonus of a participant holding t tickets while `left` points remain. */
  function Extra(left: int, t: int): (bonus: int)
  {
    if left > 0 then Min(left, t) else 0
  }

  /** The remainder still unassigned after the participants ts had their turn. */
  function Left(ts: seq<int>, remainder: int): (left: int)
  {
    if |ts| == 0 then remainder
    else
      var l := Left(ts[..|ts| - 1], remainder);
      l - Extra(l, ts[|ts| - 1])
  }

  /** The payout of each participant, in row order, for per-ticket value p and remainder rem. */
  function Shares(ts: seq<int>, p: int, remainder: int): (r: seq<int>)
    ensures |r| == |ts|
  {
    if |ts| == 0 then []
    else
      var init := ts[..|ts| - 1];
      var t := ts[|ts| - 1];
      Shares(init, p, remainder) + [p * t + Extra(Left(init, remainder), t)]
  }

  /** Floor of pool / total for a positive total. */
  function PerTicket(pool: int, total: int): (p: int)
    requires total > 0
  {
    pool / total
  }

  /** What is left of the pool once every ticket got the per-ticket value. */
  function Remainder(pool: int, total: int): (rem: int)
    requires total > 0
  {
    pool - PerTicket(pool, total) * total
  }

  /**
   * The outcome of the daily job for day record `d` whose participants hold tickets `ts`
   * (positive counts, in row order): a distributed day is skipped; an empty pool or a day
   * without tickets is sealed with no payout; otherwise every ticket is worth
   * floor(pool / total), the remainder goes out greedily, and the payouts add up to the pool
   * with each participant between p*t and p*t + t.
   */
  function Distribution(d: PoolDay, ts: seq<int>): (r: DistributionOutcome)
    requires AllNonNegative(ts)
    ensures r == AlreadyDistributed <==> d.distributed
    ensures r == SealedEmptyPool <==> !d.distributed && d.poolPoints <= 0
    ensures r == SealedNoTickets <==> !d.distributed && d.poolPoints > 0 && Sum(ts) <= 0
    ensures r.Distributed? <==> !d.distributed && d.poolPoints > 0 && Sum(ts) > 0
    ensures r.Distributed? ==>
              r.perTicket == d.poolPoints / Sum(ts) &&
              0 <= r.remainder < Sum(ts) && r.perTicket * Sum(ts) + r.remainder == d.poolPoints &&
              |r.payouts| == |ts| && Sum(r.payouts) == d.poolPoints &&
              forall i :: 0 <= i < |ts| ==> r.perTicket * ts[i] <= r.payouts[i] <= r.perTicket * ts[i] + ts[i]
  {
    if d.distributed then AlreadyDistributed
    else if d.poolPoints <= 0 then SealedEmptyPool
    else if Sum(ts) <= 0 then SealedNoTickets
    else
      var total := Sum(ts);
      var p, rem := PerTicket(d.poolPoints, total), Remainder(d.poolPoints, total);
      RemainderBounds(d.poolPoints, total);
      Conservation(d.poolPoints, ts);
      AllShareBounds(ts, p, rem);
      Distributed(p, rem, Shares(ts, p, rem))
  }

  // ---------------------------------------------------------------------------------------
  // Properties

  /** The remainder never goes negative: it is budget minus tickets served, floored at 0. */
  lemma {:induction false} LeftIsExcess(ts: seq<int>, remainder: int)
    requires remainder >= 0 && AllNonNegative(ts)
    ensures Left(ts, remainder) == Max(0, remainder - Sum(ts))
  {
    if |ts| > 0 {
      LeftIsExcess(ts[..|ts| - 1], remainder);
    }
  }

  /** The payouts add up to p points per ticket plus the part of the remainder that was used. */
  lemma {:induction false} SharesSum(ts: seq<int>, p: int, remainder: int)
    ensures Sum(Shares(ts, p, remainder)) == p * Sum(ts) + remainder - Left(ts, remainder)
  {
    if |ts| > 0 {
      var init, t := ts[..|ts| - 1], ts[|ts| - 1];
      var l := Left(init, remainder);
      var s, si := Shares(ts, p, remainder), Shares(init, p, remainder);
      SharesSum(init, p, remainder);
      assert s == si + [p * t + Extra(l, t)];
      assert s[..|s| - 1] == si;
      assert Sum(s) == Sum(si) + p * t + Extra(l, t);
      assert Left(ts, remainder) == l - Extra(l, t);
      MulDistributes(p, Sum(init), t);
    }
  }

  lemma MulDistributes(p: int, a: int, b: int)
    ensures p * (a + b) == p * a + p * b
  {
  }

  /** The per-ticket value and remainder of a positive total: 0 <= remainder < total. */
  lemma RemainderBounds(pool: int, total: int)
    requires total > 0
    ensures 0 <= Remainder(pool, total) < total
    ensures PerTicket(pool, total) * total + Remainder(pool, total) == pool
  {
  }

  /** Conservation: the payouts of a day sum to exactly its pool. */
  lemma Conservation(pool: int, ts: seq<int>)
    requires AllNonNegative(ts) && Sum(ts) > 0
    ensures Sum(Shares(ts, PerTicket(pool, Sum(ts)), Remainder(pool, Sum(ts)))) == pool
  {
    var total := Sum(ts);
    var p, rem := PerTicket(pool, total), Remainder(pool, total);
    RemainderBounds(pool, total);
    SharesSum(ts, p, rem);
    LeftIsExcess(ts, rem);
  }

  /** Payout i is the base value of its tickets plus the bonus left for it after rows 0..i-1. */
  lemma {:induction false} SharesAt(ts: seq<int>, p: int, remainder: int, i: int)
    requires 0 <= i < |ts|
    ensures Shares(ts, p, remainder)[i] == p * ts[i] + Extra(Left(ts[..i], remainder), ts[i])
  {
    var init := ts[..|ts| - 1];
    if i < |ts| - 1 {
      SharesAt(init, p, remainder, i);
      assert init[..i] == ts[..i];
    } else {
      assert init == ts[..i];
    }
  }

  /**
   * Greedy allocation in closed form: participant i gets min(t_i, what the remainder still
   * holds after the tickets of rows 0..i-1), so the remainder goes to the first rows.
   */
  lemma BonusClosedForm(ts: seq<int>, p: int, remainder: int, i: int)
    requires remainder >= 0 && AllNonNegative(ts) && 0 <= i < |ts|
    ensures Shares(ts, p, remainder)[i] - p * ts[i] == Min(ts[i], Max(0, remainder - Sum(ts[..i])))
  {
    SharesAt(ts, p, remainder, i);
    LeftIsExcess(ts[..i], remainder);
  }

  /** Each participant with t tickets gains between p*t and p*t + t. */
  lemma ShareBounds(ts: seq<int>, p: int, remainder: int, i: int)
    requires remainder >= 0 && AllNonNegative(ts) && 0 <= i < |ts|
    ensures p * ts[i] <= Shares(ts, p, remainder)[i] <= p * ts[i] + ts[i]
  {
    BonusClosedForm(ts, p, remainder, i);
  }

  lemma AllShareBounds(ts: seq<int>, p: int, remainder: int)
    requires remainder >= 0 && AllNonNegative(ts)
    ensures forall i :: 0 <= i < |ts| ==> p * ts[i] <= Shares(ts, p, remainder)[i] <= p * ts[i] + ts[i]
  {
    forall i | 0 <= i < |ts|
      ensures p * ts[i] <= Shares(ts, p, remainder)[i] <= p * ts[i] + ts[i]
    {
      ShareBounds(ts, p, remainder, i);
    }
  }

  /** Running the job twice is running it once: a sealed day is skipped. */
  lemma DistributionIdempotent(d: PoolDay, now: int, ts: seq<int>)
    requires AllNonNegative(ts)
    ensures Distribution(Sealed(d, now), ts) == AlreadyDistributed
  {
  }

  /** The worked examples: tickets 5, 3, 2 with a pool of 10 and with a pool of 11. */
  lemma Examples()
    ensures Sum([5, 3, 2]) == 10
    ensures PerTicket(10, 10) == 1 && Remainder(10, 10) == 0 && Shares([5, 3, 2], 1, 0) == [5, 3, 2]
    ensures PerTicket(11, 10) == 1 && Remainder(11, 10) == 1 && Shares([5, 3, 2], 1, 1) == [6, 3, 2]
  {
    var ts := [5, 3, 2];
    assert ts[..2] == [5, 3] && [5, 3][..1] == [5] && [5][..0] == [];
    assert Sum([5]) == 5;
    assert Sum([5, 3]) == 8;
    assert Sum(ts) == 10;
    assert Shares([5], 1, 1) == [6];
    assert Shares([5, 3], 1, 1) == [6, 3];
  }
}
