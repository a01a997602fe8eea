/** The capacity statistics behind `GET /api/stats`: how many people opted in
    for early access, out of a fixed cap, and how many places remain. */
module Stats {

  /** The fixed number of early-access places. */
  const Cap: nat := 10000

  /** The response body: `total_opted_in`, `spots_left` and `cap`. */
  datatype Stats = Stats(totalOptedIn: nat, spotsLeft: nat, cap: nat)

  /** The statistics for `total` sign-ups: the places left are the cap minus
      the total, and none once the total reaches the cap. */
  function StatsFor(total: nat): (s: Stats)
    ensures s.cap == Cap && s.totalOptedIn == total
    ensures s.spotsLeft <= Cap
    ensures total <= Cap ==> s.spotsLeft + total == Cap
    ensures total >= Cap ==> s.spotsLeft == 0
  {
    var left := Cap - total;
    Stats(total, if left > 0 then left else 0, Cap)
  }

  /** More sign-ups never leave more places. */
  lemma SpotsLeftAntitone(t1: nat, t2: nat)
    requires t1 <= t2
    ensures StatsFor(t2).spotsLeft <= StatsFor(t1).spotsLeft
  {
  }

  /** One more sign-up takes one place, unless none was left. */
  lemma OneMoreSignup(t: nat)
    ensures var before, after := StatsFor(t).spotsLeft, StatsFor(t + 1).spotsLeft;
      if before == 0 then after == 0 else after == before - 1
  {
  }

  /** The worked values: no sign-ups, exactly the cap, past the cap. */
  lemma StatsExamples()
    ensures StatsFor(0) == Stats(0, 10000, 10000)
    ensures StatsFor(10000) == Stats(10000, 0, 10000)
    ensures StatsFor(10005) == Stats(10005, 0, 10000)
  {
  }
}
