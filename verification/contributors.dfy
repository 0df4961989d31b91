/** The contributor leaderboard and the platform statistics derived from it. */
module Contributors {
  import opened Results
  import opened Seqs

  datatype Contributor = Contributor(
    email: string,
    contributionCount: int,
    rank: int,
    gender: Option<string>,
    region: Option<string>)

  function Seed(n: string, count: int, rank: int, gender: string, region: string): Contributor {
    Contributor("contributor" + n + "@example.com", count, rank, Some(gender), Some(region))
  }

  /** The seed table `MOCK_CONTRIBUTORS`, already in rank order. */
  const SeedContributors: seq<Contributor> := [
    Seed("1", 15000, 1, "female", "Port-au-Prince"),
    Seed("2", 12000, 2, "male", "Cap-Haïtien"),
    Seed("3", 8500, 3, "female", "Les Cayes"),
    Seed("4", 6200, 4, "male", "Gonaïves"),
    Seed("5", 4500, 5, "other", "Port-au-Prince"),
    Seed("6", 3100, 6, "female", "Jacmel"),
    Seed("7", 2800, 7, "male", "Saint-Marc"),
    Seed("8", 2200, 8, "female", "Jérémie"),
    Seed("9", 1900, 9, "male", "Hinche"),
    Seed("10", 1500, 10, "female", "Port-de-Paix")
  ]

  /** Ranks are dense from 1 and follow the table order, and counts strictly decrease with rank. */
  predicate RankedTable(cs: seq<Contributor>) {
    && (forall i :: 0 <= i < |cs| ==> cs[i].rank == i + 1 && cs[i].contributionCount >= 0)
    && (forall i, j :: 0 <= i < j < |cs| ==> cs[i].contributionCount > cs[j].contributionCount)
  }

  /** Each row has more contributions than the next one. */
  predicate AdjacentDecreasing(cs: seq<Contributor>) {
    forall i :: 0 < i < |cs| ==> cs[i - 1].contributionCount > cs[i].contributionCount
  }

  /** Decreasing from each row to the next means decreasing between any two rows. */
  lemma {:induction false} AdjacentDecreasingPairwise(cs: seq<Contributor>)
    requires AdjacentDecreasing(cs)
    ensures forall i, j :: 0 <= i < j < |cs| ==> cs[i].contributionCount > cs[j].contributionCount
    decreases |cs|
  {
    if |cs| > 1 {
      var init := cs[..|cs| - 1];
      assert AdjacentDecreasing(init);
      AdjacentDecreasingPairwise(init);
      forall i, j | 0 <= i < j < |cs| ensures cs[i].contributionCount > cs[j].contributionCount {
        if j < |cs| - 1 {
          assert cs[i] == init[i] && cs[j] == init[j];
        } else if i < j - 1 {
          assert cs[i] == init[i] && cs[j - 1] == init[j - 1];
        }
      }
    }
  }

  /** Dense ranks and a count that drops from each row to the next make a ranked table. */
  lemma RankedFromAdjacent(cs: seq<Contributor>)
    requires forall i :: 0 <= i < |cs| ==> cs[i].rank == i + 1 && cs[i].contributionCount >= 0
    requires AdjacentDecreasing(cs)
    ensures RankedTable(cs)
  {
    AdjacentDecreasingPairwise(cs);
  }

  lemma SeedTableRanked()
    ensures |SeedContributors| == 10
    ensures RankedTable(SeedContributors)
  {
    RankedFromAdjacent(SeedContributors);
  }

  /** `sum(c["contributionCount"] for c in cs)`: zero for no rows, and never negative
      when no count is. */
  function TotalCount(cs: seq<Contributor>): (total: int)
    ensures |cs| == 0 ==> total == 0
    ensures (forall i :: 0 <= i < |cs| ==> cs[i].contributionCount >= 0) ==> total >= 0
    decreases |cs|
  {
    if |cs| == 0 then 0 else cs[0].contributionCount + TotalCount(cs[1..])
  }

  /** The sum over a single row is that row's count. */
  lemma TotalCountSingle(c: Contributor)
    ensures TotalCount([c]) == c.contributionCount
  {
    assert [c][1..] == [];
  }

  /** The sum splits over a concatenation. */
  lemma {:induction false} TotalCountAppend(a: seq<Contributor>, b: seq<Contributor>)
    ensures TotalCount(a + b) == TotalCount(a) + TotalCount(b)
    decreases |a|
  {
    if |a| == 0 {
      assert a + b == b;
    } else {
      assert (a + b)[1..] == a[1..] + b;
      TotalCountAppend(a[1..], b);
    }
  }

  /** With non-negative counts the sum is non-negative and bounds every single count. */
  lemma {:induction false} TotalCountBounds(cs: seq<Contributor>)
    requires forall i :: 0 <= i < |cs| ==> cs[i].contributionCount >= 0
    ensures TotalCount(cs) >= 0
    ensures forall i :: 0 <= i < |cs| ==> cs[i].contributionCount <= TotalCount(cs)
    decreases |cs|
  {
    if |cs| > 0 {
      TotalCountBounds(cs[1..]);
      assert forall i :: 1 <= i < |cs| ==> cs[i] == cs[1..][i - 1];
    }
  }

  datatype Statistics = Statistics(totalContributions: int, uniqueContributors: int)

  /** `GET /api/statistics`, without the derived `totalAudioHours`. */
  function StatisticsOf(cs: seq<Contributor>): (st: Statistics)
    ensures st.uniqueContributors == |cs|
    ensures st.totalContributions == TotalCount(cs)
    ensures (forall i :: 0 <= i < |cs| ==> cs[i].contributionCount >= 0) ==>
      st.totalContributions >= 0 &&
      forall i :: 0 <= i < |cs| ==> cs[i].contributionCount <= st.totalContributions
  {
    assert (forall i :: 0 <= i < |cs| ==> cs[i].contributionCount >= 0) ==>
      forall i :: 0 <= i < |cs| ==> cs[i].contributionCount <= TotalCount(cs) by {
      if forall i :: 0 <= i < |cs| ==> cs[i].contributionCount >= 0 {
        TotalCountBounds(cs);
      }
    }
    Statistics(TotalCount(cs), |cs|)
  }

  /** The statistics the service reports for its seed table. */
  lemma SeedStatistics()
    ensures StatisticsOf(SeedContributors) == Statistics(57700, 10)
  {
  }

  /** `GET /api/contributors/top`: the first `limit` rows of the ranked table. */
  function TopContributors(cs: seq<Contributor>, limit: int): (r: seq<Contributor>)
    requires 1 <= limit <= 100
    ensures |r| == Min(limit, |cs|)
    ensures r == cs[..|r|]
    ensures RankedTable(cs) ==> forall i :: 0 <= i < |r| ==> r[i].rank == i + 1
    ensures RankedTable(cs) ==> forall c, d :: c in r && d in cs[|r|..] ==>
      c.contributionCount > d.contributionCount
  {
    var r := cs[..Min(limit, |cs|)];
    assert forall c :: c in r ==> exists i :: 0 <= i < |r| && c == cs[i];
    assert forall d :: d in cs[|r|..] ==> exists j :: |r| <= j < |cs| && d == cs[j];
    r
  }

  /** The leaderboard never accounts for more than the platform total. */
  lemma TopContributorsShare(cs: seq<Contributor>, limit: int)
    requires 1 <= limit <= 100
    requires forall i :: 0 <= i < |cs| ==> cs[i].contributionCount >= 0
    ensures TotalCount(TopContributors(cs, limit)) <= StatisticsOf(cs).totalContributions
  {
    var top := TopContributors(cs, limit);
    assert cs == top + cs[|top|..];
    TotalCountAppend(top, cs[|top|..]);
    TotalCountBounds(cs[|top|..]);
  }

  /** `topContributors(3)` returns exactly the three best-ranked seed contributors. */
  lemma TopThree()
    ensures TopContributors(SeedContributors, 3) == [SeedContributors[0], SeedContributors[1], SeedContributors[2]]
  {
  }
}
