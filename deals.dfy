/**
 * The merged deal table: the left join of the sales pipeline with the sales teams on
 * `sales_agent`, and the filters on `deal_stage` that the pipeline applies to it.
 */
module Deals {
  import opened Wrappers

  /** The two closed stages. Stage names are compared exactly, case included. */
  const WON := "Won"
  const LOST := "Lost"

  /** A row of the sales pipeline, reduced to the columns the aggregation reads. */
  datatype Deal = Deal(agent: string, stage: string, closeValue: int)

  /** A row of the sales teams table, reduced to the columns the aggregation reads. */
  datatype Member = Member(agent: string, manager: string)

  /** A row of the merged table: a deal with the manager joined to it (None for a null manager). */
  datatype Row = Row(agent: string, stage: string, closeValue: int, manager: Option<string>)

  function Attach(d: Deal, manager: Option<string>): Row
  {
    Row(d.agent, d.stage, d.closeValue, manager)
  }

  // ---------------------------------------------------------------------------
  // The team table read as a lookup

  /** The agents that have a row in the team table. */
  function TeamAgents(team: seq<Member>): set<string>
  {
    if team == [] then {} else {team[0].agent} + TeamAgents(team[1..])
  }

  /** The number of team rows that list the agent. */
  function Listings(team: seq<Member>, agent: string): nat
  {
    if team == [] then 0
    else (if team[0].agent == agent then 1 else 0) + Listings(team[1..], agent)
  }

  /** Every agent has at most one row in the team table. */
  predicate UniqueAgents(team: seq<Member>)
  {
    team == [] || (team[0].agent !in TeamAgents(team[1..]) && UniqueAgents(team[1..]))
  }

  /** The manager of the first team row of an agent, None when the agent has no row. */
  function ManagerOf(team: seq<Member>, agent: string): (m: Option<string>)
    ensures m.Some? <==> agent in TeamAgents(team)
  {
    if team == [] then None
    else if team[0].agent == agent then Some(team[0].manager)
    else ManagerOf(team[1..], agent)
  }

  // ---------------------------------------------------------------------------
  // Left join (how="left", on="sales_agent")

  /**
   * One merged row per team row of the deal's agent, in team order: each is the deal with the
   * manager of a team row of its agent.
   */
  function Matches(d: Deal, team: seq<Member>): (r: seq<Row>)
    ensures |r| <= |team|
    ensures forall x :: x in r ==>
      x.manager.Some? && x == Attach(d, x.manager) && Member(d.agent, x.manager.value) in team
  {
    if team == [] then []
    else
      var here := if team[0].agent == d.agent then [Attach(d, Some(team[0].manager))] else [];
      here + Matches(d, team[1..])
  }

  /**
   * The merged rows of one deal: its matches, or the deal alone with a null manager. Every
   * row is the deal with some manager, and a row with a null manager is the deal's only row.
   */
  function JoinDeal(d: Deal, team: seq<Member>): (r: seq<Row>)
    ensures |r| >= 1
    ensures forall x :: x in r ==> x == Attach(d, x.manager)
    ensures Attach(d, None) in r ==> r == [Attach(d, None)]
  {
    var m := Matches(d, team);
    if m == [] then [Attach(d, None)] else m
  }

  /** `pd.merge(sales_pipeline, sales_teams, on="sales_agent", how="left")`. */
  function LeftJoin(deals: seq<Deal>, team: seq<Member>): (r: seq<Row>)
    ensures |r| >= |deals|
  {
    if deals == [] then []
    else JoinDeal(deals[0], team) + LeftJoin(deals[1..], team)
  }

  // ---------------------------------------------------------------------------
  // Stage filters

  predicate IsClosed(stage: string)
  {
    stage == WON || stage == LOST
  }

  /**
   * `rows[rows['deal_stage'].isin(keep)]`: the rows whose stage is in keep, in their order.
   * Each kept row occurs as often as in the input; every other row is gone.
   */
  function FilterStage(rows: seq<Row>, keep: set<string>): (r: seq<Row>)
    ensures |r| <= |rows|
    ensures forall i :: 0 <= i < |r| ==> r[i].stage in keep
  {
    if rows == [] then []
    else (if rows[0].stage in keep then [rows[0]] else []) + FilterStage(rows[1..], keep)
  }

  /** `merged_data[merged_data['deal_stage'].isin(['Won', 'Lost'])]`. */
  function ClosedDeals(rows: seq<Row>): (r: seq<Row>)
    ensures |r| <= |rows|
    ensures AllClosed(r)
  {
    FilterStage(rows, {WON, LOST})
  }

  /** `filtered_deals[filtered_deals['deal_stage'] == 'Won']`. */
  function WonDeals(rows: seq<Row>): (r: seq<Row>)
    ensures |r| <= |rows|
    ensures forall i :: 0 <= i < |r| ==> r[i].stage == WON
  {
    FilterStage(rows, {WON})
  }

  /** Some row has the given stage. */
  predicate HasStage(rows: seq<Row>, stage: string)
  {
    exists i :: 0 <= i < |rows| && rows[i].stage == stage
  }

  /** Some deal has the given stage. */
  predicate SomeDealHasStage(deals: seq<Deal>, stage: string)
  {
    exists i :: 0 <= i < |deals| && deals[i].stage == stage
  }

  predicate AllClosed(rows: seq<Row>)
  {
    forall i :: 0 <= i < |rows| ==> IsClosed(rows[i].stage)
  }

  // ---------------------------------------------------------------------------
  // Lemmas: the join

  /** Every team row of the deal's agent yields a merged row carrying that row's manager. */
  lemma {:induction false} MatchesComplete(d: Deal, team: seq<Member>, i: int)
    requires 0 <= i < |team| && team[i].agent == d.agent
    ensures Attach(d, Some(team[i].manager)) in Matches(d, team)
  {
    var here := if team[0].agent == d.agent then [Attach(d, Some(team[0].manager))] else [];
    assert Matches(d, team) == here + Matches(d, team[1..]);
    if i > 0 {
      assert team[1..][i - 1] == team[i];
      MatchesComplete(d, team[1..], i - 1);
    }
  }

  /** A deal has exactly one match per team row listing its agent. */
  lemma {:induction false} MatchesCount(d: Deal, team: seq<Member>)
    ensures |Matches(d, team)| == Listings(team, d.agent)
  {
    if team != [] {
      MatchesCount(d, team[1..]);
    }
  }

  /** The agents of the team table are exactly those listed in some row. */
  lemma {:induction false} TeamAgentsListed(team: seq<Member>, agent: string)
    ensures agent in TeamAgents(team) <==> exists i :: 0 <= i < |team| && team[i].agent == agent
  {
    if team != [] {
      TeamAgentsListed(team[1..], agent);
      if exists i :: 0 <= i < |team[1..]| && team[1..][i].agent == agent {
        var i :| 0 <= i < |team[1..]| && team[1..][i].agent == agent;
        assert team[i + 1].agent == agent;
      }
      if exists i :: 0 <= i < |team| && team[i].agent == agent {
        var i :| 0 <= i < |team| && team[i].agent == agent;
        if i > 0 {
          assert team[1..][i - 1].agent == agent;
        }
      }
    }
  }

  /**
   * A deal gets a null-manager row exactly when its agent has no team row, whether or not
   * team agents are unique.
   */
  lemma JoinDealNull(d: Deal, team: seq<Member>)
    ensures Attach(d, None) in JoinDeal(d, team) <==> d.agent !in TeamAgents(team)
  {
    TeamAgentsListed(team, d.agent);
    if d.agent in TeamAgents(team) {
      var i :| 0 <= i < |team| && team[i].agent == d.agent;
      MatchesComplete(d, team, i);
    } else {
      UnmatchedDealGetsNull(d, team);
    }
  }

  /** An agent with no team row gets exactly one merged row, with a null manager. */
  lemma {:induction false} UnmatchedDealGetsNull(d: Deal, team: seq<Member>)
    requires d.agent !in TeamAgents(team)
    ensures JoinDeal(d, team) == [Attach(d, None)]
  {
    NoMatchesOutsideTeam(d, team);
  }

  lemma {:induction false} NoMatchesOutsideTeam(d: Deal, team: seq<Member>)
    requires d.agent !in TeamAgents(team)
    ensures Matches(d, team) == []
  {
    if team != [] {
      NoMatchesOutsideTeam(d, team[1..]);
    }
  }

  /** With unique team agents, a deal is merged into exactly one row carrying its agent's manager. */
  lemma {:induction false} JoinDealUnique(d: Deal, team: seq<Member>)
    requires UniqueAgents(team)
    ensures JoinDeal(d, team) == [Attach(d, ManagerOf(team, d.agent))]
  {
    if team == [] {
    } else if team[0].agent == d.agent {
      NoMatchesOutsideTeam(d, team[1..]);
      assert Matches(d, team) == [Attach(d, Some(team[0].manager))] + [];
    } else {
      JoinDealUnique(d, team[1..]);
      assert Matches(d, team) == Matches(d, team[1..]);
    }
  }

  /**
   * With unique team agents the left join keeps every deal, once and in order, and gives it
   * its agent's manager, or a null manager when the agent has no team row.
   */
  lemma {:induction false} LeftJoinUnique(deals: seq<Deal>, team: seq<Member>)
    requires UniqueAgents(team)
    ensures |LeftJoin(deals, team)| == |deals|
    ensures forall i :: 0 <= i < |deals| ==>
      LeftJoin(deals, team)[i] == Attach(deals[i], ManagerOf(team, deals[i].agent))
  {
    if deals != [] {
      JoinDealUnique(deals[0], team);
      LeftJoinUnique(deals[1..], team);
      var r := LeftJoin(deals, team);
      assert r == [Attach(deals[0], ManagerOf(team, deals[0].agent))] + LeftJoin(deals[1..], team);
      forall i | 0 < i < |deals|
        ensures r[i] == Attach(deals[i], ManagerOf(team, deals[i].agent))
      {
        assert r[i] == LeftJoin(deals[1..], team)[i - 1];
        assert deals[1..][i - 1] == deals[i];
      }
    }
  }

  /** The join works deal by deal: joining two blocks of deals concatenates their joins. */
  lemma {:induction false} LeftJoinAppend(a: seq<Deal>, b: seq<Deal>, team: seq<Member>)
    ensures LeftJoin(a + b, team) == LeftJoin(a, team) + LeftJoin(b, team)
  {
    if a == [] {
      assert a + b == b;
    } else {
      assert (a + b)[0] == a[0] && (a + b)[1..] == a[1..] + b;
      LeftJoinAppend(a[1..], b, team);
    }
  }

  // ---------------------------------------------------------------------------
  // Lemmas: the filters

  /**
   * The filter keeps each row with a kept stage as often as it occurs in the input, and no
   * other row.
   */
  lemma {:induction false} FilterStageCounts(rows: seq<Row>, keep: set<string>)
    ensures forall x :: multiset(FilterStage(rows, keep))[x] == if x.stage in keep then multiset(rows)[x] else 0
  {
    if rows != [] {
      FilterStageCounts(rows[1..], keep);
      assert rows == [rows[0]] + rows[1..];
    }
  }

  /** The filter works row by row, so it keeps the rows in their original order. */
  lemma {:induction false} FilterStageAppend(a: seq<Row>, b: seq<Row>, keep: set<string>)
    ensures FilterStage(a + b, keep) == FilterStage(a, keep) + FilterStage(b, keep)
  {
    if a == [] {
      assert a + b == b;
    } else {
      assert (a + b)[0] == a[0] && (a + b)[1..] == a[1..] + b;
      FilterStageAppend(a[1..], b, keep);
    }
  }

  /** Filtering twice is filtering once. */
  lemma {:induction false} FilterStageIdempotent(rows: seq<Row>, keep: set<string>)
    ensures FilterStage(FilterStage(rows, keep), keep) == FilterStage(rows, keep)
  {
    if rows != [] {
      FilterStageIdempotent(rows[1..], keep);
      var tail := FilterStage(rows[1..], keep);
      if rows[0].stage in keep {
        assert FilterStage(rows, keep) == [rows[0]] + tail;
        assert ([rows[0]] + tail)[1..] == tail;
      } else {
        assert FilterStage(rows, keep) == tail;
      }
    }
  }

  /** The Won rows of the closed rows are the Won rows of the merged table. */
  lemma {:induction false} WonDealsOfClosed(rows: seq<Row>)
    ensures WonDeals(ClosedDeals(rows)) == WonDeals(rows)
  {
    if rows != [] {
      WonDealsOfClosed(rows[1..]);
      var tail := ClosedDeals(rows[1..]);
      if IsClosed(rows[0].stage) {
        assert ClosedDeals(rows) == [rows[0]] + tail;
        assert ([rows[0]] + tail)[1..] == tail;
      } else {
        assert ClosedDeals(rows) == tail;
      }
    }
  }

  /** The join neither loses nor invents a stage. */
  lemma LeftJoinHasStage(deals: seq<Deal>, team: seq<Member>, stage: string)
    ensures HasStage(LeftJoin(deals, team), stage) <==> SomeDealHasStage(deals, stage)
  {
    if SomeDealHasStage(deals, stage) {
      LeftJoinKeepsStage(deals, team, stage);
    }
    if HasStage(LeftJoin(deals, team), stage) {
      LeftJoinOnlyStage(deals, team, stage);
    }
  }

  lemma {:induction false} LeftJoinKeepsStage(deals: seq<Deal>, team: seq<Member>, stage: string)
    requires SomeDealHasStage(deals, stage)
    ensures HasStage(LeftJoin(deals, team), stage)
  {
    var head := JoinDeal(deals[0], team);
    var tail := LeftJoin(deals[1..], team);
    var r := LeftJoin(deals, team);
    assert r == head + tail;
    var i :| 0 <= i < |deals| && deals[i].stage == stage;
    if i == 0 {
      assert head[0] in head;
      assert r[0] == head[0];
    } else {
      assert deals[1..][i - 1] == deals[i];
      LeftJoinKeepsStage(deals[1..], team, stage);
      var j :| 0 <= j < |tail| && tail[j].stage == stage;
      assert r[|head| + j] == tail[j];
    }
  }

  lemma {:induction false} LeftJoinOnlyStage(deals: seq<Deal>, team: seq<Member>, stage: string)
    requires HasStage(LeftJoin(deals, team), stage)
    ensures SomeDealHasStage(deals, stage)
  {
    var head := JoinDeal(deals[0], team);
    var tail := LeftJoin(deals[1..], team);
    var r := LeftJoin(deals, team);
    assert r == head + tail;
    var j :| 0 <= j < |r| && r[j].stage == stage;
    if j < |head| {
      assert r[j] == head[j] && head[j] in head;
      assert deals[0].stage == stage;
    } else {
      assert r[j] == tail[j - |head|];
      LeftJoinOnlyStage(deals[1..], team, stage);
      var i :| 0 <= i < |deals[1..]| && deals[1..][i].stage == stage;
      assert deals[i + 1].stage == stage;
    }
  }

  /** A stage the filter keeps occurs after filtering exactly when it occurs before. */
  lemma FilterKeepsStage(rows: seq<Row>, keep: set<string>, stage: string)
    requires stage in keep
    ensures HasStage(FilterStage(rows, keep), stage) <==> HasStage(rows, stage)
  {
    var r := FilterStage(rows, keep);
    FilterStageCounts(rows, keep);
    if HasStage(r, stage) {
      var j :| 0 <= j < |r| && r[j].stage == stage;
      assert multiset(r)[r[j]] > 0;
      assert r[j] in multiset(rows);
      var i :| 0 <= i < |rows| && rows[i] == r[j];
    }
    if HasStage(rows, stage) {
      var i :| 0 <= i < |rows| && rows[i].stage == stage;
      assert multiset(rows)[rows[i]] > 0;
      assert rows[i] in multiset(r);
      var j :| 0 <= j < |r| && r[j] == rows[i];
    }
  }
}
