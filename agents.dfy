/**
 * Agent win rates and the per-manager count of high-performing agents: the
 * `groupby(['sales_agent', 'deal_stage']).size().unstack(fill_value=0)` tally, the derived
 * "Total Deals" and "Win Rate (%)" columns, the 65% threshold, and the count of selected
 * agents per manager sorted in descending order.
 */
module Agents {
  import opened Wrappers
  import opened Tables
  import opened Deals

  /** The threshold, in percent, from which an agent counts as high-performing. */
  const THRESHOLD := 65

  /** One row of the agent tally: the Won and Lost columns. */
  datatype Tally = Tally(won: nat, lost: nat)
  {
    /** The "Total Deals" column: at least each of its parts. */
    function Total(): (n: nat)
      ensures n >= won && n >= lost
    {
      won + lost
    }
  }

  // ---------------------------------------------------------------------------
  // Counting rows

  /** The number of rows of the agent with the given stage. */
  function CountStage(rows: seq<Row>, agent: string, stage: string): nat
  {
    if rows == [] then 0
    else
      var here := if rows[0].agent == agent && rows[0].stage == stage then 1 else 0;
      here + CountStage(rows[1..], agent, stage)
  }

  /** The number of rows of the agent, whatever their stage. */
  function CountAgent(rows: seq<Row>, agent: string): nat
  {
    if rows == [] then 0
    else (if rows[0].agent == agent then 1 else 0) + CountAgent(rows[1..], agent)
  }

  // ---------------------------------------------------------------------------
  // The tally

  /** Counts one row into the tally of its agent. */
  function Record(m: map<string, Tally>, r: Row): map<string, Tally>
  {
    var t := if r.agent in m then m[r.agent] else Tally(0, 0);
    if r.stage == WON then m[r.agent := Tally(t.won + 1, t.lost)]
    else if r.stage == LOST then m[r.agent := Tally(t.won, t.lost + 1)]
    else m
  }

  /**
   * The agent tally: one entry per agent with a closed row, holding the number of its Won
   * and of its Lost rows; a combination that never occurs counts as 0.
   */
  function AgentTally(rows: seq<Row>): (m: map<string, Tally>)
    ensures forall a :: a in m <==> CountStage(rows, a, WON) + CountStage(rows, a, LOST) > 0
    ensures forall a :: a in m ==>
      m[a] == Tally(CountStage(rows, a, WON), CountStage(rows, a, LOST))
  {
    if rows == [] then map[] else Record(AgentTally(rows[1..]), rows[0])
  }

  // ---------------------------------------------------------------------------
  // Win rate and the threshold

  /**
   * "Win Rate (%)": Won / Total Deals * 100. A tally with no deals gives no number (pandas
   * computes NaN there).
   */
  function WinRate(t: Tally): (r: Option<real>)
    ensures r.None? <==> t.Total() == 0
    ensures r.Some? ==> 0.0 <= r.value <= 100.0
  {
    var n := t.won + t.lost;
    if n == 0 then None
    else
      PercentBounds(t.won as real, n as real);
      Some((t.won as real) / (n as real) * 100.0)
  }

  /**
   * `Win Rate (%) >= 65`; a missing rate (NaN) compares false. The float comparison holds
   * exactly when there are deals and at least 65 in 100 of them are Won.
   */
  predicate IsHighPerformer(t: Tally)
    ensures IsHighPerformer(t) <==> t.Total() > 0 && 100 * t.won >= THRESHOLD * t.Total()
  {
    match WinRate(t)
    case None => false
    case Some(rate) =>
      RateMeetsThreshold(t);
      rate >= THRESHOLD as real
  }

  /** The agents kept by the threshold filter: the tallied agents with at least 65 Won in 100. */
  function HighPerformers(m: map<string, Tally>): (r: set<string>)
    ensures forall a :: a in r <==>
      a in m && m[a].Total() > 0 && 100 * m[a].won >= THRESHOLD * m[a].Total()
  {
    set a | a in m && IsHighPerformer(m[a])
  }

  /**
   * The agents with a win rate of 65% or more among the closed rows. Each has a Won row and
   * more Won than Lost rows.
   */
  function SelectedAgents(closed: seq<Row>): (r: set<string>)
    ensures forall a :: a in r ==>
      CountStage(closed, a, WON) > 0 && CountStage(closed, a, WON) > CountStage(closed, a, LOST)
  {
    HighPerformers(AgentTally(closed))
  }

  // ---------------------------------------------------------------------------
  // High-performing agents per manager

  /**
   * The manager column of the merge of the selected agents with the team table: one row per
   * (selected agent, team row of that agent). A selected agent without a team row would add a
   * null manager, which the group-by drops, so it is left out here.
   */
  function SelectedManagers(team: seq<Member>, selected: set<string>): (r: seq<Item>)
    ensures |r| <= |team|
    ensures forall i :: 0 <= i < |r| ==> r[i].key.Some? && r[i].amount == 1
  {
    if team == [] then []
    else
      var here := if team[0].agent in selected then [Item(Some(team[0].manager), 1)] else [];
      here + SelectedManagers(team[1..], selected)
  }

  /**
   * `high_performing_agents.groupby('manager').size()` sorted by that count, descending:
   * one row per manager with the number of selected agents it manages.
   */
  function HighPerformerCounts(team: seq<Member>, selected: set<string>): (r: seq<Entry>)
    ensures UniqueKeys(r)
    ensures NonIncreasing(r)
  {
    var g := GroupSum(SelectedManagers(team, selected));
    SortDescKeeps(g);
    SortDesc(g)
  }

  /** The number of team rows that give manager m a selected agent. */
  function CountSelected(team: seq<Member>, selected: set<string>, m: string): nat
  {
    if team == [] then 0
    else
      var here := if team[0].agent in selected && team[0].manager == m then 1 else 0;
      here + CountSelected(team[1..], selected, m)
  }

  /** The number of team rows whose agent is selected. */
  function CountSelectedRows(team: seq<Member>, selected: set<string>): nat
  {
    if team == [] then 0
    else (if team[0].agent in selected then 1 else 0) + CountSelectedRows(team[1..], selected)
  }

  /** The selected agents that manager m manages. */
  function AgentsOf(team: seq<Member>, selected: set<string>, m: string): set<string>
  {
    set a | a in selected && ManagerOf(team, a) == Some(m)
  }

  /** The selected agents that have a manager. */
  function ManagedAgents(team: seq<Member>, selected: set<string>): set<string>
  {
    set a | a in selected && ManagerOf(team, a).Some?
  }

  // ---------------------------------------------------------------------------
  // Lemmas: the tally

  /** On closed rows, an agent's Won and Lost counts add up to its number of rows. */
  lemma {:induction false} WonPlusLostIsRowCount(rows: seq<Row>, a: string)
    requires AllClosed(rows)
    ensures CountStage(rows, a, WON) + CountStage(rows, a, LOST) == CountAgent(rows, a)
  {
    if rows != [] {
      assert IsClosed(rows[0].stage);
      WonPlusLostIsRowCount(rows[1..], a);
    }
  }

  /**
   * On the closed rows, the tally has exactly the agents that have a row, its Total Deals
   * is the agent's number of rows, at least 1, so the win rate is always a number.
   */
  lemma TallyOfClosedRows(rows: seq<Row>)
    requires AllClosed(rows)
    ensures forall a :: a in AgentTally(rows) <==> CountAgent(rows, a) > 0
    ensures forall a :: a in AgentTally(rows) ==>
      AgentTally(rows)[a].Total() == CountAgent(rows, a) >= 1 && WinRate(AgentTally(rows)[a]).Some?
  {
    forall a {
      WonPlusLostIsRowCount(rows, a);
    }
  }

  // ---------------------------------------------------------------------------
  // Lemmas: the threshold

  /** The float comparison `Won / Total * 100 >= 65`, stated exactly over the integers. */
  lemma RateMeetsThreshold(t: Tally)
    requires t.Total() > 0
    ensures WinRate(t).Some?
    ensures WinRate(t).value >= THRESHOLD as real <==> 100 * t.won >= THRESHOLD * t.Total()
  {
    var n := t.Total() as real;
    var w := t.won as real;
    assert WinRate(t) == Some(w / n * 100.0);
    RateAtLeast(w, n, 65.0);
    assert (100 * t.won) as real == 100.0 * w;
    assert (THRESHOLD * t.Total()) as real == 65.0 * n;
  }

  /** w / n * 100 >= bound exactly when 100 * w >= bound * n, for a positive n. */
  lemma RateAtLeast(w: real, n: real, bound: real)
    requires n > 0.0
    ensures w / n * 100.0 >= bound <==> 100.0 * w >= bound * n
  {
    var rate := w / n * 100.0;
    assert (w / n) * n == w;
    ScaleByPositive(rate, bound, n);
    assert rate * n == 100.0 * ((w / n) * n);
  }

  /** A part of a positive whole is between 0 and 100 percent of it. */
  lemma PercentBounds(w: real, n: real)
    requires 0.0 <= w <= n && n > 0.0
    ensures 0.0 <= w / n * 100.0 <= 100.0
  {
    var q := w / n;
    assert q * n == w;
  }

  lemma ScaleByPositive(x: real, y: real, n: real)
    requires n > 0.0
    ensures x >= y <==> x * n >= y * n
  {
    if x >= y {
      assert x * n - y * n == (x - y) * n;
    } else {
      assert y * n - x * n == (y - x) * n;
    }
  }

  /** An agent with 3 Won and 1 Lost (75%) is selected; one with 1 Won and 3 Lost (25%) is not. */
  lemma ThresholdExamples()
    ensures WinRate(Tally(3, 1)) == Some(75.0) && IsHighPerformer(Tally(3, 1))
    ensures WinRate(Tally(1, 3)) == Some(25.0) && !IsHighPerformer(Tally(1, 3))
  {
    RateMeetsThreshold(Tally(3, 1));
    RateMeetsThreshold(Tally(1, 3));
  }

  // ---------------------------------------------------------------------------
  // Lemmas: the per-manager count

  lemma {:induction false} SelectedManagersSums(team: seq<Member>, selected: set<string>)
    ensures forall m :: SumFor(SelectedManagers(team, selected), m) == CountSelected(team, selected, m)
    ensures forall m :: m in ItemKeys(SelectedManagers(team, selected)) <==> CountSelected(team, selected, m) > 0
    ensures SumNonNull(SelectedManagers(team, selected)) == CountSelectedRows(team, selected)
  {
    if team != [] {
      SelectedManagersSums(team[1..], selected);
      var items := SelectedManagers(team, selected);
      var rest := SelectedManagers(team[1..], selected);
      if team[0].agent in selected {
        assert items == [Item(Some(team[0].manager), 1)] + rest;
        assert items[1..] == rest;
      } else {
        assert items == rest;
      }
    }
  }

  /**
   * The count table has each manager at most once, exactly the managers with a selected
   * agent, each with its number of selected agents (at least 1), counts that add up to
   * the number of selected agents with a manager, in descending order of count.
   */
  lemma HighPerformerCountsSpec(team: seq<Member>, selected: set<string>)
    ensures var r := HighPerformerCounts(team, selected);
      && UniqueKeys(r)
      && NonIncreasing(r)
      && (forall m :: Get(r, m) == CountSelected(team, selected, m))
      && (forall m :: m in KeySet(r) <==> CountSelected(team, selected, m) > 0)
      && (forall i :: 0 <= i < |r| ==> r[i].value >= 1)
      && Total(r) == CountSelectedRows(team, selected)
  {
    var g := GroupSum(SelectedManagers(team, selected));
    var r := HighPerformerCounts(team, selected);
    SelectedManagersSums(team, selected);
    SortDescKeeps(g);
    forall i | 0 <= i < |r|
      ensures r[i].value >= 1
    {
      GetAt(r, i);
      KeySetMembers(r, r[i].key);
    }
  }

  /**
   * With unique team agents the counts are counts of agents: a manager's count is the number
   * of selected agents it manages, and the counts add up to the number of selected agents
   * that have a manager.
   */
  lemma {:induction false} CountSelectedIsAgentCount(team: seq<Member>, selected: set<string>, m: string)
    requires UniqueAgents(team)
    ensures CountSelected(team, selected, m) == |AgentsOf(team, selected, m)|
  {
    if team == [] {
      assert AgentsOf(team, selected, m) == {};
    } else {
      CountSelectedIsAgentCount(team[1..], selected, m);
      AgentsOfHead(team, selected, m);
    }
  }

  /** The selected agents of m are those of the later rows plus, maybe, the head row's agent. */
  lemma AgentsOfHead(team: seq<Member>, selected: set<string>, m: string)
    requires UniqueAgents(team) && team != []
    ensures var t0 := team[0];
      var here: set<string> := if t0.agent in selected && t0.manager == m then {t0.agent} else {};
      AgentsOf(team, selected, m) == here + AgentsOf(team[1..], selected, m) &&
      t0.agent !in AgentsOf(team[1..], selected, m)
  {
    LookupAfterHead(team);
  }

  /** With unique team agents, the counts add up to the number of selected agents with a manager. */
  lemma {:induction false} CountSelectedRowsIsAgentCount(team: seq<Member>, selected: set<string>)
    requires UniqueAgents(team)
    ensures CountSelectedRows(team, selected) == |ManagedAgents(team, selected)|
  {
    if team == [] {
      assert ManagedAgents(team, selected) == {};
    } else {
      CountSelectedRowsIsAgentCount(team[1..], selected);
      ManagedAgentsHead(team, selected);
    }
  }

  /** The selected agents with a manager are those of the later rows plus, maybe, the head row's. */
  lemma ManagedAgentsHead(team: seq<Member>, selected: set<string>)
    requires UniqueAgents(team) && team != []
    ensures var t0 := team[0];
      var here: set<string> := if t0.agent in selected then {t0.agent} else {};
      ManagedAgents(team, selected) == here + ManagedAgents(team[1..], selected) &&
      t0.agent !in ManagedAgents(team[1..], selected)
  {
    LookupAfterHead(team);
  }

  /** With unique team agents, the head row is the only one of its agent. */
  lemma LookupAfterHead(team: seq<Member>)
    requires UniqueAgents(team) && team != []
    ensures ManagerOf(team, team[0].agent) == Some(team[0].manager)
    ensures ManagerOf(team[1..], team[0].agent) == None
    ensures forall a :: a != team[0].agent ==> ManagerOf(team, a) == ManagerOf(team[1..], a)
  {
  }

  /**
   * On the closed rows, an agent is selected exactly when it has a row and at least 65 in
   * 100 of its rows are Won.
   */
  lemma SelectedAgentsExact(closed: seq<Row>)
    requires AllClosed(closed)
    ensures forall a :: a in SelectedAgents(closed) <==>
      CountAgent(closed, a) > 0 && 100 * CountStage(closed, a, WON) >= THRESHOLD * CountAgent(closed, a)
  {
    var m := AgentTally(closed);
    TallyOfClosedRows(closed);
    forall a {
      WonPlusLostIsRowCount(closed, a);
    }
  }
}
