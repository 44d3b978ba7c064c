/**
 * The whole aggregation of the dashboard script: join, closed-deal filter, the agent
 * tally with its threshold and the per-manager count, and the team sales table with its
 * colour column. Loading the CSV files and drawing the charts are outside the model.
 */
module Dashboard {
  import opened Wrappers
  import opened Tables
  import opened Deals
  import opened Agents
  import opened Teams

  /** What stops the script: pandas' KeyError when a pivot column is missing. */
  datatype ScriptError = MissingColumn(name: string)

  /** The two tables the charts show, in the order they are drawn. */
  datatype Report = Report(teamSales: seq<Bar>, highPerformerCounts: seq<Entry>)

  /**
   * The pipeline from the two input tables to the two chart tables. The tally has a Won
   * and a Lost column only if some closed row has that stage; reading the missing column
   * stops the script, the Won column being read first.
   */
  function Build(deals: seq<Deal>, team: seq<Member>): (r: Result<Report, ScriptError>)
    ensures r == Failure(MissingColumn(WON)) <==> !SomeDealHasStage(deals, WON)
    ensures r == Failure(MissingColumn(LOST)) <==>
      SomeDealHasStage(deals, WON) && !SomeDealHasStage(deals, LOST)
    ensures r.Success? <==> SomeDealHasStage(deals, WON) && SomeDealHasStage(deals, LOST)
  {
    var merged := LeftJoin(deals, team);
    var closed := ClosedDeals(merged);
    LeftJoinHasStage(deals, team, WON);
    LeftJoinHasStage(deals, team, LOST);
    FilterKeepsStage(merged, {WON, LOST}, WON);
    FilterKeepsStage(merged, {WON, LOST}, LOST);
    if !HasStage(closed, WON) then Failure(MissingColumn(WON))
    else if !HasStage(closed, LOST) then Failure(MissingColumn(LOST))
    else
      Success(Report(ColourByRank(TeamSales(closed)), HighPerformerCounts(team, SelectedAgents(closed))))
  }

  /**
   * When the script runs through, the team table is the sorted per-manager sum of the Won
   * rows of the merged table, coloured by rank, and the count table counts per manager the
   * agents that have closed deals and win at least 65 in 100 of them.
   */
  lemma BuildSpec(deals: seq<Deal>, team: seq<Member>)
    requires SomeDealHasStage(deals, WON) && SomeDealHasStage(deals, LOST)
    ensures Build(deals, team).Success?
    ensures var merged := LeftJoin(deals, team);
      var closed := ClosedDeals(merged);
      var report := Build(deals, team).value;
      && WithoutColour(report.teamSales) == TeamSales(merged)
      && GreenCount(report.teamSales) == (if |report.teamSales| < TOP then |report.teamSales| else TOP)
      && report.highPerformerCounts == HighPerformerCounts(team, SelectedAgents(closed))
      && (forall a :: a in SelectedAgents(closed) <==>
           CountAgent(closed, a) > 0 &&
           100 * CountStage(closed, a, WON) >= THRESHOLD * CountAgent(closed, a))
  {
    var merged := LeftJoin(deals, team);
    var closed := ClosedDeals(merged);
    var sales := TeamSales(closed);
    ColourKeepsTable(sales);
    TeamSalesIgnoresOpenDeals(merged);
    GreenCountIsTop(sales);
    SelectedAgentsExact(closed);
  }

  /** Closed rows of two agents: "A" with 3 Won and 1 Lost deals, "B" with 1 Won and 3 Lost. */
  function ExampleRows(): seq<Row>
  {
    [ Row("A", "Won", 10, Some("Ann")), Row("A", "Won", 20, Some("Ann")),
      Row("A", "Won", 30, Some("Ann")), Row("A", "Lost", 0, Some("Ann")),
      Row("B", "Won", 5, Some("Bob")), Row("B", "Lost", 0, Some("Bob")),
      Row("B", "Lost", 0, Some("Bob")), Row("B", "Lost", 0, Some("Bob")) ]
  }

  /**
   * On the example rows "A" wins 75% and "B" 25% of their deals: only A is selected, and the
   * count table holds A's manager alone, with one agent.
   */
  lemma ExampleSelection()
    ensures SelectedAgents(ExampleRows()) == {"A"}
    ensures HighPerformerCounts([Member("A", "Ann"), Member("B", "Bob")], SelectedAgents(ExampleRows()))
      == [Entry("Ann", 1)]
  {
    ExampleSelected();
    var team := [Member("A", "Ann"), Member("B", "Bob")];
    assert team[1..] == [Member("B", "Bob")];
    assert SelectedManagers(team, {"A"}) == [Item(Some("Ann"), 1)];
  }

  lemma ExampleSelected()
    ensures SelectedAgents(ExampleRows()) == {"A"}
  {
    var rows := ExampleRows();
    assert AllClosed(rows);
    SelectedAgentsExact(rows);
    forall a
      ensures a in SelectedAgents(rows) <==> a == "A"
    {
      ExampleCounts(a);
    }
  }

  /** The per-agent counts of the example rows, counted from the last row back to the first. */
  lemma ExampleCounts(a: string)
    ensures CountAgent(ExampleRows(), a) == if a == "A" || a == "B" then 4 else 0
    ensures CountStage(ExampleRows(), a, WON) == if a == "A" then 3 else if a == "B" then 1 else 0
  {
    var rows := ExampleRows();
    assert CountAgent(rows[8..], a) == 0 && CountStage(rows[8..], a, WON) == 0;
    assert rows[7..][0] == Row("B", "Lost", 0, Some("Bob")) && rows[7..][1..] == rows[8..];
    assert CountAgent(rows[7..], a) == (if a == "B" then 1 else 0) && CountStage(rows[7..], a, WON) == 0;
    assert rows[6..][0] == Row("B", "Lost", 0, Some("Bob")) && rows[6..][1..] == rows[7..];
    assert CountAgent(rows[6..], a) == (if a == "B" then 2 else 0) && CountStage(rows[6..], a, WON) == 0;
    assert rows[5..][0] == Row("B", "Lost", 0, Some("Bob")) && rows[5..][1..] == rows[6..];
    assert CountAgent(rows[5..], a) == (if a == "B" then 3 else 0) && CountStage(rows[5..], a, WON) == 0;
    assert rows[4..][0] == Row("B", "Won", 5, Some("Bob")) && rows[4..][1..] == rows[5..];
    assert CountAgent(rows[4..], a) == (if a == "B" then 4 else 0) && CountStage(rows[4..], a, WON) == (if a == "B" then 1 else 0);
    assert rows[3..][0] == Row("A", "Lost", 0, Some("Ann")) && rows[3..][1..] == rows[4..];
    assert CountAgent(rows[3..], a) == (if a == "A" then 1 else if a == "B" then 4 else 0) && CountStage(rows[3..], a, WON) == (if a == "B" then 1 else 0);
    assert rows[2..][0] == Row("A", "Won", 30, Some("Ann")) && rows[2..][1..] == rows[3..];
    assert CountAgent(rows[2..], a) == (if a == "A" then 2 else if a == "B" then 4 else 0) && CountStage(rows[2..], a, WON) == (if a == "A" || a == "B" then 1 else 0);
    assert rows[1..][0] == Row("A", "Won", 20, Some("Ann")) && rows[1..][1..] == rows[2..];
    assert CountAgent(rows[1..], a) == (if a == "A" then 3 else if a == "B" then 4 else 0) && CountStage(rows[1..], a, WON) == (if a == "A" then 2 else if a == "B" then 1 else 0);
    assert rows[0..][0] == Row("A", "Won", 10, Some("Ann")) && rows[0..][1..] == rows[1..];
    assert CountAgent(rows[0..], a) == (if a == "A" || a == "B" then 4 else 0) && CountStage(rows[0..], a, WON) == (if a == "A" then 3 else if a == "B" then 1 else 0);
    assert rows[0..] == rows;
  }
}
