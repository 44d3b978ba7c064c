/**
 * Team performance: the total close value of the Won deals per manager, sorted in
 * descending order, and the colour that marks the three best-ranked managers.
 */
module Teams {
  import opened Wrappers
  import opened Tables
  import opened Deals

  /** The colours of the bar chart, used as literal colour names. */
  const GREEN := "green"
  const BLUE := "blue"

  /** How many best-ranked rows get the distinguished colour. */
  const TOP := 3

  /** A row of the team table after the colour column is added. */
  datatype Bar = Bar(manager: string, value: int, colour: string)

  /** The manager and close value of each row, as the input of the group-by. */
  function ValueItems(rows: seq<Row>): (items: seq<Item>)
    ensures |items| == |rows|
    ensures forall i :: 0 <= i < |rows| ==> items[i].key == rows[i].manager && items[i].amount == rows[i].closeValue
  {
    if rows == [] then [] else [Item(rows[0].manager, rows[0].closeValue)] + ValueItems(rows[1..])
  }

  /**
   * `filtered_deals[deal_stage == 'Won'].groupby('manager')['close_value'].sum()` sorted
   * by the sum, descending.
   */
  function TeamSales(closed: seq<Row>): (r: seq<Entry>)
    ensures UniqueKeys(r)
    ensures NonIncreasing(r)
  {
    var g := GroupSum(ValueItems(WonDeals(closed)));
    SortDescKeeps(g);
    SortDesc(g)
  }

  /** The colour of the row at a position of the sorted table. */
  function ColourAt(i: nat): string
  {
    if i < TOP then GREEN else BLUE
  }

  /** `['green' if x < 3 else 'blue' for x in range(len(team_performance))]` as a new column. */
  function ColourByRank(t: seq<Entry>): (r: seq<Bar>)
    ensures |r| == |t|
    ensures forall i :: 0 <= i < |r| ==> r[i].colour == ColourAt(i)
  {
    seq(|t|, i requires 0 <= i < |t| => Bar(t[i].key, t[i].value, ColourAt(i)))
  }

  /** Drops the colour column again. */
  function WithoutColour(r: seq<Bar>): seq<Entry>
  {
    seq(|r|, i requires 0 <= i < |r| => Entry(r[i].manager, r[i].value))
  }

  // ---------------------------------------------------------------------------
  // What the table must hold, stated on the merged rows

  /** The total close value of the Won rows of manager m. */
  function WonValue(rows: seq<Row>, m: string): int
  {
    if rows == [] then 0
    else
      var here := if rows[0].stage == WON && rows[0].manager == Some(m) then rows[0].closeValue else 0;
      here + WonValue(rows[1..], m)
  }

  /** The number of Won rows of manager m. */
  function WonCount(rows: seq<Row>, m: string): nat
  {
    if rows == [] then 0
    else (if rows[0].stage == WON && rows[0].manager == Some(m) then 1 else 0) + WonCount(rows[1..], m)
  }

  /** The total close value of the Won rows that have a manager. */
  function ManagedWonValue(rows: seq<Row>): int
  {
    if rows == [] then 0
    else
      var here := if rows[0].stage == WON && rows[0].manager.Some? then rows[0].closeValue else 0;
      here + ManagedWonValue(rows[1..])
  }

  /** The number of rows whose colour is green. */
  function GreenCount(r: seq<Bar>): nat
  {
    if r == [] then 0 else (if r[0].colour == GREEN then 1 else 0) + GreenCount(r[1..])
  }

  // ---------------------------------------------------------------------------
  // Lemmas: the sales table

  /** The group-by input of the rows, unfolded by one row. */
  lemma WonItemsStep(rows: seq<Row>)
    requires rows != []
    ensures ValueItems(WonDeals(rows)) ==
      (if rows[0].stage == WON then [Item(rows[0].manager, rows[0].closeValue)] else [])
      + ValueItems(WonDeals(rows[1..]))
  {
    var tail := WonDeals(rows[1..]);
    if rows[0].stage == WON {
      var won := [rows[0]] + tail;
      assert WonDeals(rows) == won;
      assert won[1..] == tail;
    } else {
      assert WonDeals(rows) == tail;
    }
  }

  lemma {:induction false} WonItemsSum(rows: seq<Row>, m: string)
    ensures SumFor(ValueItems(WonDeals(rows)), m) == WonValue(rows, m)
  {
    if rows != [] {
      WonItemsStep(rows);
      WonItemsSum(rows[1..], m);
      var items := ValueItems(WonDeals(rows));
      if rows[0].stage == WON {
        assert items[0] == Item(rows[0].manager, rows[0].closeValue);
        assert items[1..] == ValueItems(WonDeals(rows[1..]));
      } else {
        assert items == ValueItems(WonDeals(rows[1..]));
      }
    }
  }

  lemma {:induction false} WonItemsKeys(rows: seq<Row>, m: string)
    ensures m in ItemKeys(ValueItems(WonDeals(rows))) <==> WonCount(rows, m) > 0
  {
    if rows != [] {
      WonItemsStep(rows);
      WonItemsKeys(rows[1..], m);
      var items := ValueItems(WonDeals(rows));
      if rows[0].stage == WON {
        assert items[0] == Item(rows[0].manager, rows[0].closeValue);
        assert items[1..] == ValueItems(WonDeals(rows[1..]));
      } else {
        assert items == ValueItems(WonDeals(rows[1..]));
      }
    }
  }

  lemma {:induction false} WonItemsTotal(rows: seq<Row>)
    ensures SumNonNull(ValueItems(WonDeals(rows))) == ManagedWonValue(rows)
  {
    if rows != [] {
      WonItemsStep(rows);
      WonItemsTotal(rows[1..]);
      var items := ValueItems(WonDeals(rows));
      if rows[0].stage == WON {
        assert items[0] == Item(rows[0].manager, rows[0].closeValue);
        assert items[1..] == ValueItems(WonDeals(rows[1..]));
      } else {
        assert items == ValueItems(WonDeals(rows[1..]));
      }
    }
  }

  /**
   * The team table has each manager at most once, exactly the managers with a Won row, each
   * with the total close value of its Won rows (Lost rows add nothing), in descending order,
   * and its values add up to the close value of all Won rows that have a manager.
   */
  lemma TeamSalesSpec(closed: seq<Row>)
    ensures var r := TeamSales(closed);
      && UniqueKeys(r)
      && NonIncreasing(r)
      && (forall m :: Get(r, m) == WonValue(closed, m))
      && (forall m :: m in KeySet(r) <==> WonCount(closed, m) > 0)
      && (forall i :: 0 <= i < |r| ==> r[i].value == WonValue(closed, r[i].key))
      && Total(r) == ManagedWonValue(closed)
  {
    var items := ValueItems(WonDeals(closed));
    var g := GroupSum(items);
    var r := TeamSales(closed);
    assert r == SortDesc(g);
    SortDescKeeps(g);
    assert forall m :: Get(r, m) == WonValue(closed, m) by {
      forall m
        ensures Get(r, m) == WonValue(closed, m)
      {
        WonItemsSum(closed, m);
      }
    }
    assert forall m :: m in KeySet(r) <==> WonCount(closed, m) > 0 by {
      forall m
        ensures m in KeySet(r) <==> WonCount(closed, m) > 0
      {
        WonItemsKeys(closed, m);
      }
    }
    WonItemsTotal(closed);
    forall i | 0 <= i < |r|
      ensures r[i].value == WonValue(closed, r[i].key)
    {
      GetAt(r, i);
    }
  }

  /** A row that is not Won (a Lost row, say) changes nothing in the team table. */
  lemma NonWonRowAddsNothing(rows: seq<Row>, x: Row)
    requires x.stage != WON
    ensures TeamSales(rows + [x]) == TeamSales(rows)
  {
    FilterStageAppend(rows, [x], {WON});
    assert FilterStage([x], {WON}) == [];
    assert WonDeals(rows + [x]) == WonDeals(rows);
  }

  /** The team table is the same whether it is built from the closed rows or from all rows. */
  lemma TeamSalesIgnoresOpenDeals(rows: seq<Row>)
    ensures TeamSales(ClosedDeals(rows)) == TeamSales(rows)
  {
    WonDealsOfClosed(rows);
  }

  // ---------------------------------------------------------------------------
  // Lemmas: the colour column

  /** Adding the colour column changes neither the order, the managers nor the values. */
  lemma ColourKeepsTable(t: seq<Entry>)
    ensures WithoutColour(ColourByRank(t)) == t
  {
    var r := ColourByRank(t);
    assert forall i :: 0 <= i < |t| ==> r[i] == Bar(t[i].key, t[i].value, ColourAt(i));
  }

  /** Rows at positions off, off + 1, ... are green for positions below 3. */
  lemma {:induction false} GreenCountFrom(r: seq<Bar>, off: nat)
    requires forall i :: 0 <= i < |r| ==> r[i].colour == ColourAt(i + off)
    ensures GreenCount(r) == if off >= TOP then 0 else if |r| < TOP - off then |r| else TOP - off
  {
    if r != [] {
      assert forall i :: 0 <= i < |r[1..]| ==> r[1..][i].colour == ColourAt(i + (off + 1)) by {
        forall i | 0 <= i < |r[1..]|
          ensures r[1..][i].colour == ColourAt(i + (off + 1))
        {
          assert r[1..][i] == r[i + 1];
        }
      }
      GreenCountFrom(r[1..], off + 1);
      assert r[0].colour == ColourAt(off);
    }
  }

  /** Exactly min(3, n) rows are green: the first three, or all rows when there are fewer. */
  lemma GreenCountIsTop(t: seq<Entry>)
    ensures GreenCount(ColourByRank(t)) == if |t| < TOP then |t| else TOP
  {
    var r := ColourByRank(t);
    assert forall i :: 0 <= i < |r| ==> r[i].colour == ColourAt(i + 0);
    GreenCountFrom(r, 0);
  }

  /** On a sorted table every green row has at least the value of every blue row. */
  lemma GreenOutranksBlue(t: seq<Entry>)
    requires NonIncreasing(t)
    ensures var r := ColourByRank(t);
      forall i, j :: 0 <= i < |r| && 0 <= j < |r| && r[i].colour == GREEN && r[j].colour == BLUE ==>
        r[i].value >= r[j].value
  {
    var r := ColourByRank(t);
    forall i, j | 0 <= i < |r| && 0 <= j < |r| && r[i].colour == GREEN && r[j].colour == BLUE
      ensures r[i].value >= r[j].value
    {
      assert i < TOP <= j;
      assert r[i].value == t[i].value && r[j].value == t[j].value;
    }
  }
}
