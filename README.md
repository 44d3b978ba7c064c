# CRM sales dashboard: the aggregation pipeline

This project models, in Dafny, the data pipeline of a Streamlit sales dashboard script. The
script loads CRM tables, then runs a short chain of pandas steps. The model covers that chain:

1. Left-join the sales pipeline (`sales_agent`, `deal_stage`, `close_value`) to the sales teams
   (`sales_agent`, `manager`). An agent with no team row gets a null manager (`None`).
2. Keep the closed deals: rows whose stage is exactly `"Won"` or `"Lost"`.
3. Tally each agent's Won and Lost rows. Derive `Total Deals` and `Win Rate (%)`.
4. Select the agents whose win rate is at least 65%.
5. Count the selected agents per manager, sorted by count, descending.
6. Sum the close value of the Won rows per manager, sorted by sum, descending.
7. Colour the first three rows of that sorted table `green` and every other row `blue`.

Every step is a pure function over sequences of records:

- `wrappers.dfy`: `Option` (a null cell) and `Result` (a run that stops with an error).
- `tables.dfy` (module `Tables`): grouped tables as lists of (key, value) rows with distinct keys.
  Holds the group-by sum and the descending sort.
- `deals.dfy` (module `Deals`): the input records, the left join and the stage filters.
- `agents.dfy` (module `Agents`): the agent tally, the win rate, the 65% threshold and the
  per-manager count of high-performing agents.
- `teams.dfy` (module `Teams`): the per-manager Won sales table and its colour column.
- `dashboard.dfy` (module `Dashboard`): the whole pipeline. It returns either the two chart
  tables or the error the script stops with.

Modelling choices:

- Stages and names are strings. `close_value` is an unbounded `int`.
- The win rate is an exact `real`, or `None` where pandas would produce NaN (zero deals). The
  `>= 65` test is proved equal to the integer test `100 * Won >= 65 * Total`.
- A group-by result is a list of rows with unique keys. Null keys are dropped, as pandas does
  by default.
- `sort_values(ascending=False)` is specified only as "a permutation that is non-increasing by
  value".
- The pivot at line 23 has a `Won` column only if some closed row is Won, and a `Lost` column
  only if some closed row is Lost. Reading a missing column at line 24 raises pandas' `KeyError`.
  `Dashboard.Build` returns that error as `Failure(MissingColumn(...))`. The `Won` column is
  read first.

Consequences of the code that the contracts make explicit:

- `sort_values` uses pandas' default quicksort, which is not stable, so no order among tied rows
  is promised.
- Equal totals can occur, so the sorted tables are non-increasing, not strictly decreasing.
- The win-rate division at line 25 never sees zero deals: an agent is in the tally only if it
  has a closed row (`Agents.TallyOfClosedRows`).

## Model

| member | source | states |
|---|---|---|
| `Deals.ManagerOf` | 2024-05-chatting-with-data-for-non-coders/2024-05-chatgpt-streamlit.py:17 | an agent gets a manager from the team table exactly when it has a team row |
| `Deals.Matches` | 2024-05-chatting-with-data-for-non-coders/2024-05-chatgpt-streamlit.py:17 | the merged rows of a deal: at most |team| of them, each the deal itself with a non-null manager taken from a team row of the deal's agent |
| `Deals.JoinDeal` | 2024-05-chatting-with-data-for-non-coders/2024-05-chatgpt-streamlit.py:17 | a deal yields at least one merged row; every row is the deal with some manager; a row with a null manager is the deal's only row |
| `Deals.MatchesComplete` | 2024-05-chatting-with-data-for-non-coders/2024-05-chatgpt-streamlit.py:17 | every team row of the deal's agent yields a merged row carrying that row's manager, whether or not team agents are unique |
| `Deals.MatchesCount` | 2024-05-chatting-with-data-for-non-coders/2024-05-chatgpt-streamlit.py:17 | a deal has exactly one match per team row listing its agent |
| `Deals.JoinDealNull` | 2024-05-chatting-with-data-for-non-coders/2024-05-chatgpt-streamlit.py:17 | a deal gets a null-manager row exactly when its agent has no team row, whether or not team agents are unique |
| `Deals.LeftJoin` | 2024-05-chatting-with-data-for-non-coders/2024-05-chatgpt-streamlit.py:17 | the left join never drops a pipeline row: it has at least as many rows as the pipeline |
| `Deals.UnmatchedDealGetsNull` | 2024-05-chatting-with-data-for-non-coders/2024-05-chatgpt-streamlit.py:17 | a deal whose agent has no team row yields exactly one row, with a null manager |
| `Deals.JoinDealUnique` | 2024-05-chatting-with-data-for-non-coders/2024-05-chatgpt-streamlit.py:17 | with unique team agents, a deal yields exactly one row, carrying its agent's manager |
| `Deals.LeftJoinUnique` | 2024-05-chatting-with-data-for-non-coders/2024-05-chatgpt-streamlit.py:17 | with unique team agents, the join keeps every deal once, in order, with its agent's manager or a null one |
| `Deals.LeftJoinAppend` | 2024-05-chatting-with-data-for-non-coders/2024-05-chatgpt-streamlit.py:17 | the join works deal by deal: joining two blocks of deals concatenates their joins, so order is kept |
| `Deals.LeftJoinHasStage` | 2024-05-chatting-with-data-for-non-coders/2024-05-chatgpt-streamlit.py:17 | a stage occurs in the merged table exactly when some pipeline deal has it |
| `Deals.FilterStage` | 2024-05-chatting-with-data-for-non-coders/2024-05-chatgpt-streamlit.py:20 | the `isin` filter returns no more rows than it is given, and every row it returns has a kept stage |
| `Deals.ClosedDeals` | 2024-05-chatting-with-data-for-non-coders/2024-05-chatgpt-streamlit.py:20 | the closed-deal filter returns no more rows than the merged table, and every row it returns is Won or Lost, so Engaging rows never reach an aggregation |
| `Deals.WonDeals` | 2024-05-chatting-with-data-for-non-coders/2024-05-chatgpt-streamlit.py:40 | the `== 'Won'` selection returns no more rows than it is given, and every row it returns is Won |
| `Deals.FilterStageCounts` | 2024-05-chatting-with-data-for-non-coders/2024-05-chatgpt-streamlit.py:20 | the `isin` filter keeps every row with a kept stage as often as it occurs, and no other row |
| `Deals.FilterStageAppend` | 2024-05-chatting-with-data-for-non-coders/2024-05-chatgpt-streamlit.py:20 | the filter works row by row, so the kept rows stay in their original order |
| `Deals.FilterStageIdempotent` | 2024-05-chatting-with-data-for-non-coders/2024-05-chatgpt-streamlit.py:20 | filtering twice gives the same rows as filtering once |
| `Deals.FilterKeepsStage` | 2024-05-chatting-with-data-for-non-coders/2024-05-chatgpt-streamlit.py:20 | a kept stage occurs after the filter exactly when it occurs before it |
| `Deals.WonDealsOfClosed` | 2024-05-chatting-with-data-for-non-coders/2024-05-chatgpt-streamlit.py:40 | the Won rows of the closed rows are exactly the Won rows of the merged table |
| `Agents.AgentTally` | 2024-05-chatting-with-data-for-non-coders/2024-05-chatgpt-streamlit.py:23 | the tally has exactly the agents with a closed row; its Won and Lost cells count that agent's Won and Lost rows, and a combination that never occurs is 0 |
| `Agents.Tally.Total` | 2024-05-chatting-with-data-for-non-coders/2024-05-chatgpt-streamlit.py:24 | Total Deals is at least the Won count and at least the Lost count |
| `Agents.WonPlusLostIsRowCount` | 2024-05-chatting-with-data-for-non-coders/2024-05-chatgpt-streamlit.py:23-24 | on closed rows, Won + Lost is the agent's number of rows |
| `Agents.TallyOfClosedRows` | 2024-05-chatting-with-data-for-non-coders/2024-05-chatgpt-streamlit.py:23-25 | on the filtered rows, Total Deals is the agent's number of filtered rows and is at least 1, so the win rate never divides by zero |
| `Agents.WinRate` | 2024-05-chatting-with-data-for-non-coders/2024-05-chatgpt-streamlit.py:25 | the win rate is missing (NaN) exactly when there are no deals, and otherwise lies in [0, 100] |
| `Agents.RateMeetsThreshold` | 2024-05-chatting-with-data-for-non-coders/2024-05-chatgpt-streamlit.py:25-28 | with deals, the win rate is a number, and `Won / Total * 100 >= 65` holds exactly when `100 * Won >= 65 * Total` |
| `Agents.IsHighPerformer` | 2024-05-chatting-with-data-for-non-coders/2024-05-chatgpt-streamlit.py:25-28 | `Win Rate (%) >= 65` holds exactly when there are deals and `100 * Won >= 65 * Total`; a NaN rate (no deals) is never selected |
| `Agents.ThresholdExamples` | 2024-05-chatting-with-data-for-non-coders/2024-05-chatgpt-streamlit.py:25-28 | 3 Won and 1 Lost gives 75% and is selected; 1 Won and 3 Lost gives 25% and is not |
| `Agents.HighPerformers` | 2024-05-chatting-with-data-for-non-coders/2024-05-chatgpt-streamlit.py:28 | the threshold mask keeps exactly the tallied agents with deals and `100 * Won >= 65 * Total` |
| `Agents.SelectedAgents` | 2024-05-chatting-with-data-for-non-coders/2024-05-chatgpt-streamlit.py:23-28 | every selected agent has a Won row and more Won than Lost rows |
| `Agents.SelectedAgentsExact` | 2024-05-chatting-with-data-for-non-coders/2024-05-chatgpt-streamlit.py:23-28 | on the filtered rows, an agent is selected exactly when it has rows and at least 65 in 100 of them are Won |
| `Agents.SelectedManagers` | 2024-05-chatting-with-data-for-non-coders/2024-05-chatgpt-streamlit.py:31 | the merge of the selected agents with the team gives at most one manager row per team row, each naming a manager and counting once |
| `Agents.SelectedManagersSums` | 2024-05-chatting-with-data-for-non-coders/2024-05-chatgpt-streamlit.py:31-34 | the merge of selected agents with the team gives each manager one row per team row of a selected agent it manages |
| `Agents.HighPerformerCounts` | 2024-05-chatting-with-data-for-non-coders/2024-05-chatgpt-streamlit.py:31-37 | the count table lists each manager at most once and is non-increasing by count |
| `Agents.HighPerformerCountsSpec` | 2024-05-chatting-with-data-for-non-coders/2024-05-chatgpt-streamlit.py:31-37 | the count table lists each manager once, exactly the managers with a selected agent; each count is that number (at least 1); the counts sum to the number of selected team rows; rows are non-increasing by count |
| `Agents.CountSelectedIsAgentCount` | 2024-05-chatting-with-data-for-non-coders/2024-05-chatgpt-streamlit.py:31-34 | with unique team agents, a manager's count is the number of selected agents it manages |
| `Agents.CountSelectedRowsIsAgentCount` | 2024-05-chatting-with-data-for-non-coders/2024-05-chatgpt-streamlit.py:31-34 | with unique team agents, the counts sum to the number of selected agents with a non-null manager |
| `Tables.Accumulate` | 2024-05-chatting-with-data-for-non-coders/2024-05-chatgpt-streamlit.py:40 | adding an amount under a key keeps keys unique, adds the key, changes only that key's value, and adds the amount to the total |
| `Tables.GroupSum` | 2024-05-chatting-with-data-for-non-coders/2024-05-chatgpt-streamlit.py:34 | the group-by has unique keys, exactly the non-null keys of its input, each key's sum of amounts, and a total equal to the sum over non-null keys |
| `Tables.UniqueKeysAt` | 2024-05-chatting-with-data-for-non-coders/2024-05-chatgpt-streamlit.py:34 | in a table with unique keys, no two rows share a key |
| `Tables.GetAt` | 2024-05-chatting-with-data-for-non-coders/2024-05-chatgpt-streamlit.py:40 | in a table with unique keys, each row holds the value looked up for its key |
| `Tables.InsertDesc` | 2024-05-chatting-with-data-for-non-coders/2024-05-chatgpt-streamlit.py:37 | inserting a row into a non-increasing table keeps it non-increasing and adds exactly that row |
| `Tables.SortDesc` | 2024-05-chatting-with-data-for-non-coders/2024-05-chatgpt-streamlit.py:41 | the descending sort returns a permutation of its rows that is non-increasing by value |
| `Tables.SortDescKeeps` | 2024-05-chatting-with-data-for-non-coders/2024-05-chatgpt-streamlit.py:37 | sorting keeps the keys, the total, the uniqueness of keys and the value under every key |
| `Teams.ValueItems` | 2024-05-chatting-with-data-for-non-coders/2024-05-chatgpt-streamlit.py:40 | the group-by input has one item per row, holding that row's manager and close value |
| `Teams.TeamSales` | 2024-05-chatting-with-data-for-non-coders/2024-05-chatgpt-streamlit.py:40-41 | the sales table lists each manager at most once and is non-increasing by Won sales |
| `Teams.WonItemsSum` | 2024-05-chatting-with-data-for-non-coders/2024-05-chatgpt-streamlit.py:40 | the amounts grouped under a manager add up to the close value of that manager's Won rows |
| `Teams.TeamSalesSpec` | 2024-05-chatting-with-data-for-non-coders/2024-05-chatgpt-streamlit.py:40-41 | the sales table lists each manager once, exactly those with a Won row; each value is the sum of its Won rows' close value; values sum to the close value of all Won rows with a manager; rows are non-increasing by value |
| `Teams.NonWonRowAddsNothing` | 2024-05-chatting-with-data-for-non-coders/2024-05-chatgpt-streamlit.py:40 | adding a row that is not Won (a Lost row, say) leaves the sales table unchanged |
| `Teams.TeamSalesIgnoresOpenDeals` | 2024-05-chatting-with-data-for-non-coders/2024-05-chatgpt-streamlit.py:40 | the sales table is the same whether built from the closed rows or from every merged row |
| `Teams.ColourByRank` | 2024-05-chatting-with-data-for-non-coders/2024-05-chatgpt-streamlit.py:43 | the colour column has one entry per row; the row at position i is green exactly when i < 3, blue otherwise |
| `Teams.ColourKeepsTable` | 2024-05-chatting-with-data-for-non-coders/2024-05-chatgpt-streamlit.py:43 | dropping the colour column gives back the sorted table: managers, values and order are unchanged |
| `Teams.GreenCountIsTop` | 2024-05-chatting-with-data-for-non-coders/2024-05-chatgpt-streamlit.py:43 | exactly min(3, n) rows are green |
| `Teams.GreenOutranksBlue` | 2024-05-chatting-with-data-for-non-coders/2024-05-chatgpt-streamlit.py:41-43 | on the sorted table, every green row has at least the value of every blue row |
| `Dashboard.Build` | 2024-05-chatting-with-data-for-non-coders/2024-05-chatgpt-streamlit.py:17-43 | the script stops with KeyError 'Won' exactly when no deal is Won, and with KeyError 'Lost' exactly when some deal is Won but none is Lost; otherwise it yields both tables |
| `Dashboard.BuildSpec` | 2024-05-chatting-with-data-for-non-coders/2024-05-chatgpt-streamlit.py:17-43 | when the script completes, the sales chart table is the per-manager Won sum of the merged rows with min(3, n) green rows, and the count table counts exactly the agents with at least 65 Won rows in 100 |
| `Dashboard.ExampleSelection` | 2024-05-chatting-with-data-for-non-coders/2024-05-chatgpt-streamlit.py:23-37 | agent A (3 Won, 1 Lost) is selected and agent B (1 Won, 3 Lost) is not, so only A's manager appears in the count table, with count 1 |

## Left out

- Loading the five CSV files (lines 10-14) is file I/O. The tables arrive as parameters of
  `Dashboard.Build`. The three tables the pipeline never reads (`data_dictionary`, `accounts`,
  `products`) are not modelled.
- Building the Plotly charts (lines 46-59) and rendering the Streamlit page (lines 62-65) are
  out of scope: they are a foreign rendering library and UI. `Dashboard.Report` holds the two
  tables the charts are drawn from.
- Floating point is not modelled. The win rate is an exact real, so the rounding of
  `Won / Total * 100` is not captured. Sums of `close_value` are exact integers.
- `Tables.SortDesc`: pandas' quicksort may order tied rows differently. The model fixes one
  order, and no contract depends on which tied row comes first.
- pandas `groupby` emits its groups in key order. `Tables.GroupSum` emits them in reverse order
  of each key's last appearance. The descending sort erases this difference, except among ties.
- Columns the pipeline never reads are dropped from the records: the team's regional office and
  the deal's account, product and dates.
- NaN in the input cells is not modelled: a NaN agent, a NaN stage or a NaN close value. A null
  manager produced by the join is modelled as `None`.
- `Agents.HighPerformerCounts`: the merge at line 31 is modelled as a pass over the team rows
  whose agent is selected. It gives one row per (selected agent, team row of that agent), and a
  selected agent with no team row gives a null manager that the group-by drops. The lemmas state
  this count per manager. They turn it into a count of agents only where team agents are unique.
- `Deals.LeftJoin`: a team table that lists an agent twice gives one merged row per listing,
  as in pandas (`Deals.MatchesCount`, `Deals.MatchesComplete`, `Deals.JoinDealNull` hold for any
  team table). The exact position-by-position statement of the whole join
  (`Deals.LeftJoinUnique`) assumes unique team agents.
