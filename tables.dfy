/**
 * Grouped tables: the shape of a pandas `groupby(key)[col].sum()` or `groupby(key).size()`
 * after `reset_index()`, as a list of (key, value) rows with distinct keys, and the
 * descending `sort_values` applied to such a table.
 */
module Tables {
  import opened Wrappers

  /** One row of a grouped table: the group key (a manager) and its aggregate. */
  datatype Entry = Entry(key: string, value: int)

  /** One input row of a group-by: its key (None is a null key) and the amount it adds. */
  datatype Item = Item(key: Option<string>, amount: int)

  /** The keys that occur in a table. */
  function KeySet(t: seq<Entry>): set<string>
  {
    if t == [] then {} else {t[0].key} + KeySet(t[1..])
  }

  /** Each key occurs in at most one row. */
  predicate UniqueKeys(t: seq<Entry>)
  {
    t == [] || (t[0].key !in KeySet(t[1..]) && UniqueKeys(t[1..]))
  }

  /** The value stored under key k, or 0 when k has no row. */
  function Get(t: seq<Entry>, k: string): int
  {
    if t == [] then 0 else if t[0].key == k then t[0].value else Get(t[1..], k)
  }

  /** The sum of all values of a table. */
  function Total(t: seq<Entry>): int
  {
    if t == [] then 0 else t[0].value + Total(t[1..])
  }

  /** The rows are in descending order of value (ties in any order). */
  predicate NonIncreasing(t: seq<Entry>)
  {
    forall i, j :: 0 <= i < j < |t| ==> t[i].value >= t[j].value
  }

  // ---------------------------------------------------------------------------
  // What a group-by must compute, stated directly on its input rows

  /** The non-null keys that occur among the items. */
  function ItemKeys(items: seq<Item>): set<string>
  {
    if items == [] then {}
    else (match items[0].key case None => {} case Some(k) => {k}) + ItemKeys(items[1..])
  }

  /** The sum of the amounts of the items whose key is k. */
  function SumFor(items: seq<Item>, k: string): int
  {
    if items == [] then 0
    else (if items[0].key == Some(k) then items[0].amount else 0) + SumFor(items[1..], k)
  }

  /** The sum of the amounts of the items whose key is not null. */
  function SumNonNull(items: seq<Item>): int
  {
    if items == [] then 0
    else (if items[0].key.Some? then items[0].amount else 0) + SumNonNull(items[1..])
  }

  // ---------------------------------------------------------------------------
  // Group-by

  /** Adds v to the row of key k, opening a new row at the end when k has none. */
  function Accumulate(t: seq<Entry>, k: string, v: int): (r: seq<Entry>)
    requires UniqueKeys(t)
    ensures UniqueKeys(r)
    ensures KeySet(r) == KeySet(t) + {k}
    ensures Get(r, k) == Get(t, k) + v
    ensures forall k' :: k' != k ==> Get(r, k') == Get(t, k')
    ensures Total(r) == Total(t) + v
  {
    if t == [] then [Entry(k, v)]
    else if t[0].key == k then
      AbsentKeyGetsZero(t[1..], k);
      [Entry(k, t[0].value + v)] + t[1..]
    else
      [t[0]] + Accumulate(t[1..], k, v)
  }

  /**
   * `groupby(key).sum()`: one row per non-null key holding the sum of its items' amounts.
   * Rows with a null key are dropped, as pandas does by default.
   */
  function GroupSum(items: seq<Item>): (r: seq<Entry>)
    ensures UniqueKeys(r)
    ensures KeySet(r) == ItemKeys(items)
    ensures forall k :: Get(r, k) == SumFor(items, k)
    ensures Total(r) == SumNonNull(items)
  {
    if items == [] then []
    else
      var rest := GroupSum(items[1..]);
      match items[0].key
      case None => rest
      case Some(k) => Accumulate(rest, k, items[0].amount)
  }

  // ---------------------------------------------------------------------------
  // Descending sort

  /** Inserts e before the first row whose value is smaller. */
  function InsertDesc(e: Entry, t: seq<Entry>): (r: seq<Entry>)
    requires NonIncreasing(t)
    ensures NonIncreasing(r)
    ensures |r| == |t| + 1
    ensures multiset(r) == multiset(t) + multiset{e}
  {
    if t == [] || e.value >= t[0].value then [e] + t
    else
      var rest := InsertDesc(e, t[1..]);
      assert t == [t[0]] + t[1..];
      BoundedByHead(t[0], t[1..], e, rest);
      [t[0]] + rest
  }

  /**
   * `sort_values(by=value, ascending=False)`: a reordering of the rows that is non-increasing
   * by value. Which of several tied rows comes first is not part of the contract.
   */
  function SortDesc(t: seq<Entry>): (r: seq<Entry>)
    ensures NonIncreasing(r)
    ensures |r| == |t|
    ensures multiset(r) == multiset(t)
  {
    if t == [] then []
    else
      assert t == [t[0]] + t[1..];
      InsertDesc(t[0], SortDesc(t[1..]))
  }

  // ---------------------------------------------------------------------------
  // Lemmas

  /** Putting a row in front of rows no larger keeps a table non-increasing. */
  lemma BoundedByHead(h: Entry, t: seq<Entry>, e: Entry, rest: seq<Entry>)
    requires NonIncreasing([h] + t) && NonIncreasing(rest)
    requires multiset(rest) == multiset(t) + multiset{e}
    requires e.value < h.value
    ensures NonIncreasing([h] + rest)
  {
    forall x | x in rest
      ensures x.value <= h.value
    {
      assert x in multiset(rest);
      if x != e {
        assert x in multiset(t);
        var i :| 0 <= i < |t| && t[i] == x;
        assert ([h] + t)[0] == h && ([h] + t)[i + 1] == x;
      }
    }
    var r := [h] + rest;
    forall i, j | 0 <= i < j < |r|
      ensures r[i].value >= r[j].value
    {
      assert r[j] == rest[j - 1];
      if i > 0 {
        assert r[i] == rest[i - 1];
      } else {
        assert r[j] in rest;
      }
    }
  }

  /** A key without a row reads as 0. */
  lemma {:induction false} AbsentKeyGetsZero(t: seq<Entry>, k: string)
    ensures k !in KeySet(t) ==> Get(t, k) == 0
  {
    if t != [] {
      AbsentKeyGetsZero(t[1..], k);
    }
  }

  /** A key occurs in the table exactly when some row carries it. */
  lemma {:induction false} KeySetMembers(t: seq<Entry>, k: string)
    ensures k in KeySet(t) <==> exists i :: 0 <= i < |t| && t[i].key == k
  {
    if t != [] {
      KeySetMembers(t[1..], k);
      if k in KeySet(t[1..]) {
        var i :| 0 <= i < |t[1..]| && t[1..][i].key == k;
        assert t[i + 1].key == k;
      }
      if exists i :: 0 <= i < |t| && t[i].key == k {
        var i :| 0 <= i < |t| && t[i].key == k;
        if i > 0 {
          assert t[1..][i - 1].key == k;
        }
      }
    }
  }

  /** With unique keys, no two rows share a key. */
  lemma {:induction false} UniqueKeysAt(t: seq<Entry>, i: int, j: int)
    requires UniqueKeys(t)
    requires 0 <= i < j < |t|
    ensures t[i].key != t[j].key
  {
    if i > 0 {
      UniqueKeysAt(t[1..], i - 1, j - 1);
    } else {
      KeySetMembers(t[1..], t[j].key);
      assert t[1..][j - 1] == t[j];
    }
  }

  /** With unique keys, every row holds what Get reads for its key. */
  lemma {:induction false} GetAt(t: seq<Entry>, i: int)
    requires UniqueKeys(t)
    requires 0 <= i < |t|
    ensures Get(t, t[i].key) == t[i].value
  {
    if i > 0 {
      UniqueKeysAt(t, 0, i);
      GetAt(t[1..], i - 1);
    }
  }

  /** Inserting a row adds its key and its value. */
  lemma {:induction false} InsertDescKeys(e: Entry, t: seq<Entry>)
    requires NonIncreasing(t)
    ensures KeySet(InsertDesc(e, t)) == KeySet(t) + {e.key}
    ensures Total(InsertDesc(e, t)) == Total(t) + e.value
  {
    var r := InsertDesc(e, t);
    if t == [] || e.value >= t[0].value {
      assert r[1..] == t;
    } else {
      InsertDescKeys(e, t[1..]);
      assert r[1..] == InsertDesc(e, t[1..]);
    }
  }

  /** Inserting a row with a new key keeps the keys unique and adds that key's value only. */
  lemma {:induction false} InsertDescLookup(e: Entry, t: seq<Entry>)
    requires NonIncreasing(t) && UniqueKeys(t) && e.key !in KeySet(t)
    ensures UniqueKeys(InsertDesc(e, t))
    ensures forall k :: Get(InsertDesc(e, t), k) == if k == e.key then e.value else Get(t, k)
  {
    var r := InsertDesc(e, t);
    InsertDescKeys(e, t);
    if t == [] || e.value >= t[0].value {
      AbsentKeyGetsZero(t, e.key);
      assert r[1..] == t;
    } else {
      InsertDescKeys(e, t[1..]);
      InsertDescLookup(e, t[1..]);
      assert r[1..] == InsertDesc(e, t[1..]);
    }
  }

  /** Sorting keeps the set of keys and the total. */
  lemma {:induction false} SortDescKeys(t: seq<Entry>)
    ensures KeySet(SortDesc(t)) == KeySet(t)
    ensures Total(SortDesc(t)) == Total(t)
  {
    if t != [] {
      var rest := SortDesc(t[1..]);
      SortDescKeys(t[1..]);
      InsertDescKeys(t[0], rest);
      assert SortDesc(t) == InsertDesc(t[0], rest);
    }
  }

  /**
   * Sorting a table with unique keys keeps them unique and keeps the value under every key:
   * the table read as a key-to-value mapping is unchanged.
   */
  lemma {:induction false} SortDescLookup(t: seq<Entry>)
    requires UniqueKeys(t)
    ensures UniqueKeys(SortDesc(t))
    ensures forall k :: Get(SortDesc(t), k) == Get(t, k)
  {
    if t != [] {
      var rest := SortDesc(t[1..]);
      SortDescKeys(t[1..]);
      SortDescLookup(t[1..]);
      InsertDescLookup(t[0], rest);
      assert SortDesc(t) == InsertDesc(t[0], rest);
    }
  }

  /** Sorting keeps everything a group-by table says: its keys, total and value per key. */
  lemma SortDescKeeps(t: seq<Entry>)
    ensures KeySet(SortDesc(t)) == KeySet(t)
    ensures Total(SortDesc(t)) == Total(t)
    ensures UniqueKeys(t) ==> UniqueKeys(SortDesc(t)) && forall k :: Get(SortDesc(t), k) == Get(t, k)
  {
    SortDescKeys(t);
    if UniqueKeys(t) {
      SortDescLookup(t);
    }
  }
}
