/**
 * The data loader of lab 4 (lab4/chord_populate.py): every CSV row becomes a
 * dataset whose cells are normalised ('--' to None, a decimal numeral to its
 * integer, anything else kept as text), keyed by the pair (Player Id, Year)
 * and put into the hash table, so that a later row with the same key
 * replaces an earlier one.
 *
 * A row is the dict csv.DictReader yields, header names in column order.
 * The hash table is a map from key to dataset: how put_value hashes the key
 * and routes it to its owner is modelled in ChordNodes.
 */
module ChordPopulate {
  import opened Wrappers
  import opened PyDicts

  /** A normalised cell: None, an int, or the text as read. */
  datatype Cell = Null | Int(n: nat) | Str(s: string)

  /** One CSV row: column name to cell text. */
  type Row = Dict<string, string>

  /** A normalised row. */
  type Dataset = Dict<string, Cell>

  /** The key of a row. */
  type Key = (Cell, Cell)

  /** What the hash table holds for each key. */
  type Store = map<Key, Dataset>

  predicate IsDigit(c: char)
  {
    '0' <= c <= '9'
  }

  /** `str.isdecimal()` on ASCII text: non-empty and all digits. */
  predicate IsDecimal(s: string)
  {
    |s| > 0 && forall i :: 0 <= i < |s| ==> IsDigit(s[i])
  }

  /** The number a string of digits denotes, read most significant digit first. */
  function DecimalValue(s: string): (n: nat)
    requires forall i :: 0 <= i < |s| ==> IsDigit(s[i])
  {
    if |s| == 0 then 0
    else
      assert IsDigit(s[|s| - 1]);
      DecimalValue(s[..|s| - 1]) * 10 + (s[|s| - 1] as int - '0' as int)
  }

  /** The canonical decimal numeral of n: no leading zero. */
  function ShowNat(n: nat): (s: string)
    ensures IsDecimal(s)
    ensures |s| > 1 ==> s[0] != '0'
  {
    if n < 10 then [('0' as int + n) as char]
    else ShowNat(n / 10) + [('0' as int + n % 10) as char]
  }

  /** Reading a numeral gives back the number it shows. */
  lemma {:induction false} DecimalShowNat(n: nat)
    ensures DecimalValue(ShowNat(n)) == n
  {
    if n >= 10 {
      var s := ShowNat(n);
      DecimalShowNat(n / 10);
      assert s[..|s| - 1] == ShowNat(n / 10);
    }
  }

  /**
   * The per-cell rule of populate_from_csv: `'--'` is None, a decimal numeral
   * is `int(float(cell))`, anything else is kept.
   */
  function Normalize(cell: string): (c: Cell)
    ensures c == Null <==> cell == "--"
    ensures c.Int? <==> IsDecimal(cell)
    ensures c.Str? ==> c.s == cell
  {
    if cell == "--" then
      assert !IsDigit(cell[0]);
      Null
    else if IsDecimal(cell) then Int(DecimalValue(cell))
    else Str(cell)
  }

  /** A numeral normalises to its number. */
  lemma NormalizeNumeral(n: nat)
    ensures Normalize(ShowNat(n)) == Int(n)
  {
    DecimalShowNat(n);
  }

  /** Leading zeros do not change the number a cell normalises to. */
  lemma {:induction false} NormalizeLeadingZero(s: string)
    requires IsDecimal(s)
    ensures Normalize("0" + s) == Normalize(s)
  {
    LeadingZeroValue(s);
  }

  lemma {:induction false} LeadingZeroValue(s: string)
    requires forall i :: 0 <= i < |s| ==> IsDigit(s[i])
    ensures DecimalValue("0" + s) == DecimalValue(s)
  {
    if |s| > 0 {
      var t := "0" + s;
      assert t[..|t| - 1] == "0" + s[..|s| - 1];
      LeadingZeroValue(s[..|s| - 1]);
    }
  }

  /** The dataset a row becomes: the same column names, in the same order, each cell normalised. */
  function NormalizedRow(row: Row): (d: Dataset)
    ensures d.order == row.order && d.items.Keys == row.items.Keys
    ensures forall name :: name in row.items ==> d.items[name] == Normalize(row.items[name])
  {
    Dict(row.order, map name | name in row.items :: Normalize(row.items[name]))
  }

  /** `for name in row: ... dataset[name] = cell` */
  method NormalizeRow(row: Row) returns (dataset: Dataset)
    requires row.Valid()
    ensures dataset == NormalizedRow(row)
  {
    dataset := Empty();
    for i := 0 to |row.order|
      invariant dataset.order == row.order[..i]
      invariant forall name :: name in dataset.items <==> name in row.order[..i]
      invariant forall name :: name in dataset.items ==> dataset.items[name] == Normalize(row.items[name])
    {
      var name := row.order[i];
      DistinctAt(row.order, i);
      var cell := row.items[name];
      assert row.order[..i + 1] == row.order[..i] + [name];
      dataset := Put(dataset, name, Normalize(cell));
    }
    assert row.order[..|row.order|] == row.order;
  }

  /** The row has both key columns. */
  predicate Keyed(row: Row)
  {
    "Player Id" in row.items && "Year" in row.items
  }

  /** `(dataset['Player Id'], dataset['Year'])`, or the KeyError for the first missing column. */
  function RowKey(dataset: Dataset): (r: Result<Key, string>)
    ensures r.Ok? <==> "Player Id" in dataset.items && "Year" in dataset.items
    ensures r.Ok? ==> r.value.0 == dataset.items["Player Id"] && r.value.1 == dataset.items["Year"]
    ensures r.Err? ==> r.error == if "Player Id" !in dataset.items then "Player Id" else "Year"
  {
    if "Player Id" !in dataset.items then Err("Player Id")
    else if "Year" !in dataset.items then Err("Year")
    else Ok((dataset.items["Player Id"], dataset.items["Year"]))
  }

  /** The key of a row that has both key columns. */
  function KeyOf(row: Row): (k: Key)
    requires Keyed(row)
    ensures RowKey(NormalizedRow(row)) == Ok(k)
  {
    (Normalize(row.items["Player Id"]), Normalize(row.items["Year"]))
  }

  /** The table after putting the rows in file order. */
  function PutAll(store: Store, rows: seq<Row>): Store
    requires forall i :: 0 <= i < |rows| ==> Keyed(rows[i])
  {
    if rows == [] then store
    else PutAll(store, rows[..|rows| - 1])[KeyOf(rows[|rows| - 1]) := NormalizedRow(rows[|rows| - 1])]
  }

  /** Putting one more row of a list extends its prefix's table by that row. */
  lemma PutAllSnoc(store: Store, rows: seq<Row>, n: int)
    requires 0 <= n < |rows| && forall i :: 0 <= i <= n ==> Keyed(rows[i])
    ensures PutAll(store, rows[..n + 1]) == PutAll(store, rows[..n])[KeyOf(rows[n]) := NormalizedRow(rows[n])]
  {
    var p := rows[..n + 1];
    assert p[..n] == rows[..n] && p[n] == rows[n];
  }

  /**
   * `populate_from_csv`: normalise and put each row in file order, counting
   * the rows put; a row without a key column stops the loop with KeyError.
   */
  method PopulateFromCsv(rows: seq<Row>, store0: Store) returns (count: nat, store: Store, err: Option<string>)
    requires forall i :: 0 <= i < |rows| ==> rows[i].Valid()
    ensures count <= |rows|
    ensures forall i :: 0 <= i < count ==> Keyed(rows[i])
    ensures store == PutAll(store0, rows[..count])
    ensures err.None? <==> count == |rows|
    ensures err.Some? ==> !Keyed(rows[count]) && RowKey(NormalizedRow(rows[count])) == Err(err.value)
  {
    count := 0;
    store := store0;
    while count < |rows|
      invariant count <= |rows|
      invariant forall i :: 0 <= i < count ==> Keyed(rows[i])
      invariant store == PutAll(store0, rows[..count])
    {
      var dataset := NormalizeRow(rows[count]);
      var key := RowKey(dataset);
      if key.Err? {
        return count, store, Some(key.error);
      }
      assert Keyed(rows[count]) && key.value == KeyOf(rows[count]);
      PutAllSnoc(store0, rows, count);
      store := store[key.value := dataset];
      count := count + 1;
    }
    err := None;
  }

  /**
   * Last row wins: a key maps to the dataset of the last row that carries it,
   * and a key no row carries keeps what the table held.
   */
  lemma {:induction false} LastRowWins(store: Store, rows: seq<Row>, j: int)
    requires forall i :: 0 <= i < |rows| ==> Keyed(rows[i])
    requires 0 <= j < |rows|
    requires forall i :: j < i < |rows| ==> KeyOf(rows[i]) != KeyOf(rows[j])
    ensures KeyOf(rows[j]) in PutAll(store, rows)
    ensures PutAll(store, rows)[KeyOf(rows[j])] == NormalizedRow(rows[j])
  {
    var n := |rows| - 1;
    var init := rows[..n];
    var k := KeyOf(rows[j]);
    var m := PutAll(store, init);
    var last := KeyOf(rows[n]);
    assert PutAll(store, rows) == m[last := NormalizedRow(rows[n])];
    if j == n {
      assert k == last;
    } else {
      assert last != k;
      assert init[j] == rows[j];
      forall i | j < i < |init|
        ensures KeyOf(init[i]) != KeyOf(init[j])
      {
        assert init[i] == rows[i];
      }
      LastRowWins(store, init, j);
      assert k in m && m[k] == NormalizedRow(rows[j]);
    }
  }

  /** A key that no row carries keeps its old entry, or stays absent. */
  lemma {:induction false} UntouchedKey(store: Store, rows: seq<Row>, k: Key)
    requires forall i :: 0 <= i < |rows| ==> Keyed(rows[i])
    requires forall i :: 0 <= i < |rows| ==> KeyOf(rows[i]) != k
    ensures k in PutAll(store, rows) <==> k in store
    ensures k in store ==> PutAll(store, rows)[k] == store[k]
  {
    if rows != [] {
      var init := rows[..|rows| - 1];
      assert forall i :: 0 <= i < |init| ==> init[i] == rows[i];
      UntouchedKey(store, init, k);
    }
  }
}
