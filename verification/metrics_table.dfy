/**
 * The two-column table of scalar results: a header row, then one
 * [name, value] row per metric, names in ascending order. The value
 * column is built as `"%s" % scalars[x] if x in scalars else "-"`.
 */
module MetricsTable {
  import opened StringOrder

  const Header: seq<string> := ["Metric", ""]

  /** `transpose_lists`: row i of the result is column i of the input. */
  function TransposeLists<T>(rows: seq<seq<T>>): (t: seq<seq<T>>)
    requires |rows| > 0 && forall j :: 0 <= j < |rows| ==> |rows[j]| == |rows[0]|
    ensures |t| == |rows[0]|
    ensures forall i :: 0 <= i < |t| ==> |t[i]| == |rows| && forall j :: 0 <= j < |rows| ==> t[i][j] == rows[j][i]
  {
    seq(|rows[0]|, i requires 0 <= i < |rows[0]| => seq(|rows|, j requires 0 <= j < |rows| => rows[j][i]))
  }

  /** Transposing twice gives back the rows, as long as they are not empty. */
  lemma TransposeTwice<T>(rows: seq<seq<T>>)
    requires |rows| > 0 && |rows[0]| > 0 && forall j :: 0 <= j < |rows| ==> |rows[j]| == |rows[0]|
    ensures TransposeLists(TransposeLists(rows)) == rows
  {
    var t := TransposeLists(rows);
    var tt := TransposeLists(t);
    forall j | 0 <= j < |rows| ensures tt[j] == rows[j] {
      assert |tt[j]| == |rows[j]|;
      forall i | 0 <= i < |rows[j]| ensures tt[j][i] == rows[j][i] {
        assert tt[j][i] == t[i][j];
      }
    }
  }

  /** `sorted(keys)`: the names in ascending order, each exactly once. */
  method SortedKeys(keys: set<string>) returns (cols: seq<string>)
    ensures StrictlyAscending(cols)
    ensures |cols| == |keys|
    ensures forall k :: k in cols <==> k in keys
  {
    cols := [];
    var rest := keys;
    while rest != {}
      invariant rest <= keys
      invariant StrictlyAscending(cols)
      invariant |cols| + |rest| == |keys|
      invariant forall k :: k in cols <==> k in keys && k !in rest
      decreases |rest|
    {
      var x :| x in rest;
      cols := Insert(cols, x);
      rest := rest - {x};
    }
  }

  /** Transposing two equally long rows pairs them up position by position. */
  lemma PairRows(cols: seq<string>, values: seq<string>, body: seq<seq<string>>)
    requires |values| == |cols|
    requires body == TransposeLists([cols, values])
    ensures |body| == |cols|
    ensures forall i :: 0 <= i < |cols| ==> body[i] == [cols[i], values[i]]
  {
    forall i | 0 <= i < |cols| ensures body[i] == [cols[i], values[i]] {
      assert |body[i]| == 2 && body[i][0] == cols[i] && body[i][1] == values[i];
    }
  }

  /** The first cell of every row. */
  function Names(rows: seq<seq<string>>): (names: seq<string>)
    requires forall i :: 0 <= i < |rows| ==> |rows[i]| > 0
    ensures |names| == |rows| && forall i :: 0 <= i < |rows| ==> names[i] == rows[i][0]
  {
    seq(|rows|, i requires 0 <= i < |rows| => rows[i][0])
  }

  /** The table built from the sorted names and their rendered values. */
  lemma TableShape(scalars: map<string, real>, show: real -> string, cols: seq<string>, values: seq<string>,
                   table: seq<seq<string>>)
    requires |cols| == |scalars| && forall i :: 0 <= i < |cols| ==> cols[i] in scalars
    requires |values| == |cols| && forall i :: 0 <= i < |cols| ==> values[i] == show(scalars[cols[i]])
    requires table == [Header] + TransposeLists([cols, values])
    ensures |table| == |scalars| + 1 && table[0] == Header
    ensures forall i :: 1 <= i < |table| ==> |table[i]| == 2
    ensures Names(table[1..]) == cols
    ensures forall i :: 1 <= i < |table| ==> table[i][0] in scalars && table[i][1] == show(scalars[table[i][0]])
  {
    var body := TransposeLists([cols, values]);
    PairRows(cols, values, body);
    assert table[1..] == body;
    assert Names(body) == cols;
    forall i | 1 <= i < |table| ensures table[i][0] in scalars && table[i][1] == show(scalars[table[i][0]]) {
      assert table[i] == body[i - 1];
    }
  }

  /**
   * The printed table. `show` renders a value as `"%s" % value` does.
   * After the header, every metric has exactly one row, with its own value,
   * and the names are strictly ascending. The "-" placeholder can never be
   * produced, because the names come from the scalars' own keys.
   */
  method ScalarTable(scalars: map<string, real>, show: real -> string) returns (table: seq<seq<string>>)
    ensures |table| == |scalars| + 1 && table[0] == Header
    ensures forall i :: 1 <= i < |table| ==> |table[i]| == 2
    ensures StrictlyAscending(Names(table[1..]))
    ensures forall name :: name in Names(table[1..]) <==> name in scalars
    ensures forall i :: 1 <= i < |table| ==> table[i][0] in scalars && table[i][1] == show(scalars[table[i][0]])
  {
    var cols := SortedKeys(scalars.Keys);
    var rows := [cols];
    var values := seq(|cols|, i requires 0 <= i < |cols| => if cols[i] in scalars then show(scalars[cols[i]]) else "-");
    rows := rows + [values];
    assert rows == [cols, values];
    table := [Header] + TransposeLists(rows);
    TableShape(scalars, show, cols, values, table);
  }

}
