/**
 * Tabular files as the CSV reader yields them and the CSV writer consumes
 * them: a sequence of rows, each row a sequence of cells.
 */
module Rows {

  type Row = seq<string>
  type Table = seq<Row>

  /**
   * The first cell of every row that has at least one cell, in reading
   * order; rows with no cells contribute nothing. A row whose only cell is
   * empty does contribute, the empty string.
   */
  function Column0(rows: Table): (r: seq<string>)
    ensures |r| <= |rows|
  {
    if rows == [] then []
    else
      var rest := Column0(rows[1..]);
      (if rows[0] == [] then [] else [rows[0][0]]) + rest
  }

  /** A value is in column 0 exactly when some row with cells starts with it. */
  lemma {:induction false} Column0Members(rows: Table)
    ensures forall x :: x in Column0(rows) <==>
              exists i :: 0 <= i < |rows| && rows[i] != [] && rows[i][0] == x
  {
    if rows != [] {
      Column0Members(rows[1..]);
      forall x | exists i :: 0 <= i < |rows| && rows[i] != [] && rows[i][0] == x
        ensures x in Column0(rows)
      {
        var i :| 0 <= i < |rows| && rows[i] != [] && rows[i][0] == x;
        if i > 0 {
          assert rows[1..][i - 1] == rows[i];
        }
      }
      forall x | x in Column0(rows[1..])
        ensures exists i :: 0 <= i < |rows| && rows[i] != [] && rows[i][0] == x
      {
        var j :| 0 <= j < |rows| - 1 && rows[1..][j] != [] && rows[1..][j][0] == x;
        assert rows[j + 1] == rows[1..][j];
      }
    }
  }

  /** One single-cell row per value, as `writer.writerow([value])` writes them. */
  function SingletonRows(values: seq<string>): Table {
    seq(|values|, i requires 0 <= i < |values| => [values[i]])
  }

  /** Reading column 0 back from a table depends on its rows in order. */
  lemma {:induction false} Column0Append(a: Table, b: Table)
    ensures Column0(a + b) == Column0(a) + Column0(b)
  {
    if a != [] {
      assert (a + b)[1..] == a[1..] + b;
      Column0Append(a[1..], b);
    } else {
      assert a + b == b;
    }
  }

  /** Writing values as single-cell rows and reading column 0 gives them back. */
  lemma {:induction false} Column0OfSingletonRows(values: seq<string>)
    ensures Column0(SingletonRows(values)) == values
  {
    if values != [] {
      assert SingletonRows(values)[1..] == SingletonRows(values[1..]);
      Column0OfSingletonRows(values[1..]);
    }
  }

  /** Writing one batch of rows after another is writing their concatenation. */
  lemma SingletonRowsAppend(a: seq<string>, b: seq<string>)
    ensures SingletonRows(a + b) == SingletonRows(a) + SingletonRows(b)
  {
  }
}
