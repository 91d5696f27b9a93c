/**
 * The `hash` workflow: read an address file, write one digest per address
 * under the header `hashed_address`.
 */
module BatchHasher {
  import opened PyValues
  import opened KeyStore
  import opened Hashing
  import opened Rows

  /** The header of the hashed output file. */
  const HashedHeader := "hashed_address"

  /** Whether hashing succeeded on every address of `addresses`. */
  predicate HashesAll(h: Hasher, key: Key, addresses: seq<string>) {
    forall a :: a in addresses ==> h(key, a).Some?
  }

  /** What one input row contributes: its digest, if it has cells and hashing succeeded. */
  function RowDigest(row: Row, key: Key, h: Hasher): (r: seq<Digest>)
    ensures |r| <= 1
    ensures r != [] ==> row != [] && h(key, row[0]) == Some(r[0])
    ensures row != [] && h(key, row[0]).Some? ==> r == [h(key, row[0]).value]
  {
    if row == [] then []
    else
      var hashed := h(key, row[0]);
      if Truthy(hashed) then [hashed.value] else []
  }

  /**
   * The digests written for the data rows `body`, in input order: rows
   * without cells are skipped, and so are rows whose hashing fails.
   */
  function HashRows(body: Table, key: Key, h: Hasher): (r: seq<Digest>)
  {
    if body == [] then []
    else RowDigest(body[0], key, h) + HashRows(body[1..], key, h)
  }

  /** At most one digest is written per address read. */
  lemma {:induction false} HashRowsBound(body: Table, key: Key, h: Hasher)
    ensures |HashRows(body, key, h)| <= |Column0(body)|
  {
    if body != [] {
      HashRowsBound(body[1..], key, h);
    }
  }

  /** Every digest written is the hash of some address of the input. */
  lemma {:induction false} HashRowsSound(body: Table, key: Key, h: Hasher)
    ensures forall d :: d in HashRows(body, key, h) ==>
              exists a :: a in Column0(body) && h(key, a) == Some(d)
  {
    if body != [] {
      HashRowsSound(body[1..], key, h);
      assert Column0(body) == Column0([body[0]]) + Column0(body[1..]) by {
        assert body == [body[0]] + body[1..];
        Column0Append([body[0]], body[1..]);
      }
    }
  }

  /**
   * When hashing never fails, the digests are exactly the hashes of the
   * addresses, one for one and in order.
   */
  lemma {:induction false} HashRowsTotal(body: Table, key: Key, h: Hasher)
    requires HashesAll(h, key, Column0(body))
    ensures |HashRows(body, key, h)| == |Column0(body)|
    ensures forall i :: 0 <= i < |Column0(body)| ==>
              h(key, Column0(body)[i]) == Some(HashRows(body, key, h)[i])
  {
    if body != [] {
      assert Column0(body) == Column0([body[0]]) + Column0(body[1..]) by {
        assert body == [body[0]] + body[1..];
        Column0Append([body[0]], body[1..]);
      }
      HashRowsTotal(body[1..], key, h);
    }
  }

  /** The hashed output file and whether the run completed. */
  datatype HashRun = HashRun(written: Table, completed: bool)

  /**
   * `process_addresses`: the output header goes out first; then the input
   * header is consumed, and an input without one ends the run with only
   * the output header written.
   */
  function ProcessAddresses(input: Table, key: Key, h: Hasher): (r: HashRun)
    ensures |r.written| >= 1 && r.written[0] == [HashedHeader]
    ensures r.completed <==> input != []
    ensures !r.completed ==> r.written == [[HashedHeader]]
    ensures r.completed ==> |r.written| - 1 <= |Column0(input[1..])|
    ensures forall i :: 1 <= i < |r.written| ==> |r.written[i]| == 1 && IsHexDigest(r.written[i][0])
  {
    if input == [] then HashRun([[HashedHeader]], false)
    else
      HashRowsBound(input[1..], key, h);
      HashRun([[HashedHeader]] + SingletonRows(HashRows(input[1..], key, h)), true)
  }

  /** Hashing the rows of one table after another hashes their concatenation. */
  lemma {:induction false} HashRowsAppend(a: Table, b: Table, key: Key, h: Hasher)
    ensures HashRows(a + b, key, h) == HashRows(a, key, h) + HashRows(b, key, h)
  {
    if a == [] {
      assert a + b == b;
    } else {
      assert (a + b)[1..] == a[1..] + b;
      HashRowsAppend(a[1..], b, key, h);
    }
  }

  /** Hashing one more row appends that row's digest, if any. */
  lemma HashRowsSnoc(body: Table, row: Row, key: Key, h: Hasher)
    ensures HashRows(body + [row], key, h) == HashRows(body, key, h) + RowDigest(row, key, h)
  {
    HashRowsAppend(body, [row], key, h);
    assert [row][1..] == [];
  }

  /** The rows written for one more data row extend the rows written so far. */
  lemma WrittenSnoc(body: Table, row: Row, key: Key, h: Hasher)
    ensures SingletonRows(HashRows(body + [row], key, h))
         == SingletonRows(HashRows(body, key, h)) + SingletonRows(RowDigest(row, key, h))
  {
    HashRowsSnoc(body, row, key, h);
    SingletonRowsAppend(HashRows(body, key, h), RowDigest(row, key, h));
  }

  /** The digests column of a completed run, read back, is the digests of the addresses. */
  lemma HashedColumn(input: Table, key: Key, h: Hasher)
    requires input != []
    ensures Column0(ProcessAddresses(input, key, h).written[1..]) == HashRows(input[1..], key, h)
  {
    var ds := HashRows(input[1..], key, h);
    assert ProcessAddresses(input, key, h).written[1..] == SingletonRows(ds);
    Column0OfSingletonRows(ds);
  }

  /**
   * The writing loop of `process_addresses` over the data rows `body`:
   * header first, then one single-cell row per truthy digest.
   */
  method WriteHashes(body: Table, key: Key, h: Hasher) returns (written: Table)
    ensures written == [[HashedHeader]] + SingletonRows(HashRows(body, key, h))
    ensures Column0(written[1..]) == HashRows(body, key, h)
  {
    written := [[HashedHeader]];
    var i := 0;
    while i < |body|
      invariant 0 <= i <= |body|
      invariant written == [[HashedHeader]] + SingletonRows(HashRows(body[..i], key, h))
    {
      var row := body[i];
      WrittenSnoc(body[..i], row, key, h);
      assert body[..i + 1] == body[..i] + [row];
      if row != [] {
        var hashed := h(key, row[0]);
        if Truthy(hashed) {
          written := written + [[hashed.value]];
        }
      }
      i := i + 1;
    }
    assert body[..i] == body;
    Column0OfSingletonRows(HashRows(body, key, h));
  }
}
