// The bounded sink of a catalog query (src/sql/metadata.rs).

module CatalogSinks {
  import opened Bytes
  import opened Wrappers
  import opened Sequences

  const METADATA_BYTES_LIMIT: nat := 1024 * 1024
  const METADATA_FIELD_BYTES_LIMIT: nat := 1024

  type Row = seq<bytes>

  function TextOf(values: seq<Option<bytes>>): (r: Row)
    ensures |r| == |values|
  {
    seq(|values|, k requires 0 <= k < |values| => values[k].GetOr([]))
  }

  function RowBytes(row: Row): nat {
    if row == [] then 0 else |row[0]| + RowBytes(row[1..])
  }

  function TotalBytes(rows: seq<Row>): nat {
    if rows == [] then 0 else RowBytes(rows[0]) + TotalBytes(rows[1..])
  }

  predicate FieldsFit(row: Row) {
    forall k :: 0 <= k < |row| ==> |row[k]| <= METADATA_FIELD_BYTES_LIMIT
  }

  class CatalogSink {
    var rows: seq<Row>
    const limit: nat
    var retainedBytes: nat
    var truncated: bool
    ghost var delivered: seq<Row>

    /** What is kept stays within every bound, in order, and dropping a row is never silent. */
    ghost predicate Valid()
      reads this
    {
      && |rows| <= limit
      && retainedBytes == TotalBytes(rows) <= METADATA_BYTES_LIMIT
      && (forall row :: row in rows ==> FieldsFit(row))
      && Kept(rows, delivered)
      && (truncated <==> |rows| < |delivered|)
    }

    constructor (limit: nat)
      ensures Valid() && this.limit == limit && delivered == [] && rows == []
    {
      rows, this.limit, retainedBytes, truncated := [], limit, 0, false;
      delivered := [];
    }

    method MeasureRow(row: Row) returns (r: Option<nat>)
      ensures r.Some? <==> FieldsFit(row)
      ensures r.Some? ==> r.value == RowBytes(row)
    {
      var total := 0;
      var k := 0;
      assert row[0..] == row;
      while k < |row|
        invariant k <= |row| && total + RowBytes(row[k..]) == RowBytes(row)
        invariant forall j :: 0 <= j < k ==> |row[j]| <= METADATA_FIELD_BYTES_LIMIT
      {
        if |row[k]| > METADATA_FIELD_BYTES_LIMIT {
          return None;
        }
        assert row[k..][1..] == row[k + 1..];
        total := total + |row[k]|;
        k := k + 1;
      }
      return Some(total);
    }

    /** A row is kept exactly when it and everything kept before it stay within the limits. */
    method EmitRow(values: seq<Option<bytes>>)
      requires Valid()
      modifies this
      ensures Valid() && delivered == old(delivered) + [TextOf(values)]
      ensures var row := TextOf(values);
              var fits := |old(rows)| < limit && (forall k :: 0 <= k < |row| ==> |row[k]| <= 1024)
                          && TotalBytes(old(rows)) + RowBytes(row) <= 1_048_576;
              && rows == (if fits then old(rows) + [row] else old(rows))
              && truncated == (old(truncated) || !fits)
    {
      var row := TextOf(values);
      KeptGrows(rows, delivered, row);
      delivered := delivered + [row];
      if |rows| >= limit {
        truncated := true;
        return;
      }
      var size := MeasureRow(row);
      if size.Some? && retainedBytes + size.value <= METADATA_BYTES_LIMIT {
        TotalBytesAppend(rows, row);
        retainedBytes := retainedBytes + size.value;
        rows := rows + [row];
      } else {
        truncated := true;
      }
    }
  }

  predicate Kept(rows: seq<Row>, delivered: seq<Row>) {
    |rows| <= |delivered| && IsSubsequence(rows, delivered)
  }

  /** The fields of a row, one behind the other. */
  function Joined(row: Row): bytes {
    if row == [] then [] else row[0] + Joined(row[1..])
  }

  function JoinedRows(rows: seq<Row>): bytes {
    if rows == [] then [] else Joined(rows[0]) + JoinedRows(rows[1..])
  }

  lemma {:induction false} RowBytesMeans(row: Row)
    ensures RowBytes(row) == |Joined(row)|
  {
    if row != [] {
      RowBytesMeans(row[1..]);
    }
  }

  /** What counts against the limit is every byte of every field that is kept. */
  lemma {:induction false} TotalBytesMeans(rows: seq<Row>)
    ensures TotalBytes(rows) == |JoinedRows(rows)|
  {
    if rows != [] {
      RowBytesMeans(rows[0]);
      TotalBytesMeans(rows[1..]);
    }
  }

  lemma {:induction false} TotalBytesAppend(rows: seq<Row>, row: Row)
    ensures TotalBytes(rows + [row]) == TotalBytes(rows) + RowBytes(row)
  {
    if rows == [] {
      assert [row][1..] == [];
    } else {
      TotalBytesAppend(rows[1..], row);
      assert (rows + [row])[1..] == rows[1..] + [row];
    }
  }

  lemma {:induction false} KeptGrows(rows: seq<Row>, delivered: seq<Row>, row: Row)
    requires IsSubsequence(rows, delivered)
    ensures IsSubsequence(rows, delivered + [row]) && IsSubsequence(rows + [row], delivered + [row])
    decreases |delivered|
  {
    if delivered == [] {
      assert rows == [] && rows + [row] == [row] && delivered + [row] == [row];
      SubsequenceGrows(row, [], []);
    } else {
      var x, later := delivered[0], delivered[1..];
      assert delivered + [row] == [x] + (later + [row]);
      if rows != [] && rows[0] == x && IsSubsequence(rows[1..], later) {
        KeptGrows(rows[1..], later, row);
        assert rows == [x] + rows[1..] && rows + [row] == [x] + (rows[1..] + [row]);
        SubsequenceGrows(x, rows[1..], later + [row]);
        SubsequenceGrows(x, rows[1..] + [row], later + [row]);
      } else {
        assert IsSubsequence(rows, later);
        KeptGrows(rows, later, row);
        SubsequenceGrows(x, rows, later + [row]);
        SubsequenceGrows(x, rows + [row], later + [row]);
      }
    }
  }
}
