/** The byte format of rows in sort runs, and reading it back. */
module RowCodec {
  import opened Values
  import opened Bytes
  import opened Doubles
  import opened NodeCodec

  predicate Spillable(v: Value) {
    match v
    case Null => true
    case Int(i) => IsInt64(i)
    case Bool(_) => true
    case Text(t) => IsByteString(t) && |t| < 0x1_0000_0000
    case Double(d) => IsDouble(d)
  }

  ghost predicate RowSpillable(row: Row) {
    |row| < 0x1_0000_0000 && forall i :: 0 <= i < |row| ==> Spillable(row[i])
  }

  function EncodeCell(v: Value): (r: seq<Byte>)
    requires Spillable(v)
    ensures |r| >= 1
  {
    match v
    case Null => [0]
    case Int(i) => [1] + PutI64(i)
    case Bool(b) => [2, if b then 1 else 0]
    case Text(t) => [3] + (PutUnsigned(|t|, 4) + TextBytes(t))
    case Double(d) => [4] + PutUnsigned(ToBits(d), 8)
  }

  function EncodeCells(row: Row): seq<Byte>
    requires forall i :: 0 <= i < |row| ==> Spillable(row[i])
  {
    if row == [] then [] else EncodeCell(row[0]) + EncodeCells(row[1..])
  }

  function EncodeRow(row: Row): (r: seq<Byte>)
    requires RowSpillable(row)
    ensures |r| >= 4
  {
    PutUnsigned(|row|, 4) + EncodeCells(row)
  }

  ghost predicate AllSpillable(rows: seq<Row>) {
    forall i :: 0 <= i < |rows| ==> RowSpillable(rows[i])
  }

  /** A run file's contents. */
  ghost function EncodeRows(rows: seq<Row>): seq<Byte>
    requires AllSpillable(rows)
  {
    if rows == [] then [] else EncodeRow(rows[0]) + EncodeRows(rows[1..])
  }

  lemma {:induction false} EncodeAppend(rows: seq<Row>, row: Row)
    requires AllSpillable(rows) && RowSpillable(row)
    ensures AllSpillable(rows + [row])
    ensures EncodeRows(rows + [row]) == EncodeRows(rows) + EncodeRow(row)
  {
    hide RowSpillable, EncodeRow;
    if rows == [] {
      assert [] + [row] == [row] && [row][1..] == [];
      assert EncodeRows([]) == [];
      assert EncodeRows([row]) == EncodeRow(row) + [];
    } else {
      EncodeAppend(rows[1..], row);
      assert (rows + [row])[1..] == rows[1..] + [row];
    }
  }

  // ----- Reading

  lemma LengthFits(n: nat)
    requires n < 0x1_0000_0000
    ensures GetUnsigned(PutUnsigned(n, 4)) == n
  {
    assert Power256(4) == 256 * (256 * (256 * (256 * Power256(0)))) == 0x1_0000_0000;
    UnsignedRoundTrip(n, 4);
  }

  /** The next k bytes of a file that continues with them. */
  lemma NextBytes(file: seq<Byte>, pos: nat, bs: seq<Byte>, tail: seq<Byte>)
    requires pos <= |file| && file[pos..] == bs + tail
    ensures pos + |bs| <= |file| && file[pos..pos + |bs|] == bs && file[pos + |bs|..] == tail
  {
    assert file[pos..][..|bs|] == bs && file[pos..][|bs|..] == tail;
  }

  /** Reads one cell of a file that continues with its encoding. */
  method ReadCell(file: seq<Byte>, pos: nat, ghost v: Value, ghost tail: seq<Byte>) returns (w: Value, next: nat)
    requires Spillable(v) && pos <= |file| && file[pos..] == EncodeCell(v) + tail
    ensures w == v && next <= |file| && file[next..] == tail && next > pos
  {
    hide PutUnsigned, GetUnsigned, IsByteString, TextBytes, BytesText, Power256, IsDouble, ToBits, FromBits;
    NextBytes(file, pos, EncodeCell(v), tail);
    ghost var e := EncodeCell(v);
    assert file[pos] == e[0];
    var tag := file[pos];
    if tag == 1 {
      assert e[1..] == PutI64(v.i);
      SliceSlice(file, pos, pos + 9, 1, 9);
      assert file[pos..pos + 9][1..9] == e[1..];
      I64RoundTrip(v.i);
      w, next := Int(GetI64(file[pos + 1..pos + 9])), pos + 9;
    } else if tag == 2 {
      assert file[pos + 1] == file[pos..pos + 2][1] == e[1];
      w, next := Bool(file[pos + 1] != 0), pos + 2;
    } else if tag == 3 {
      w, next := ReadText(file, pos, v, tail);
    } else if tag == 4 {
      assert e[1..] == PutUnsigned(ToBits(v.d), 8);
      SliceSlice(file, pos, pos + 9, 1, 9);
      assert file[pos..pos + 9][1..9] == e[1..];
      PowerIsWord();
      UnsignedRoundTrip(ToBits(v.d), 8);
      BitsRoundTrip(v.d);
      w, next := Double(FromBits(GetUnsigned(file[pos + 1..pos + 9]))), pos + 9;
    } else {
      w, next := Null, pos + 1;
    }
  }

  method ReadText(file: seq<Byte>, pos: nat, ghost v: Value, ghost tail: seq<Byte>) returns (w: Value, next: nat)
    requires v.Text? && Spillable(v) && pos <= |file| && file[pos..] == EncodeCell(v) + tail
    ensures w == v && next <= |file| && file[next..] == tail && next > pos
  {
    hide PutUnsigned, GetUnsigned, IsByteString, TextBytes, BytesText;
    ghost var t := v.t;
    ghost var rest := TextBytes(t) + tail;
    assert EncodeCell(v) + tail == [3] + (PutUnsigned(|t|, 4) + rest);
    NextBytes(file, pos, [3], PutUnsigned(|t|, 4) + rest);
    NextBytes(file, pos + 1, PutUnsigned(|t|, 4), rest);
    LengthFits(|t|);
    var len := GetUnsigned(file[pos + 1..pos + 5]);
    NextBytes(file, pos + 5, TextBytes(t), tail);
    TextRoundTrip(t);
    w, next := Text(BytesText(file[pos + 5..pos + 5 + len])), pos + 5 + len;
  }

  /** Reads the next row of a run; none at the end of the file. */
  method ReadRow(file: seq<Byte>, pos: nat, ghost rows: seq<Row>) returns (row: Option<Row>, next: nat)
    requires pos <= |file| && AllSpillable(rows) && file[pos..] == EncodeRows(rows)
    ensures row == if rows == [] then None else Some(rows[0])
    ensures next <= |file| && (rows != [] ==> file[next..] == EncodeRows(rows[1..]))
  {
    hide PutUnsigned, GetUnsigned, EncodeCell, EncodeCells, Spillable;
    if pos == |file| {
      EmptyRun(rows);
      return None, pos;
    }
    ghost var want, tail := rows[0], EncodeRows(rows[1..]);
    ghost var cells := EncodeCells(want);
    assert EncodeRows(rows) == PutUnsigned(|want|, 4) + (cells + tail);
    NextBytes(file, pos, PutUnsigned(|want|, 4), cells + tail);
    LengthFits(|want|);
    var ncols := GetUnsigned(file[pos..pos + 4]);
    var out;
    out, next := ReadCells(file, pos + 4, ncols, want, tail);
    row := Some(out);
  }

  lemma EmptyRun(rows: seq<Row>)
    requires AllSpillable(rows) && EncodeRows(rows) == []
    ensures rows == []
  {
  }

  method ReadCells(file: seq<Byte>, pos: nat, n: nat, ghost want: Row, ghost tail: seq<Byte>) returns (row: Row, next: nat)
    requires pos <= |file| && RowSpillable(want) && n == |want| && file[pos..] == EncodeCells(want) + tail
    ensures row == want && next <= |file| && file[next..] == tail
  {
    hide EncodeCell, Spillable;
    row, next := [], pos;
    while |row| < n
      invariant |row| <= n && row == want[..|row|] && next <= |file|
      invariant file[next..] == EncodeCells(want[|row|..]) + tail
    {
      ghost var left := want[|row|..];
      assert EncodeCells(left) + tail == EncodeCell(left[0]) + (EncodeCells(left[1..]) + tail);
      assert left[1..] == want[|row| + 1..];
      var v;
      v, next := ReadCell(file, next, left[0], EncodeCells(left[1..]) + tail);
      row := row + [v];
    }
    assert want[n..] == [];
  }
}
