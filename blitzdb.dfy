/** The BlitzDB storage-engine adapter of plugin/blitzdb/ha_blitz.cc.

    The Tokyo Cabinet hash database behind a table is an ordered list of
    (key, packed row) records in iteration order; the process-wide table
    cache maps table names to shares; a cursor scans the records, handing
    the buffer of the row it returns over to `updateable_key`.  Every
    operation runs atomically (the mutexes and table locks are not
    modelled). */
module BlitzDb {
  import opened Common
  import BlobCodec

  const HA_ERR_END_OF_FILE := 137
  const HA_ERR_CRASHED_ON_USAGE := 145
  /** Size of the on-stack pack buffer. */
  const BLITZ_MAX_ROW_STACK := 2048
  /** Size of the blob pointer stored in a record. */
  const PTR_SIZE := 8

  // thr_lock_type codes used by store_lock
  const TL_IGNORE := -1
  const TL_UNLOCK := 0
  const TL_READ_NO_INSERT := 4
  const TL_WRITE_ALLOW_WRITE := 5
  const TL_WRITE_CONCURRENT_INSERT := 7
  const TL_WRITE := 10

  // ---------------------------------------------------------------------
  // The backing store
  // ---------------------------------------------------------------------

  type Key = nat
  type Rows = seq<(Key, seq<byte>)>

  predicate DistinctKeys(rows: Rows)
  {
    forall i, j :: 0 <= i < j < |rows| ==> rows[i].0 != rows[j].0
  }

  /** The position of `k` in the iteration order, if stored. */
  function IndexOf(rows: Rows, k: Key): (r: Option<nat>)
    ensures r.Some? ==> r.value < |rows| && rows[r.value].0 == k
    ensures r.None? ==> forall i :: 0 <= i < |rows| ==> rows[i].0 != k
  {
    if rows == [] then None
    else if rows[0].0 == k then Some(0)
    else match IndexOf(rows[1..], k)
      case None => None
      case Some(i) => Some(i + 1)
  }

  lemma IndexOfDistinct(rows: Rows, i: nat)
    requires DistinctKeys(rows) && i < |rows|
    ensures IndexOf(rows, rows[i].0) == Some(i)
  {
  }

  /** The row stored under `k`. */
  function Lookup(rows: Rows, k: Key): (r: Option<seq<byte>>)
    ensures r.Some? <==> exists i :: 0 <= i < |rows| && rows[i].0 == k
  {
    match IndexOf(rows, k)
    case None => None
    case Some(i) => Some(rows[i].1)
  }

  /** tchdbput: replaces the row of a stored key in place, or appends a new
      record. */
  function Put(rows: Rows, k: Key, row: seq<byte>): (r: Rows)
    requires DistinctKeys(rows)
    ensures DistinctKeys(r) && Lookup(r, k) == Some(row)
    ensures forall k' :: k' != k ==> Lookup(r, k') == Lookup(rows, k')
    ensures IndexOf(rows, k).Some? ==> |r| == |rows| && forall i :: 0 <= i < |rows| ==> r[i].0 == rows[i].0
    ensures IndexOf(rows, k).None? ==> r == rows + [(k, row)]
  {
    match IndexOf(rows, k)
    case None =>
      var r := rows + [(k, row)];
      IndexOfDistinct(r, |rows|);
      forall k' | k' != k ensures Lookup(r, k') == Lookup(rows, k') {
        LookupAppend(rows, k, row, k');
      }
      r
    case Some(i) =>
      var r := rows[i := (k, row)];
      IndexOfDistinct(r, i);
      forall k' | k' != k ensures Lookup(r, k') == Lookup(rows, k') {
        LookupOther(rows, i, row, k');
      }
      r
  }

  lemma LookupAppend(rows: Rows, k: Key, row: seq<byte>, k': Key)
    requires k' != k
    ensures Lookup(rows + [(k, row)], k') == Lookup(rows, k')
  {
    IndexOfAppend(rows, (k, row), k');
  }

  lemma {:induction false} IndexOfAppend(rows: Rows, e: (Key, seq<byte>), k': Key)
    requires k' != e.0
    ensures IndexOf(rows + [e], k') == IndexOf(rows, k')
  {
    if rows != [] {
      assert (rows + [e])[1..] == rows[1..] + [e];
      IndexOfAppend(rows[1..], e, k');
    }
  }

  lemma {:induction false} LookupOther(rows: Rows, i: nat, row: seq<byte>, k': Key)
    requires i < |rows| && k' != rows[i].0
    ensures Lookup(rows[i := (rows[i].0, row)], k') == Lookup(rows, k')
  {
    IndexOfOther(rows, i, row, k');
  }

  lemma {:induction false} IndexOfOther(rows: Rows, i: nat, row: seq<byte>, k': Key)
    requires i < |rows| && k' != rows[i].0
    ensures IndexOf(rows[i := (rows[i].0, row)], k') == IndexOf(rows, k')
  {
    if i > 0 {
      assert rows[i := (rows[i].0, row)][1..] == rows[1..][i - 1 := (rows[i].0, row)];
      IndexOfOther(rows[1..], i - 1, row, k');
    }
  }

  /** tchdbout: removes the record of `k`. */
  function Remove(rows: Rows, k: Key): (r: Rows)
    requires DistinctKeys(rows)
    ensures DistinctKeys(r) && Lookup(r, k) == None
    ensures forall k' :: k' != k ==> Lookup(r, k') == Lookup(rows, k')
  {
    match IndexOf(rows, k)
    case None => rows
    case Some(i) =>
      var r := rows[..i] + rows[i + 1..];
      assert forall j :: 0 <= j < |r| ==> r[j] == (if j < i then rows[j] else rows[j + 1]);
      forall k' | k' != k ensures Lookup(r, k') == Lookup(rows, k') {
        IndexOfRemove(rows, i, k');
      }
      r
  }

  lemma {:induction false} IndexOfRemove(rows: Rows, i: nat, k': Key)
    requires i < |rows| && k' != rows[i].0
    ensures IndexOf(rows[..i] + rows[i + 1..], k').None? <==> IndexOf(rows, k').None?
    ensures Lookup(rows[..i] + rows[i + 1..], k') == Lookup(rows, k')
  {
    if i == 0 {
      assert rows[..0] + rows[1..] == rows[1..];
    } else {
      assert (rows[..i] + rows[i + 1..])[1..] == rows[1..][..i - 1] + rows[1..][i..];
      IndexOfRemove(rows[1..], i - 1, k');
    }
  }

  /** next_key_and_row: the first record when `k` is `None`, otherwise the
      record after `k`; `None` past the end or for a key not stored. */
  function NextAfter(rows: Rows, k: Option<Key>): (r: Option<(Key, seq<byte>)>)
    ensures k.None? ==> r == (if rows == [] then None else Some(rows[0]))
  {
    if k.None? then (if rows == [] then None else Some(rows[0]))
    else match IndexOf(rows, k.value)
      case None => None
      case Some(i) => if i + 1 < |rows| then Some(rows[i + 1]) else None
  }

  /** Scanning visits the records in iteration order: the record after the
      i-th is the (i+1)-th, and there is none after the last. */
  lemma NextAfterIsSuccessor(rows: Rows, i: nat)
    requires DistinctKeys(rows) && i < |rows|
    ensures NextAfter(rows, Some(rows[i].0)) == if i + 1 < |rows| then Some(rows[i + 1]) else None
  {
    IndexOfDistinct(rows, i);
  }

  /** The BlitzData dictionary of one table. */
  class BlitzData {
    var rows: Rows
    /** The next key generate_table_key hands out. */
    var nextKey: Key

    ghost predicate Valid()
      reads this
    {
      DistinctKeys(rows) && forall i :: 0 <= i < |rows| ==> rows[i].0 < nextKey
    }

    /** The store `startup` opens: what the data file holds, and the key
        counter past every stored key. */
    constructor (stored: Rows, nextKey: Key)
      requires DistinctKeys(stored) && forall i :: 0 <= i < |stored| ==> stored[i].0 < nextKey
      ensures Valid() && rows == stored && this.nextKey == nextKey
    {
      rows := stored;
      this.nextKey := nextKey;
    }

    /** generate_table_key: a key no stored record has. */
    method GenerateKey() returns (k: Key)
      requires Valid()
      modifies this
      ensures Valid() && rows == old(rows) && Lookup(rows, k) == None
      ensures k == old(nextKey) && nextKey == old(nextKey) + 1
    {
      k := nextKey;
      nextKey := nextKey + 1;
    }

    /** overwrite_row: `stored` is the outcome of the Tokyo Cabinet put,
        which lies outside this model.  On success the key holds the row;
        on failure nothing changes. */
    method OverwriteRow(k: Key, row: seq<byte>, stored: bool) returns (ok: bool)
      requires Valid() && k < nextKey
      modifies this
      ensures Valid() && nextKey == old(nextKey) && ok == stored
      ensures rows == if ok then Put(old(rows), k, row) else old(rows)
    {
      if !stored {
        return false;
      }
      var r := Put(rows, k, row);
      forall i | 0 <= i < |r| ensures r[i].0 < nextKey {
        if i >= |rows| {
          assert r[i].0 == k;
        }
      }
      rows := r;
      ok := true;
    }

    /** delete_row: false when no record has the key. */
    method DeleteRow(k: Key) returns (ok: bool)
      requires Valid()
      modifies this
      ensures Valid() && nextKey == old(nextKey) && rows == Remove(old(rows), k)
      ensures ok <==> Lookup(old(rows), k).Some?
    {
      ok := IndexOf(rows, k).Some?;
      var r := Remove(rows, k);
      forall i | 0 <= i < |r| ensures r[i].0 < nextKey {
        var j :| 0 <= j < |rows| && rows[j].0 == r[i].0 by {
          assert Lookup(r, r[i].0).Some?;
        }
      }
      rows := r;
    }
  }

  // ---------------------------------------------------------------------
  // Table layout and row images
  // ---------------------------------------------------------------------

  /** A column: a fixed-size field copied byte for byte, or a blob with a
      length prefix of `packlength` bytes.  `nullBit` is the position of
      its bit in the null bytes, when it is nullable. */
  datatype Column = Fixed(size: nat, nullBit: Option<nat>) | Blob(packlength: nat, nullBit: Option<nat>)

  /** The table definition: columns, the number of null bytes, and whether
      the table is fixed-length (created without HA_OPTION_PACK_RECORD). */
  datatype Layout = Layout(columns: seq<Column>, nullBytes: nat, fixedLength: bool)

  predicate ValidLayout(t: Layout)
  {
    forall c :: c in t.columns ==> (c.Blob? ==> 1 <= c.packlength <= 4 && !t.fixedLength)
  }

  /** A record: its null bytes and the value of each column (the bytes of a
      fixed field, the contents of a blob). */
  datatype Record = Record(nulls: seq<byte>, values: seq<seq<byte>>)

  predicate FitsColumn(c: Column, v: seq<byte>)
  {
    match c
    case Fixed(size, _) => |v| == size
    case Blob(pl, _) => 1 <= pl <= 4 && |v| <= BlobCodec.MaxLength(pl)
  }

  predicate WellFormedRecord(t: Layout, r: Record)
  {
    ValidLayout(t) && |r.nulls| == t.nullBytes && |r.values| == |t.columns| &&
    forall i :: 0 <= i < |t.columns| ==> FitsColumn(t.columns[i], r.values[i])
  }

  /** Bit `i` of `b`. */
  function Bit(b: nat, i: nat): bool
  {
    if i == 0 then b % 2 == 1 else Bit(b / 2, i - 1)
  }

  /** Field::is_null: the column's bit is set in the null bytes. */
  predicate IsNull(c: Column, nulls: seq<byte>)
  {
    c.nullBit.Some? && c.nullBit.value / 8 < |nulls| && Bit(nulls[c.nullBit.value / 8], c.nullBit.value % 8)
  }

  /** The bytes Field::pack writes for one column (a blob packed with no
      clip, as pack_row calls it). */
  function FieldImage(c: Column, v: seq<byte>): (r: seq<byte>)
    ensures c.Fixed? ==> r == v
    ensures c.Blob? && 1 <= c.packlength <= 4 ==>
      |r| == c.packlength + |v| && FromLE(r[..c.packlength]) == |v| % Pow256(c.packlength) && r[c.packlength..] == v
  {
    match c
    case Fixed(_, _) => v
    case Blob(pl, _) => BlobCodec.LengthBytes(|v|, pl) + v
  }

  /** The field images of columns i.. in order; with `skipNulls`, NULL
      columns write nothing. */
  function PackFields(cols: seq<Column>, nulls: seq<byte>, vals: seq<seq<byte>>, i: nat, skipNulls: bool): (r: seq<byte>)
    requires |vals| == |cols| && i <= |cols|
    decreases |cols| - i
  {
    if i == |cols| then []
    else
      if skipNulls && IsNull(cols[i], nulls) then PackFields(cols, nulls, vals, i + 1, skipNulls)
      else FieldImage(cols[i], vals[i]) + PackFields(cols, nulls, vals, i + 1, skipNulls)
  }

  /** Columns that are all skipped as NULL write nothing; fixed columns
      written in full take exactly the sum of their widths. */
  lemma {:induction false} PackFieldsShape(cols: seq<Column>, nulls: seq<byte>, vals: seq<seq<byte>>, i: nat, skipNulls: bool)
    requires |vals| == |cols| && i <= |cols|
    ensures (forall j :: i <= j < |cols| ==> skipNulls && IsNull(cols[j], nulls)) ==> PackFields(cols, nulls, vals, i, skipNulls) == []
    ensures !skipNulls && (forall j :: i <= j < |cols| ==> cols[j].Fixed? && |vals[j]| == cols[j].size) ==>
      |PackFields(cols, nulls, vals, i, skipNulls)| == SumWidths(cols[i..])
    decreases |cols| - i
  {
    if i < |cols| {
      PackFieldsShape(cols, nulls, vals, i + 1, skipNulls);
      assert cols[i..][1..] == cols[i + 1..];
    }
  }

  /** pack_row: the raw record for a fixed-length table; otherwise the null
      bytes followed by the image of every non-NULL column. */
  function PackedRow(t: Layout, r: Record): (image: seq<byte>)
    requires WellFormedRecord(t, r)
    ensures |image| >= t.nullBytes && image[..t.nullBytes] == r.nulls
    ensures t.fixedLength ==> |image| == RecLength(t)
  {
    assert t.columns[0..] == t.columns;
    assert t.fixedLength ==> forall j :: 0 <= j < |t.columns| ==> t.columns[j].Fixed? && |r.values[j]| == t.columns[j].size by {
      if t.fixedLength {
        forall j | 0 <= j < |t.columns|
          ensures t.columns[j].Fixed? && |r.values[j]| == t.columns[j].size
        {
          assert t.columns[j] in t.columns;
          assert FitsColumn(t.columns[j], r.values[j]);
        }
      }
    }
    PackFieldsShape(t.columns, r.nulls, r.values, 0, !t.fixedLength);
    r.nulls + PackFields(t.columns, r.nulls, r.values, 0, !t.fixedLength)
  }

  /** Field::unpack of one column from the front of `src`: the value and the
      number of bytes consumed, or `None` when `src` is too short. */
  function ReadField(c: Column, src: seq<byte>): (r: Option<(seq<byte>, nat)>)
    ensures r.Some? ==> r.value.1 <= |src|
  {
    match c
    case Fixed(size, _) => if size <= |src| then Some((src[..size], size)) else None
    case Blob(pl, _) =>
      if 1 <= pl <= 4 && pl <= |src| && pl + BlobCodec.GetLength(src, pl) <= |src| then
        Some(BlobCodec.ReadPacked(src, pl))
      else None
  }

  /** What Field::unpack consumed is the image of the value it read. */
  lemma ReadFieldImage(c: Column, src: seq<byte>)
    requires ReadField(c, src).Some?
    ensures FitsColumn(c, ReadField(c, src).value.0)
    ensures src[..ReadField(c, src).value.1] == FieldImage(c, ReadField(c, src).value.0)
  {
    if c.Blob? {
      var pl := c.packlength;
      var (payload, n) := BlobCodec.ReadPacked(src, pl);
      LengthImage(src, pl);
      assert src[..n] == src[..pl] + payload;
    }
  }

  lemma LengthImage(src: seq<byte>, pl: nat)
    requires 1 <= pl <= 4 && pl <= |src|
    ensures BlobCodec.LengthBytes(BlobCodec.GetLength(src, pl), pl) == src[..pl]
  {
    var n := BlobCodec.GetLength(src, pl);
    assert n == FromLE(src[..pl]);
    LEOfFromLE(src[..pl]);
  }

  /** unpack_row from the front of `src` for columns i..: the value of each
      column, where a NULL column (when `skipNulls`) keeps its old value. */
  function UnpackFields(cols: seq<Column>, nulls: seq<byte>, src: seq<byte>, olds: seq<seq<byte>>, i: nat, skipNulls: bool):
    (r: Option<seq<seq<byte>>>)
    requires |olds| == |cols| && i <= |cols|
    ensures r.Some? ==> |r.value| == |cols| - i
    decreases |cols| - i
  {
    if i == |cols| then Some([])
    else if skipNulls && IsNull(cols[i], nulls) then
      Prepend(olds[i], UnpackFields(cols, nulls, src, olds, i + 1, skipNulls))
    else match ReadField(cols[i], src)
      case None => None
      case Some((v, n)) => Prepend(v, UnpackFields(cols, nulls, src[n..], olds, i + 1, skipNulls))
  }

  lemma UnpackFieldsStep(cols: seq<Column>, nulls: seq<byte>, src: seq<byte>, olds: seq<seq<byte>>, i: nat, skip: bool)
    requires |olds| == |cols| && i < |cols| && UnpackFields(cols, nulls, src, olds, i, skip).Some?
    ensures skip && IsNull(cols[i], nulls) ==>
      UnpackFields(cols, nulls, src, olds, i + 1, skip).Some? &&
      UnpackFields(cols, nulls, src, olds, i, skip).value == [olds[i]] + UnpackFields(cols, nulls, src, olds, i + 1, skip).value
    ensures !(skip && IsNull(cols[i], nulls)) ==>
      ReadField(cols[i], src).Some? &&
      var (v, n) := ReadField(cols[i], src).value;
      UnpackFields(cols, nulls, src[n..], olds, i + 1, skip).Some? &&
      UnpackFields(cols, nulls, src, olds, i, skip).value == [v] + UnpackFields(cols, nulls, src[n..], olds, i + 1, skip).value
  {
  }

  function Prepend<T>(v: T, r: Option<seq<T>>): (p: Option<seq<T>>)
    ensures r.Some? <==> p.Some?
    ensures p.Some? ==> p.value == [v] + r.value
  {
    match r
    case None => None
    case Some(s) => Some([v] + s)
  }

  /** unpack_row: the record decoded from a stored row image, or `None`
      when the image is too short for the layout. */
  function UnpackedRow(t: Layout, src: seq<byte>, prev: Record): (r: Option<Record>)
    requires |prev.values| == |t.columns|
    ensures |src| < t.nullBytes ==> r.None?
    ensures r.Some? ==> r.value.nulls == src[..t.nullBytes]
  {
    if |src| < t.nullBytes then None
    else
      var nulls := src[..t.nullBytes];
      match UnpackFields(t.columns, nulls, src[t.nullBytes..], prev.values, 0, !t.fixedLength)
      case None => None
      case Some(vals) => Some(Record(nulls, vals))
  }

  /** The value each column has after unpacking what pack wrote: the packed
      value, or the old one for a NULL column of a packed table. */
  function Merged(t: Layout, r: Record, prev: Record): (m: seq<seq<byte>>)
    requires |r.values| == |t.columns| && |prev.values| == |t.columns|
    ensures |m| == |t.columns|
  {
    MergedFrom(t, r, prev, 0)
  }

  /** Column i's value after unpacking what pack wrote. */
  function MergedValue(t: Layout, r: Record, prev: Record, i: nat): seq<byte>
    requires |r.values| == |t.columns| && |prev.values| == |t.columns| && i < |t.columns|
  {
    if !t.fixedLength && IsNull(t.columns[i], r.nulls) then prev.values[i] else r.values[i]
  }

  /** The merged values of the columns from i on. */
  function MergedFrom(t: Layout, r: Record, prev: Record, i: nat): (m: seq<seq<byte>>)
    requires |r.values| == |t.columns| && |prev.values| == |t.columns| && i <= |t.columns|
    ensures |m| == |t.columns| - i
    decreases |t.columns| - i
  {
    if i == |t.columns| then [] else [MergedValue(t, r, prev, i)] + MergedFrom(t, r, prev, i + 1)
  }

  /** Entry k - i of the merged values from i on is column k's. */
  lemma {:induction false} MergedFromAt(t: Layout, r: Record, prev: Record, i: nat, k: nat)
    requires |r.values| == |t.columns| && |prev.values| == |t.columns| && i <= k < |t.columns|
    ensures MergedFrom(t, r, prev, i)[k - i] == MergedValue(t, r, prev, k)
    decreases k - i
  {
    if i < k {
      MergedFromAt(t, r, prev, i + 1, k);
    }
  }

  lemma {:induction false} UnpackPackFields(t: Layout, r: Record, prev: Record, i: nat, rest: seq<byte>)
    requires WellFormedRecord(t, r) && |prev.values| == |t.columns| && i <= |t.columns|
    ensures UnpackFields(t.columns, r.nulls, PackFields(t.columns, r.nulls, r.values, i, !t.fixedLength) + rest,
      prev.values, i, !t.fixedLength) == Some(MergedFrom(t, r, prev, i))
    decreases |t.columns| - i
  {
    if i == |t.columns| {
      UnpackPackNoColumns(t, r, prev, rest);
    } else {
      UnpackPackFields(t, r, prev, i + 1, rest);
      assert FitsColumn(t.columns[i], r.values[i]);
      UnpackPackColumn(t, r, prev, i, rest);
    }
  }

  /** Past the last column nothing is written and nothing is read. */
  lemma UnpackPackNoColumns(t: Layout, r: Record, prev: Record, rest: seq<byte>)
    requires |r.values| == |t.columns| && |prev.values| == |t.columns|
    ensures UnpackFields(t.columns, r.nulls, PackFields(t.columns, r.nulls, r.values, |t.columns|, !t.fixedLength) + rest,
      prev.values, |t.columns|, !t.fixedLength) == Some(MergedFrom(t, r, prev, |t.columns|))
  {
    assert PackFields(t.columns, r.nulls, r.values, |t.columns|, !t.fixedLength) + rest == rest;
  }

  /** One column of the round trip: if the columns after i come back, so
      do the columns from i on. */
  lemma UnpackPackColumn(t: Layout, r: Record, prev: Record, i: nat, rest: seq<byte>)
    requires |r.values| == |t.columns| && |prev.values| == |t.columns| && i < |t.columns|
    requires FitsColumn(t.columns[i], r.values[i])
    requires UnpackFields(t.columns, r.nulls, PackFields(t.columns, r.nulls, r.values, i + 1, !t.fixedLength) + rest,
      prev.values, i + 1, !t.fixedLength) == Some(MergedFrom(t, r, prev, i + 1))
    ensures UnpackFields(t.columns, r.nulls, PackFields(t.columns, r.nulls, r.values, i, !t.fixedLength) + rest,
      prev.values, i, !t.fixedLength) == Some(MergedFrom(t, r, prev, i))
  {
    var cols, skip := t.columns, !t.fixedLength;
    UnpackPackedFieldsStep(cols, r.nulls, r.values, prev.values, i, skip, rest);
  }

  /** Unpacking the images of the columns from i on: column i's value (or
      its old one when skipped), then what the images after it unpack to. */
  lemma UnpackPackedFieldsStep(cols: seq<Column>, nulls: seq<byte>, vals: seq<seq<byte>>, olds: seq<seq<byte>>,
                               i: nat, skip: bool, rest: seq<byte>)
    requires |vals| == |cols| && |olds| == |cols| && i < |cols| && FitsColumn(cols[i], vals[i])
    ensures UnpackFields(cols, nulls, PackFields(cols, nulls, vals, i, skip) + rest, olds, i, skip) ==
      Prepend(if skip && IsNull(cols[i], nulls) then olds[i] else vals[i],
              UnpackFields(cols, nulls, PackFields(cols, nulls, vals, i + 1, skip) + rest, olds, i + 1, skip))
  {
    var src := PackFields(cols, nulls, vals, i, skip) + rest;
    var after := PackFields(cols, nulls, vals, i + 1, skip) + rest;
    assert src == PackedColumn(cols[i], nulls, vals[i], skip) + after by {
      PackFieldsStep(cols, nulls, vals, i, skip);
      AppendAssoc(PackedColumn(cols[i], nulls, vals[i], skip), PackFields(cols, nulls, vals, i + 1, skip), rest);
    }
    UnpackPackedColumn(cols, nulls, vals, olds, i, skip, src, after);
  }

  /** Unpacking what pack wrote for column i gives back its value, or the
      old one for a skipped NULL column, and goes on after the image. */
  lemma UnpackPackedColumn(cols: seq<Column>, nulls: seq<byte>, vals: seq<seq<byte>>, olds: seq<seq<byte>>,
                           i: nat, skip: bool, src: seq<byte>, after: seq<byte>)
    requires |vals| == |cols| && |olds| == |cols| && i < |cols| && FitsColumn(cols[i], vals[i])
    requires src == PackedColumn(cols[i], nulls, vals[i], skip) + after
    ensures UnpackFields(cols, nulls, src, olds, i, skip) ==
      Prepend(if skip && IsNull(cols[i], nulls) then olds[i] else vals[i], UnpackFields(cols, nulls, after, olds, i + 1, skip))
  {
    if skip && IsNull(cols[i], nulls) {
      assert src == after;
    } else {
      var img := FieldImage(cols[i], vals[i]);
      ReadFieldOfImage(cols[i], vals[i], after);
      assert src[|img|..] == after;
    }
  }

  lemma ReadFieldOfImage(c: Column, v: seq<byte>, rest: seq<byte>)
    requires FitsColumn(c, v)
    ensures ReadField(c, FieldImage(c, v) + rest) == Some((v, |FieldImage(c, v)|))
  {
    match c
    case Fixed(size, _) =>
      assert (v + rest)[..size] == v;
    case Blob(pl, _) =>
      ReadBlobOfImage(pl, v, rest);
  }

  /** A blob image read back: the stored length, then the payload. */
  lemma ReadBlobOfImage(pl: nat, v: seq<byte>, rest: seq<byte>)
    requires 1 <= pl <= 4 && |v| <= BlobCodec.MaxLength(pl)
    ensures var src := BlobCodec.LengthBytes(|v|, pl) + v + rest;
      pl + BlobCodec.GetLength(src, pl) <= |src| && BlobCodec.ReadPacked(src, pl) == (v, pl + |v|)
  {
    var prefix := BlobCodec.LengthBytes(|v|, pl);
    var src := prefix + v + rest;
    StoredLengthOfImage(pl, v, rest);
    assert src[pl .. pl + |v|] == v;
  }

  /** The length stored in front of a blob image is the payload's length. */
  lemma StoredLengthOfImage(pl: nat, v: seq<byte>, rest: seq<byte>)
    requires 1 <= pl <= 4 && |v| <= BlobCodec.MaxLength(pl)
    ensures BlobCodec.GetLength(BlobCodec.LengthBytes(|v|, pl) + v + rest, pl) == |v|
  {
    var prefix := BlobCodec.LengthBytes(|v|, pl);
    assert prefix + v + rest == prefix + (v + rest);
    BlobCodec.LengthRoundTrip(|v|, pl, v + rest);
  }

  /** Unpacking a packed row restores the null bytes and every value, except
      that a NULL column of a packed table keeps what the buffer held. */
  lemma UnpackPackRoundTrip(t: Layout, r: Record, prev: Record)
    requires WellFormedRecord(t, r) && |prev.values| == |t.columns|
    ensures UnpackedRow(t, PackedRow(t, r), prev) == Some(Record(r.nulls, Merged(t, r, prev)))
  {
    var image := PackedRow(t, r);
    var body := PackFields(t.columns, r.nulls, r.values, 0, !t.fixedLength);
    assert image[..t.nullBytes] == r.nulls;
    assert image[t.nullBytes..] == body + [];
    UnpackPackFields(t, r, prev, 0, []);
  }

  /** Every non-NULL value comes back unchanged. */
  lemma UnpackPackKeepsValues(t: Layout, r: Record, prev: Record, i: nat)
    requires WellFormedRecord(t, r) && |prev.values| == |t.columns| && i < |t.columns|
    requires t.fixedLength || !IsNull(t.columns[i], r.nulls)
    ensures UnpackedRow(t, PackedRow(t, r), prev).Some?
    ensures UnpackedRow(t, PackedRow(t, r), prev).value.values[i] == r.values[i]
  {
    UnpackPackRoundTrip(t, r, prev);
    MergedFromAt(t, r, prev, 0, i);
  }

  /** A NULL column of a packed table is not unpacked: the record buffer
      keeps what it held. */
  lemma UnpackPackKeepsNullColumns(t: Layout, r: Record, prev: Record, i: nat)
    requires WellFormedRecord(t, r) && |prev.values| == |t.columns| && i < |t.columns|
    requires !t.fixedLength && IsNull(t.columns[i], r.nulls)
    ensures UnpackedRow(t, PackedRow(t, r), prev).Some?
    ensures UnpackedRow(t, PackedRow(t, r), prev).value.values[i] == prev.values[i]
  {
    UnpackPackRoundTrip(t, r, prev);
    MergedFromAt(t, r, prev, 0, i);
  }

  // ---------------------------------------------------------------------
  // max_row_length
  // ---------------------------------------------------------------------

  /** The bytes a column occupies in the record buffer (reclength). */
  function RecordWidth(c: Column): nat
  {
    match c
    case Fixed(size, _) => size
    case Blob(pl, _) => pl + PTR_SIZE
  }

  function RecLength(t: Layout): nat
  {
    t.nullBytes + SumWidths(t.columns)
  }

  function SumWidths(cols: seq<Column>): nat
  {
    if cols == [] then 0 else RecordWidth(cols[0]) + SumWidths(cols[1..])
  }

  /** The Σ over blob columns of (2 + blob length). */
  function BlobExtra(cols: seq<Column>, vals: seq<seq<byte>>): (n: nat)
    requires |vals| == |cols|
    ensures forall i :: 0 <= i < |cols| && cols[i].Blob? ==> n >= 2 + |vals[i]|
  {
    if cols == [] then 0
    else
      var rest := BlobExtra(cols[1..], vals[1..]);
      assert forall i :: 1 <= i < |cols| ==> cols[1..][i - 1] == cols[i] && vals[1..][i - 1] == vals[i];
      (if cols[0].Blob? then 2 + |vals[0]| else 0) + rest
  }

  /** max_row_length: reclength + 2 per field + (2 + length) per blob. */
  function MaxRowLength(t: Layout, r: Record): (n: nat)
    requires |r.values| == |t.columns|
    ensures n >= RecLength(t) + 2 * |t.columns|
    ensures forall i :: 0 <= i < |t.columns| && t.columns[i].Blob? ==>
      n >= RecLength(t) + 2 * |t.columns| + 2 + |r.values[i]|
  {
    RecLength(t) + 2 * |t.columns| + BlobExtra(t.columns, r.values)
  }

  lemma {:induction false} PackFieldsBound(cols: seq<Column>, nulls: seq<byte>, vals: seq<seq<byte>>, i: nat, skip: bool)
    requires |vals| == |cols| && i <= |cols|
    requires forall j :: 0 <= j < |cols| ==> FitsColumn(cols[j], vals[j])
    ensures |PackFields(cols, nulls, vals, i, skip)| <= SumWidths(cols[i..]) + BlobExtra(cols[i..], vals[i..])
    decreases |cols| - i
  {
    if i < |cols| {
      PackFieldsBound(cols, nulls, vals, i + 1, skip);
      assert cols[i..][1..] == cols[i + 1..];
      assert vals[i..][1..] == vals[i + 1..];
      assert FitsColumn(cols[i], vals[i]);
    }
  }

  /** A packed row never exceeds max_row_length, so a buffer of that size
      holds it. */
  lemma PackedRowFitsMaxRowLength(t: Layout, r: Record)
    requires WellFormedRecord(t, r)
    ensures |PackedRow(t, r)| <= MaxRowLength(t, r)
  {
    assert t.columns[0..] == t.columns && r.values[0..] == r.values;
    PackFieldsBound(t.columns, r.nulls, r.values, 0, !t.fixedLength);
  }

  /** pack_row writing into `buf`: the length written and the image. */
  method PackRow(t: Layout, buf: array<byte>, r: Record) returns (len: nat)
    requires WellFormedRecord(t, r) && |PackedRow(t, r)| <= buf.Length
    modifies buf
    ensures len == |PackedRow(t, r)| && buf[..len] == PackedRow(t, r)
  {
    ghost var whole := PackedRow(t, r);
    var skip := !t.fixedLength;
    assert |r.nulls| <= |whole|;
    CopyInto(buf, 0, r.nulls);
    var pos: nat := |r.nulls|;
    assert buf[..pos] == r.nulls;
    len := PackColumns(t, buf, r, pos);
  }

  /** The column loop of pack_row: every column's image, unless it is a
      skipped NULL, appended after the `start` bytes already written, which
      begin the row's image. */
  method PackColumns(t: Layout, buf: array<byte>, r: Record, start: nat) returns (pos: nat)
    requires WellFormedRecord(t, r) && start <= buf.Length && |PackedRow(t, r)| <= buf.Length
    requires buf[..start] + PackFields(t.columns, r.nulls, r.values, 0, !t.fixedLength) == PackedRow(t, r)
    modifies buf
    ensures pos == |PackedRow(t, r)| && buf[..pos] == PackedRow(t, r)
  {
    pos := start;
    var i := 0;
    while i < |t.columns|
      invariant 0 <= i <= |t.columns|
      invariant pos <= buf.Length
      invariant buf[..pos] + PackFields(t.columns, r.nulls, r.values, i, !t.fixedLength) == PackedRow(t, r)
    {
      ghost var written := buf[..pos];
      ghost var tail := PackFields(t.columns, r.nulls, r.values, i + 1, !t.fixedLength);
      PackFieldsStep(t.columns, r.nulls, r.values, i, !t.fixedLength);
      pos := PackColumn(t, buf, r, i, pos);
      AppendStep(written, PackedColumn(t.columns[i], r.nulls, r.values[i], !t.fixedLength), tail, buf[..pos]);
      i := i + 1;
    }
    assert buf[..pos] + [] == buf[..pos];
  }

  /** The bytes pack_row writes for one column: its image, or nothing for a
      NULL column when NULL columns are skipped. */
  function PackedColumn(c: Column, nulls: seq<byte>, v: seq<byte>, skipNulls: bool): seq<byte>
  {
    if skipNulls && IsNull(c, nulls) then [] else FieldImage(c, v)
  }

  /** One column of PackFields: what is written for it, then the rest. */
  lemma PackFieldsStep(cols: seq<Column>, nulls: seq<byte>, vals: seq<seq<byte>>, i: nat, skipNulls: bool)
    requires |vals| == |cols| && i < |cols|
    ensures PackFields(cols, nulls, vals, i, skipNulls) ==
      PackedColumn(cols[i], nulls, vals[i], skipNulls) + PackFields(cols, nulls, vals, i + 1, skipNulls)
  {
    if skipNulls && IsNull(cols[i], nulls) {
      assert [] + PackFields(cols, nulls, vals, i + 1, skipNulls) == PackFields(cols, nulls, vals, i + 1, skipNulls);
    }
  }

  /** Bytes `x` holding `w` then `img`, followed by `tail`, are `w` followed
      by `img` and `tail`. */
  lemma AppendStep(w: seq<byte>, img: seq<byte>, tail: seq<byte>, x: seq<byte>)
    requires x == w + img
    ensures x + tail == w + (img + tail)
  {
  }

  /** One step of pack_row: column i's image, unless it is a skipped NULL,
      appended to the `pos` bytes already written. */
  method PackColumn(t: Layout, buf: array<byte>, r: Record, i: nat, pos: nat) returns (next: nat)
    requires |r.values| == |t.columns| && i < |t.columns|
    requires pos + |PackedColumn(t.columns[i], r.nulls, r.values[i], !t.fixedLength)| <= buf.Length
    modifies buf
    ensures next <= buf.Length
    ensures buf[..next] == old(buf[..pos]) + PackedColumn(t.columns[i], r.nulls, r.values[i], !t.fixedLength)
  {
    if !t.fixedLength && IsNull(t.columns[i], r.nulls) {
      next := pos;
      assert old(buf[..pos]) + [] == buf[..pos];
    } else {
      var img := FieldImage(t.columns[i], r.values[i]);
      AppendInto(buf, pos, img);
      next := pos + |img|;
    }
  }

  /** `img` copied after the first `pos` bytes of `buf`. */
  method AppendInto(buf: array<byte>, pos: nat, img: seq<byte>)
    requires pos + |img| <= buf.Length
    modifies buf
    ensures buf[..pos + |img|] == old(buf[..pos]) + img
  {
    ghost var before := buf[..pos];
    CopyInto(buf, pos, img);
    assert buf[..pos] == before;
    assert buf[pos..pos + |img|] == img;
    assert buf[..pos + |img|] == buf[..pos] + buf[pos..pos + |img|];
  }

  /** unpack_row: decodes the image `src` over the record buffer `prev`. */
  method UnpackRow(t: Layout, src: seq<byte>, prev: Record) returns (r: Record)
    requires |prev.values| == |t.columns|
    requires UnpackedRow(t, src, prev).Some?
    ensures r == UnpackedRow(t, src, prev).value
  {
    UnpackedRowFields(t, src, prev);
    var nulls := src[..t.nullBytes];
    var vals := UnpackColumns(t.columns, nulls, src[t.nullBytes..], prev.values, !t.fixedLength);
    r := Record(nulls, vals);
  }

  /** The field loop of unpack_row; `rest` is what lies past the read
      pointer. */
  method UnpackColumns(cols: seq<Column>, nulls: seq<byte>, src: seq<byte>, olds: seq<seq<byte>>, skip: bool)
    returns (vals: seq<seq<byte>>)
    requires |olds| == |cols| && UnpackFields(cols, nulls, src, olds, 0, skip).Some?
    ensures vals == UnpackFields(cols, nulls, src, olds, 0, skip).value
  {
    var rest := src;
    vals := [];
    var i := 0;
    ghost var whole := UnpackFields(cols, nulls, src, olds, 0, skip).value;
    while i < |cols|
      invariant 0 <= i <= |cols| && |vals| == i
      invariant UnpackFields(cols, nulls, rest, olds, i, skip).Some?
      invariant whole == vals + UnpackFields(cols, nulls, rest, olds, i, skip).value
    {
      var v, n := UnpackColumn(cols, nulls, rest, olds, i, skip);
      AppendOne(vals, v, UnpackFields(cols, nulls, rest[n..], olds, i + 1, skip).value);
      vals := vals + [v];
      rest := rest[n..];
      i := i + 1;
    }
    assert UnpackFields(cols, nulls, rest, olds, i, skip).value == [];
  }

  /** A decodable image is its null bytes and the decoded fields. */
  lemma UnpackedRowFields(t: Layout, src: seq<byte>, prev: Record)
    requires |prev.values| == |t.columns| && UnpackedRow(t, src, prev).Some?
    ensures t.nullBytes <= |src|
    ensures UnpackFields(t.columns, src[..t.nullBytes], src[t.nullBytes..], prev.values, 0, !t.fixedLength).Some?
    ensures UnpackedRow(t, src, prev).value ==
      Record(src[..t.nullBytes], UnpackFields(t.columns, src[..t.nullBytes], src[t.nullBytes..], prev.values, 0, !t.fixedLength).value)
  {
  }

  /** One step of unpack_row: column i's value read from the front of `src`
      and the bytes it took, or its old value and none for a skipped NULL. */
  method UnpackColumn(cols: seq<Column>, nulls: seq<byte>, src: seq<byte>, olds: seq<seq<byte>>, i: nat, skip: bool)
    returns (v: seq<byte>, n: nat)
    requires |olds| == |cols| && i < |cols| && UnpackFields(cols, nulls, src, olds, i, skip).Some?
    ensures n <= |src| && UnpackFields(cols, nulls, src[n..], olds, i + 1, skip).Some?
    ensures UnpackFields(cols, nulls, src, olds, i, skip).value == [v] + UnpackFields(cols, nulls, src[n..], olds, i + 1, skip).value
  {
    UnpackFieldsStep(cols, nulls, src, olds, i, skip);
    if skip && IsNull(cols[i], nulls) {
      v, n := olds[i], 0;
      assert src[0..] == src;
    } else {
      var read := ReadField(cols[i], src).value;
      v, n := read.0, read.1;
    }
  }

  // ---------------------------------------------------------------------
  // get_pack_buffer
  // ---------------------------------------------------------------------

  /** The buffer a row is packed into: the on-stack buffer, the secondary
      heap buffer, or NULL after a failed realloc. */
  datatype PackBuffer = StackBuffer | SecondaryBuffer | NullBuffer

  function Capacity(b: PackBuffer, secondarySize: nat): nat
  {
    match b
    case StackBuffer => BLITZ_MAX_ROW_STACK
    case SecondaryBuffer => secondarySize
    case NullBuffer => 0
  }

  /** get_pack_buffer as the code stands: the buffer and the new secondary
      size.  A large row returns the secondary buffer only on the call that
      grows it. */
  function PackBufferAsWritten(rowLength: nat, secondarySize: nat, reallocOk: bool): (r: (PackBuffer, nat))
    ensures rowLength <= BLITZ_MAX_ROW_STACK ==> r == (StackBuffer, secondarySize)
    ensures rowLength > BLITZ_MAX_ROW_STACK && rowLength <= secondarySize ==> r.0 == StackBuffer
  {
    if rowLength > BLITZ_MAX_ROW_STACK then
      if rowLength > secondarySize then
        if reallocOk then (SecondaryBuffer, rowLength) else (NullBuffer, secondarySize)
      else (StackBuffer, secondarySize)
    else (StackBuffer, secondarySize)
  }

  /** A second large row of the same size gets the 2048-byte stack buffer. */
  lemma PackBufferAsWrittenOverflows()
    ensures PackBufferAsWritten(3000, 0, true) == (SecondaryBuffer, 3000)
    ensures PackBufferAsWritten(3000, 3000, true) == (StackBuffer, 3000)
    ensures Capacity(StackBuffer, 3000) < 3000
  {
  }

  /** A large row whose secondary buffer cannot be grown gets NULL, which
      write_row and update_row hand to pack_row without a check. */
  lemma PackBufferAsWrittenCanBeNull()
    ensures PackBufferAsWritten(3000, 0, false) == (NullBuffer, 0)
    ensures Capacity(NullBuffer, 0) < 3000
  {
  }

  /** get_pack_buffer as intended: a row larger than the stack buffer always
      goes to the secondary buffer, grown when needed. */
  function PackBufferChoice(rowLength: nat, secondarySize: nat, reallocOk: bool): (r: (PackBuffer, nat))
    ensures r.0 != NullBuffer ==> rowLength <= Capacity(r.0, r.1)
    ensures r.1 >= secondarySize
    ensures r.0 == NullBuffer <==> rowLength > BLITZ_MAX_ROW_STACK && rowLength > secondarySize && !reallocOk
  {
    if rowLength > BLITZ_MAX_ROW_STACK then
      if rowLength > secondarySize then
        if reallocOk then (SecondaryBuffer, rowLength) else (NullBuffer, secondarySize)
      else (SecondaryBuffer, secondarySize)
    else (StackBuffer, secondarySize)
  }

  /** Both agree except on the large row that fits the grown buffer. */
  lemma PackBufferAgreement(rowLength: nat, secondarySize: nat, reallocOk: bool)
    requires !(BLITZ_MAX_ROW_STACK < rowLength <= secondarySize)
    ensures PackBufferAsWritten(rowLength, secondarySize, reallocOk) == PackBufferChoice(rowLength, secondarySize, reallocOk)
  {
  }

  // ---------------------------------------------------------------------
  // store_lock
  // ---------------------------------------------------------------------

  /** The lock type store_lock leaves in `lock.type`: a request on an
      unlocked table is taken, with TL_WRITE_CONCURRENT_INSERT..TL_WRITE
      relaxed to TL_WRITE_ALLOW_WRITE outside a tablespace operation; a
      lock already held, or TL_IGNORE, changes nothing. */
  function StoreLockType(current: int, requested: int, tablespaceOp: bool): (r: int)
    ensures current != TL_UNLOCK || requested == TL_IGNORE ==> r == current
    ensures current == TL_UNLOCK && requested != TL_IGNORE ==>
      (if TL_WRITE_CONCURRENT_INSERT <= requested <= TL_WRITE && !tablespaceOp
       then r == TL_WRITE_ALLOW_WRITE else r == requested)
  {
    if requested != TL_IGNORE && current == TL_UNLOCK then
      if TL_WRITE_CONCURRENT_INSERT <= requested <= TL_WRITE && !tablespaceOp then TL_WRITE_ALLOW_WRITE
      else requested
    else current
  }

  /** Asking twice for the same lock is the same as asking once, and a
      strong write lock is never taken outside a tablespace operation. */
  lemma StoreLockIdempotent(current: int, requested: int, tablespaceOp: bool)
    ensures var once := StoreLockType(current, requested, tablespaceOp);
      StoreLockType(once, requested, tablespaceOp) == once
    ensures current == TL_UNLOCK && !tablespaceOp ==>
      !(TL_WRITE_CONCURRENT_INSERT <= StoreLockType(current, requested, tablespaceOp) <= TL_WRITE)
  {
  }

  // ---------------------------------------------------------------------
  // The share and the table cache
  // ---------------------------------------------------------------------

  /** BlitzShare: one open table, shared by every cursor on it. */
  class BlitzShare {
    const tableName: string
    const layout: Layout
    const dict: BlitzData
    var useCount: nat

    /** The store is consistent and every stored row decodes under the
        table's layout. */
    ghost predicate Valid()
      reads this, dict
    {
      dict.Valid() && ValidLayout(layout) &&
      forall i :: 0 <= i < |dict.rows| ==> Decodes(layout, dict.rows[i].1)
    }

    /** A share over a freshly opened store, with no users yet. */
    constructor (name: string, layout: Layout, stored: Rows, nextKey: Key)
      requires OpenableStore(layout, stored, nextKey)
      ensures Valid() && tableName == name && this.layout == layout && useCount == 0 && fresh(dict)
      ensures dict.rows == stored && dict.nextKey == nextKey
    {
      tableName := name;
      this.layout := layout;
      dict := new BlitzData(stored, nextKey);
      useCount := 0;
    }
  }

  /** What a data file `startup` can open holds: distinct keys below the
      counter, each row decodable under the table's layout. */
  ghost predicate OpenableStore(layout: Layout, stored: Rows, nextKey: Key)
  {
    ValidLayout(layout) && DistinctKeys(stored) &&
    (forall i :: 0 <= i < |stored| ==> stored[i].0 < nextKey) &&
    (forall i :: 0 <= i < |stored| ==> Decodes(layout, stored[i].1))
  }

  /** A row image this layout can decode whatever the record buffer held. */
  ghost predicate Decodes(t: Layout, src: seq<byte>)
  {
    forall prev: Record :: |prev.values| == |t.columns| ==> UnpackedRow(t, src, prev).Some?
  }

  /** One more row returned by a scan: the rows returned so far, each
      decoded over `buf`, followed by the next row decoded over `buf`. */
  lemma ExtendScan(t: Layout, rows: Rows, buf: Record, outs: seq<Record>, out: Record)
    requires |buf.values| == |t.columns| && |outs| < |rows|
    requires forall j :: 0 <= j < |rows| ==> UnpackedRow(t, rows[j].1, buf).Some?
    requires forall j :: 0 <= j < |outs| ==> outs[j] == UnpackedRow(t, rows[j].1, buf).value
    requires out == UnpackedRow(t, rows[|outs|].1, buf).value
    ensures forall j :: 0 <= j < |outs| + 1 ==> (outs + [out])[j] == UnpackedRow(t, rows[j].1, buf).value
  {
    forall j | 0 <= j < |outs| + 1
      ensures (outs + [out])[j] == UnpackedRow(t, rows[j].1, buf).value
    {
      if j < |outs| {
        assert (outs + [out])[j] == outs[j];
      }
    }
  }

  lemma {:induction false} UnpackFieldsDefinedness(cols: seq<Column>, nulls: seq<byte>, src: seq<byte>,
                                                     a: seq<seq<byte>>, b: seq<seq<byte>>, i: nat, skip: bool)
    requires |a| == |cols| && |b| == |cols| && i <= |cols|
    ensures UnpackFields(cols, nulls, src, a, i, skip).Some? == UnpackFields(cols, nulls, src, b, i, skip).Some?
    decreases |cols| - i
  {
    if i < |cols| {
      if skip && IsNull(cols[i], nulls) {
        UnpackFieldsDefinedness(cols, nulls, src, a, b, i + 1, skip);
      } else if ReadField(cols[i], src).Some? {
        var (v, n) := ReadField(cols[i], src).value;
        UnpackFieldsDefinedness(cols, nulls, src[n..], a, b, i + 1, skip);
      }
    }
  }

  /** A packed row of a well-formed record decodes. */
  lemma PackedRowDecodes(t: Layout, r: Record)
    requires WellFormedRecord(t, r)
    ensures Decodes(t, PackedRow(t, r))
  {
    forall prev: Record | |prev.values| == |t.columns|
      ensures UnpackedRow(t, PackedRow(t, r), prev).Some?
    {
      UnpackPackRoundTrip(t, r, prev);
    }
  }

  /** get_share's effect on the use counts. */
  function GetCounts(c: map<string, nat>, name: string, startupOk: bool): (r: map<string, nat>)
    ensures name in c ==> r == c[name := c[name] + 1]
    ensures name !in c && startupOk ==> r == c[name := 1]
    ensures name !in c && !startupOk ==> r == c
  {
    if name in c then c[name := c[name] + 1]
    else if startupOk then c[name := 1]
    else c
  }

  /** free_share's effect on the use counts: one fewer user; at zero the
      entry goes, unless shutdown fails. */
  function FreeCounts(c: map<string, nat>, name: string, shutdownOk: bool): (r: map<string, nat>)
    requires name in c && c[name] > 0
    ensures c[name] == 1 && shutdownOk ==> r == c - {name}
    ensures !(c[name] == 1 && shutdownOk) ==> r == c[name := c[name] - 1]
  {
    if c[name] - 1 == 0 && shutdownOk then c - {name} else c[name := c[name] - 1]
  }

  /** Opening and closing a table leaves the cache as it was, unless the
      entry was a stale one left at zero by a failed shutdown, which the
      close then removes. */
  lemma GetFreeRoundTrip(c: map<string, nat>, name: string)
    ensures name in GetCounts(c, name, true) && GetCounts(c, name, true)[name] > 0
    ensures FreeCounts(GetCounts(c, name, true), name, true) ==
      if name in c && c[name] == 0 then c - {name} else c
  {
    var g := GetCounts(c, name, true);
    var f := FreeCounts(g, name, true);
    if name in c && c[name] > 0 {
      assert f == c;
    } else if name !in c {
      assert f == c;
    }
  }

  /** An entry leaves the cache only when its last user closes it and
      shutdown succeeds. */
  lemma FreeRemovesOnlyAtZero(c: map<string, nat>, name: string, shutdownOk: bool)
    requires name in c && c[name] > 0
    ensures name !in FreeCounts(c, name, shutdownOk) <==> c[name] == 1 && shutdownOk
    ensures FreeCounts(c, name, shutdownOk).Keys == c.Keys - (if c[name] == 1 && shutdownOk then {name} else {})
  {
  }

  /** The process-wide table cache (blitz_table_cache). */
  class TableCache {
    var cache: map<string, BlitzShare>
    ghost var shares: set<BlitzShare>

    ghost predicate Valid()
      reads this, shares
    {
      (forall n :: n in cache ==> cache[n] in shares && cache[n].tableName == n) &&
      (forall s :: s in shares ==> s.tableName in cache && cache[s.tableName] == s)
    }

    /** The use count of each cached table. */
    ghost function Counts(): (r: map<string, nat>)
      reads this, shares
      requires Valid()
      ensures r.Keys == cache.Keys
    {
      map n | n in cache :: cache[n].useCount
    }

    constructor ()
      ensures Valid() && cache == map[] && Counts() == map[]
    {
      cache := map[];
      shares := {};
    }

    /** get_share: the cached share with one more user, or a new share with
        one user (`startupOk` says whether opening the store succeeds); NULL
        and nothing cached when it fails. */
    method GetShare(name: string, layout: Layout, startupOk: bool, stored: Rows, nextKey: Key) returns (share: BlitzShare?)
      requires Valid() && OpenableStore(layout, stored, nextKey)
      modifies this, shares
      ensures Valid()
      ensures Counts() == GetCounts(old(Counts()), name, startupOk)
      ensures forall n :: n in old(cache) ==> n in cache && cache[n] == old(cache[n])
      ensures name in old(cache) ==> share == old(cache[name])
      ensures name !in old(cache) && startupOk ==> share != null && fresh(share) && share.Valid() && share.tableName == name && cache[name] == share
      ensures name !in old(cache) && startupOk ==> share != null && share.dict.rows == stored
      ensures share == null <==> name !in old(cache) && !startupOk
    {
      if name in cache {
        share := Reuse(name);
        return;
      }
      if !startupOk {
        return null;
      }
      share := Open(name, layout, stored, nextKey);
    }

    /** get_share on a cached table: one more user. */
    method Reuse(name: string) returns (share: BlitzShare)
      requires Valid() && name in cache
      modifies cache[name]
      ensures Valid() && share == cache[name] && unchanged(this)
      ensures Counts() == old(Counts())[name := old(Counts())[name] + 1]
    {
      share := cache[name];
      share.useCount := share.useCount + 1;
      assert Counts() == old(Counts())[name := old(Counts())[name] + 1] by {
        assert Counts().Keys == old(Counts()).Keys;
        forall n | n in cache
          ensures Counts()[n] == old(Counts())[name := old(Counts())[name] + 1][n]
        {
          if n != name {
            assert cache[n] != share;
          }
        }
      }
    }

    /** get_share on a table not cached: a new share with one user. */
    method Open(name: string, layout: Layout, stored: Rows, nextKey: Key) returns (share: BlitzShare)
      requires Valid() && name !in cache && OpenableStore(layout, stored, nextKey)
      modifies this
      ensures Valid() && fresh(share) && share.Valid() && share.tableName == name
      ensures share.dict.rows == stored
      ensures cache == old(cache)[name := share] && shares == old(shares) + {share}
      ensures Counts() == old(Counts())[name := 1]
    {
      share := new BlitzShare(name, layout, stored, nextKey);
      share.useCount := 1;
      cache := cache[name := share];
      shares := shares + {share};
    }

    /** free_share: one user fewer; at zero the store is shut down and the
        entry removed, unless shutdown fails, which returns
        HA_ERR_CRASHED_ON_USAGE and leaves the zero-count entry cached. */
    method FreeShare(share: BlitzShare, shutdownOk: bool) returns (err: int)
      requires Valid() && share in shares && share.useCount > 0
      modifies this, share
      ensures Valid()
      ensures old(share.tableName in Counts()) && Counts() == FreeCounts(old(Counts()), share.tableName, shutdownOk)
      ensures err == (if old(share.useCount) == 1 && !shutdownOk then HA_ERR_CRASHED_ON_USAGE else 0)
      ensures cache == (if old(share.useCount) == 1 && shutdownOk then old(cache) - {share.tableName} else old(cache))
      ensures shares == (if old(share.useCount) == 1 && shutdownOk then old(shares) - {share} else old(shares))
    {
      Decrement(share);
      if share.useCount == 0 {
        if !shutdownOk {
          return HA_ERR_CRASHED_ON_USAGE;
        }
        Evict(share);
      }
      err := 0;
    }

    /** One user fewer on a cached share. */
    method Decrement(share: BlitzShare)
      requires Valid() && share in shares && share.useCount > 0
      modifies share
      ensures Valid() && share.tableName in Counts()
      ensures share.useCount == old(share.useCount) - 1
      ensures Counts() == old(Counts())[share.tableName := old(share.useCount) - 1]
    {
      share.useCount := share.useCount - 1;
      assert Counts() == old(Counts())[share.tableName := old(share.useCount) - 1] by {
        forall n | n in cache
          ensures Counts()[n] == old(Counts())[share.tableName := old(share.useCount) - 1][n]
        {
          if n != share.tableName {
            assert cache[n] != share;
          }
        }
      }
    }

    /** Removes a share from the cache. */
    method Evict(share: BlitzShare)
      requires Valid() && share in shares
      modifies this
      ensures Valid() && Counts() == old(Counts()) - {share.tableName}
      ensures cache == old(cache) - {share.tableName} && shares == old(shares) - {share}
    {
      cache := cache - {share.tableName};
      shares := shares - {share};
    }
  }

  // ---------------------------------------------------------------------
  // The cursor (ha_blitz)
  // ---------------------------------------------------------------------

  /** One ha_blitz cursor on an open table.  A key fetched from the store
      lives in a heap buffer together with its row; `live` holds the ids of
      the buffers the cursor owns and `freed` those it has released. */
  class BlitzCursor {
    const share: BlitzShare
    var tableScan: bool
    /** Set by scan_lock and cleared by scan_unlock. */
    var threadLocked: bool
    var currentKey: Option<Key>
    var currentRow: seq<byte>
    var updateableKey: Option<Key>
    var lockType: int
    /** pack_buffer, the BLITZ_MAX_ROW_STACK bytes kept with the cursor. */
    const packBuffer: array<byte>
    /** secondary_row_buffer and its size, grown for rows that do not fit
        pack_buffer. */
    var secondaryBuffer: array<byte>
    var secondarySize: nat

    ghost var currentBuf: nat
    ghost var updateableBuf: nat
    ghost var live: set<nat>
    ghost var freed: set<nat>
    /** Buffers the cursor still owns but no longer points to. */
    ghost var leaked: set<nat>
    ghost var nextBuf: nat

    ghost function Held(): set<nat>
      reads this
    {
      (if currentKey.Some? then {currentBuf} else {}) + (if updateableKey.Some? then {updateableBuf} else {})
    }

    ghost predicate Valid()
      reads this, share, share.dict
    {
      share.Valid() &&
      live == Held() + leaked && Held() !! leaked &&
      (currentKey.Some? && updateableKey.Some? ==> currentBuf != updateableBuf) &&
      live !! freed &&
      (forall b :: b in live + freed ==> b < nextBuf) &&
      (currentKey.Some? ==> Decodes(share.layout, currentRow)) &&
      packBuffer.Length == BLITZ_MAX_ROW_STACK && secondaryBuffer.Length == secondarySize
    }

    constructor (share: BlitzShare)
      requires share.Valid()
      ensures Valid() && this.share == share
      ensures currentKey == None && updateableKey == None && live == {} && leaked == {} && !tableScan
      ensures lockType == TL_UNLOCK && secondarySize == 0
    {
      this.share := share;
      tableScan := false;
      threadLocked := false;
      currentKey := None;
      currentRow := [];
      updateableKey := None;
      lockType := TL_UNLOCK;
      packBuffer := new byte[BLITZ_MAX_ROW_STACK];
      secondaryBuffer := new byte[0];
      secondarySize := 0;
      live := {};
      freed := {};
      leaked := {};
      nextBuf := 0;
    }

    /** free(): releases a buffer the cursor owns, exactly once. */
    ghost method Release(b: nat)
      requires b in live && b !in freed
      modifies this`live, this`freed
      ensures live == old(live) - {b} && freed == old(freed) + {b}
    {
      live := live - {b};
      freed := freed + {b};
    }

    /** Fetches the record after `after` into a fresh buffer that becomes
        the current key. */
    method FetchCurrent(after: Option<Key>)
      requires share.Valid() && live !! freed && (forall b :: b in live + freed ==> b < nextBuf)
      requires currentKey.None? && live == Held() + leaked && Held() !! leaked
      modifies this`currentKey, this`currentRow, this`currentBuf, this`nextBuf, this`live
      ensures share.Valid() && live !! freed && (forall b :: b in live + freed ==> b < nextBuf)
      ensures var next := NextAfter(share.dict.rows, after);
        currentKey == (if next.Some? then Some(next.value.0) else None) &&
        (next.Some? ==> currentRow == next.value.1 && currentBuf == old(nextBuf) && live == old(live) + {currentBuf})
      ensures currentKey.None? ==> live == old(live)
      ensures currentKey.Some? ==> Decodes(share.layout, currentRow)
    {
      var next := NextAfter(share.dict.rows, after);
      if next.Some? {
        currentKey := Some(next.value.0);
        currentRow := next.value.1;
        assert nextBuf !in live + freed;
        currentBuf := nextBuf;
        nextBuf := nextBuf + 1;
        live := live + {currentBuf};
        FetchedRowDecodes(share, after);
      } else {
        currentKey := None;
      }
    }

    /** rnd_init: remembers whether this is a table scan (taking the scan
        lock if so) and fetches the first record.  A current key left from
        an earlier scan is overwritten without being freed, so its buffer
        leaks; the updateable key is left for the next rnd_next to free. */
    method RndInit(scan: bool)
      requires Valid()
      modifies this
      ensures Valid()
      ensures tableScan == scan && threadLocked == (scan || old(threadLocked))
      ensures updateableKey == old(updateableKey) && updateableBuf == old(updateableBuf) && freed == old(freed)
      ensures leaked == old(leaked) + (if old(currentKey).Some? then {old(currentBuf)} else {})
      ensures currentKey == (if share.dict.rows == [] then None else Some(share.dict.rows[0].0))
      ensures share.dict.rows != [] ==> currentRow == share.dict.rows[0].1
    {
      FetchFirst();
      tableScan := scan;
      if tableScan {
        threadLocked := true;
      }
    }

    /** The fetch of rnd_init: the current key is overwritten, its buffer
        left allocated but unreachable, with the first record. */
    method FetchFirst()
      requires Valid()
      modifies this`currentKey, this`currentRow, this`currentBuf, this`nextBuf, this`live, this`leaked
      ensures Valid() && freed == old(freed)
      ensures leaked == old(leaked) + (if old(currentKey).Some? then {old(currentBuf)} else {})
      ensures currentKey == (if share.dict.rows == [] then None else Some(share.dict.rows[0].0))
      ensures share.dict.rows != [] ==> currentRow == share.dict.rows[0].1
    {
      if currentKey.Some? {
        leaked := leaked + {currentBuf};
      }
      currentKey := None;
      ghost var before, newBuf := live, nextBuf;
      assert before == Held() + leaked;
      forall b | b in before
        ensures b < newBuf
      {
        assert b in live + freed;
      }
      FetchCurrent(None);
      if currentKey.Some? {
        assert currentBuf == newBuf && newBuf !in before;
        assert Held() == {currentBuf} + (if updateableKey.Some? then {updateableBuf} else {});
      }
    }

    /** rnd_next: frees the previous updateable key; at the end returns
        HA_ERR_END_OF_FILE; otherwise decodes the current row over `buf`,
        hands the current key over to `updateable_key` and fetches the next
        record. */
    method RndNext(buf: Record) returns (err: int, out: Record)
      requires Valid() && |buf.values| == |share.layout.columns|
      modifies this
      ensures Valid()
      ensures tableScan == old(tableScan) && threadLocked == old(threadLocked)
      ensures leaked == old(leaked)
      ensures freed == old(freed) + (if old(updateableKey).Some? then {old(updateableBuf)} else {})
      ensures old(updateableKey).Some? ==> old(updateableBuf) !in live
      ensures old(currentKey).None? ==> err == HA_ERR_END_OF_FILE && out == buf && updateableKey == None && currentKey == None
      ensures old(currentKey).Some? ==>
        err == 0 && out == UnpackedRow(share.layout, old(currentRow), buf).value &&
        updateableKey == old(currentKey) && updateableBuf == old(currentBuf) &&
        currentKey == (var next := NextAfter(share.dict.rows, old(currentKey));
                       if next.Some? then Some(next.value.0) else None)
      ensures var next := NextAfter(share.dict.rows, old(currentKey));
        old(currentKey).Some? && next.Some? ==> currentRow == next.value.1
    {
      DropUpdateable();
      if currentKey.None? {
        return HA_ERR_END_OF_FILE, buf;
      }
      out := UnpackRow(share.layout, currentRow, buf);
      HandOver();
      err := 0;
    }

    /** A whole table scan as the handler interface is driven: rnd_init,
        rnd_next until it answers HA_ERR_END_OF_FILE, then rnd_end.  The
        rows returned are the stored records, in the store's order, each
        decoded over `buf`. */
    method ScanTable(buf: Record) returns (outs: seq<Record>, last: int)
      requires Valid() && |buf.values| == |share.layout.columns|
      modifies this
      ensures Valid() && last == HA_ERR_END_OF_FILE
      ensures |outs| == |share.dict.rows|
      ensures forall i :: 0 <= i < |outs| ==> outs[i] == UnpackedRow(share.layout, share.dict.rows[i].1, buf).value
      ensures currentKey == None && updateableKey == None && !threadLocked
    {
      RndInit(true);
      outs := ScanRows(buf);
      var out;
      last, out := RndNext(buf);
      RndEnd();
    }

    /** The rnd_next calls of a scan positioned on the first record, up
        to the end of the table. */
    method ScanRows(buf: Record) returns (outs: seq<Record>)
      requires Valid() && |buf.values| == |share.layout.columns|
      requires currentKey == (if share.dict.rows == [] then None else Some(share.dict.rows[0].0))
      requires share.dict.rows != [] ==> currentRow == share.dict.rows[0].1
      modifies this
      ensures Valid() && currentKey == None
      ensures tableScan == old(tableScan) && threadLocked == old(threadLocked)
      ensures |outs| == |share.dict.rows|
      ensures forall i :: 0 <= i < |outs| ==> outs[i] == UnpackedRow(share.layout, share.dict.rows[i].1, buf).value
    {
      ghost var rows := share.dict.rows;
      outs := [];
      var i := 0;
      while currentKey.Some?
        invariant Valid() && tableScan == old(tableScan) && threadLocked == old(threadLocked)
        invariant i <= |rows| && |outs| == i
        invariant forall j :: 0 <= j < i ==> outs[j] == UnpackedRow(share.layout, rows[j].1, buf).value
        invariant currentKey == (if i < |rows| then Some(rows[i].0) else None)
        invariant i < |rows| ==> currentRow == rows[i].1
        decreases |rows| - i
      {
        NextAfterIsSuccessor(rows, i);
        var err, out := RndNext(buf);
        ExtendScan(share.layout, rows, buf, outs, out);
        outs := outs + [out];
        i := i + 1;
      }
    }

    /** Frees the updateable key's buffer, if any, and clears the key. */
    method DropUpdateable()
      requires Valid()
      modifies this`updateableKey, this`live, this`freed
      ensures Valid() && updateableKey == None
      ensures old(updateableKey).Some? ==> old(updateableBuf) in freed && old(updateableBuf) !in live
      ensures live == old(live) - (if old(updateableKey).Some? then {updateableBuf} else {})
      ensures freed == old(freed) + (if old(updateableKey).Some? then {updateableBuf} else {})
    {
      if updateableKey.Some? {
        Release(updateableBuf);
      }
      updateableKey := None;
      assert live + freed == old(live) + old(freed);
    }

    /** The rest of rnd_next once the row is decoded: the current key
        becomes the updateable key and the next record is fetched. */
    method HandOver()
      requires Valid() && currentKey.Some? && updateableKey.None?
      modifies this`updateableKey, this`updateableBuf, this`currentKey, this`currentRow, this`currentBuf, this`nextBuf, this`live
      ensures Valid() && freed == old(freed)
      ensures updateableKey == old(currentKey) && updateableBuf == old(currentBuf)
      ensures currentKey == (var next := NextAfter(share.dict.rows, old(currentKey));
                             if next.Some? then Some(next.value.0) else None)
      ensures var next := NextAfter(share.dict.rows, old(currentKey));
        next.Some? ==> currentRow == next.value.1 && live == old(live) + {currentBuf}
      ensures currentKey.None? ==> live == old(live)
    {
      var key := currentKey;
      updateableKey := key;
      updateableBuf := currentBuf;
      currentKey := None;
      FetchCurrent(key);
    }

    /** rnd_end: frees both key buffers, clears both keys and releases the
        scan lock when this was a table scan. */
    method RndEnd()
      requires Valid()
      modifies this`currentKey, this`updateableKey, this`threadLocked, this`live, this`freed
      ensures Valid()
      ensures currentKey == None && updateableKey == None && leaked == old(leaked) && live == leaked
      ensures freed == old(freed) + old(Held())
      ensures threadLocked == (old(threadLocked) && !old(tableScan))
    {
      if currentKey.Some? {
        Release(currentBuf);
      }
      if updateableKey.Some? {
        Release(updateableBuf);
      }
      currentKey := None;
      updateableKey := None;
      if tableScan {
        threadLocked := false;
      }
      assert live + freed == old(live) + old(freed);
    }

    /** write_row: packs the record into the buffer get_pack_buffer hands
        out and stores it under a fresh key; 1 when the store refuses it.
        `reallocOk` is the outcome of growing the secondary buffer and
        `stored` that of the store's put.  A NULL buffer fails the call
        before a key is drawn (the code packs into it unchecked). */
    method WriteRow(r: Record, reallocOk: bool, stored: bool) returns (err: int)
      requires Valid() && WellFormedRecord(share.layout, r)
      modifies this`secondaryBuffer, this`secondarySize, packBuffer, secondaryBuffer, share.dict
      ensures Valid()
      ensures secondarySize == PackBufferChoice(MaxRowLength(share.layout, r), old(secondarySize), reallocOk).1
      ensures PackBufferChoice(MaxRowLength(share.layout, r), old(secondarySize), reallocOk).0 == NullBuffer ==>
        err == 1 && share.dict.rows == old(share.dict.rows) && share.dict.nextKey == old(share.dict.nextKey)
      ensures PackBufferChoice(MaxRowLength(share.layout, r), old(secondarySize), reallocOk).0 != NullBuffer ==>
        (err == 0 <==> stored) && (err != 0 ==> err == 1 && share.dict.rows == old(share.dict.rows)) &&
        share.dict.nextKey == old(share.dict.nextKey) + 1 &&
        (stored ==> Lookup(old(share.dict.rows), old(share.dict.nextKey)) == None &&
                    share.dict.rows == old(share.dict.rows) + [(old(share.dict.nextKey), PackedRow(share.layout, r))])
    {
      var b := GetPackBuffer(r, reallocOk);
      if b == NullBuffer {
        return 1;
      }
      var buf := if b == StackBuffer then packBuffer else secondaryBuffer;
      PackedRowFitsMaxRowLength(share.layout, r);
      var key := share.dict.GenerateKey();
      var len := PackRow(share.layout, buf, r);
      var ok := share.dict.OverwriteRow(key, buf[..len], stored);
      PackedRowDecodes(share.layout, r);
      StoreKeepsDecoding(share, old(share.dict.rows), key, buf[..len]);
      err := if ok then 0 else 1;
    }

    /** update_row: during a locked table scan, packs the record and
        replaces the row returned last; -1 when it is not a locked scan, the
        buffer is NULL or the store refuses the row, with the store then
        unchanged. */
    method UpdateRow(r: Record, reallocOk: bool, stored: bool) returns (err: int)
      requires Valid() && WellFormedRecord(share.layout, r)
      requires tableScan && threadLocked ==> updateableKey.Some? && updateableKey.value < share.dict.nextKey
      modifies this`secondaryBuffer, this`secondarySize, packBuffer, secondaryBuffer, share.dict
      ensures Valid()
      ensures secondarySize == PackBufferChoice(MaxRowLength(share.layout, r), old(secondarySize), reallocOk).1
      ensures err == 0 <==> old(tableScan && threadLocked) && stored &&
                            PackBufferChoice(MaxRowLength(share.layout, r), old(secondarySize), reallocOk).0 != NullBuffer
      ensures err != 0 ==> err == -1 && share.dict.rows == old(share.dict.rows)
      ensures err == 0 ==> share.dict.rows == Put(old(share.dict.rows), old(updateableKey).value, PackedRow(share.layout, r))
      ensures share.dict.nextKey == old(share.dict.nextKey)
    {
      var b := GetPackBuffer(r, reallocOk);
      if tableScan && threadLocked {
        if b == NullBuffer {
          return -1;
        }
        var buf := if b == StackBuffer then packBuffer else secondaryBuffer;
        PackedRowFitsMaxRowLength(share.layout, r);
        var len := PackRow(share.layout, buf, r);
        var ok := share.dict.OverwriteRow(updateableKey.value, buf[..len], stored);
        PackedRowDecodes(share.layout, r);
        StoreKeepsDecoding(share, old(share.dict.rows), updateableKey.value, buf[..len]);
        return if ok then 0 else -1;
      }
      err := -1;
    }

    /** delete_row: during a locked table scan, removes the row returned
        last (-1 when it is no longer stored); otherwise returns -1. */
    method DeleteRow() returns (err: int)
      requires Valid()
      requires tableScan && threadLocked ==> updateableKey.Some?
      modifies share.dict
      ensures Valid()
      ensures !(tableScan && threadLocked) ==> err == -1 && share.dict.rows == old(share.dict.rows)
      ensures tableScan && threadLocked ==>
        share.dict.rows == Remove(old(share.dict.rows), updateableKey.value) &&
        (err == 0 <==> Lookup(old(share.dict.rows), updateableKey.value).Some?)
      ensures share.dict.nextKey == old(share.dict.nextKey)
    {
      if tableScan && threadLocked {
        var ok := share.dict.DeleteRow(updateableKey.value);
        RemoveKeepsDecoding(share, old(share.dict.rows), updateableKey.value);
        return if ok then 0 else -1;
      }
      err := -1;
    }

    /** get_pack_buffer for a row of `r` (with the large-row defect
        corrected): the buffer chosen, growing the secondary one when
        `reallocOk`; NullBuffer when it cannot be grown. */
    method GetPackBuffer(r: Record, reallocOk: bool) returns (b: PackBuffer)
      requires Valid() && |r.values| == |share.layout.columns|
      modifies this`secondaryBuffer, this`secondarySize
      ensures Valid() && unchanged(share.dict)
      ensures tableScan == old(tableScan) && threadLocked == old(threadLocked)
      ensures updateableKey == old(updateableKey) && currentKey == old(currentKey)
      ensures secondaryBuffer == old(secondaryBuffer) || fresh(secondaryBuffer)
      ensures (b, secondarySize) == PackBufferChoice(MaxRowLength(share.layout, r), old(secondarySize), reallocOk)
      ensures b == StackBuffer ==> MaxRowLength(share.layout, r) <= packBuffer.Length
      ensures b == SecondaryBuffer ==> MaxRowLength(share.layout, r) <= secondaryBuffer.Length
    {
      var rowLength := MaxRowLength(share.layout, r);
      b := StackBuffer;
      if rowLength > BLITZ_MAX_ROW_STACK {
        if rowLength > secondarySize {
          if !reallocOk {
            return NullBuffer;
          }
          secondaryBuffer := new byte[rowLength];
          secondarySize := rowLength;
        }
        b := SecondaryBuffer;
      }
    }

    /** store_lock */
    method StoreLock(requested: int, tablespaceOp: bool)
      modifies this`lockType
      ensures lockType == StoreLockType(old(lockType), requested, tablespaceOp)
    {
      if requested != TL_IGNORE && lockType == TL_UNLOCK {
        var t := requested;
        if TL_WRITE_CONCURRENT_INSERT <= t <= TL_WRITE && !tablespaceOp {
          t := TL_WRITE_ALLOW_WRITE;
        }
        lockType := t;
      }
    }
  }

  lemma FetchedRowDecodes(share: BlitzShare, after: Option<Key>)
    requires share.Valid() && NextAfter(share.dict.rows, after).Some?
    ensures Decodes(share.layout, NextAfter(share.dict.rows, after).value.1)
  {
    var rows := share.dict.rows;
    if after.Some? {
      var i := IndexOf(rows, after.value).value;
      assert NextAfter(rows, after).value == rows[i + 1];
    }
  }

  lemma StoreKeepsDecoding(share: BlitzShare, before: Rows, k: Key, row: seq<byte>)
    requires DistinctKeys(before) && Decodes(share.layout, row)
    requires forall i :: 0 <= i < |before| ==> Decodes(share.layout, before[i].1)
    ensures var after := Put(before, k, row);
      forall i :: 0 <= i < |after| ==> Decodes(share.layout, after[i].1)
  {
  }

  lemma RemoveKeepsDecoding(share: BlitzShare, before: Rows, k: Key)
    requires DistinctKeys(before)
    requires forall i :: 0 <= i < |before| ==> Decodes(share.layout, before[i].1)
    ensures var after := Remove(before, k);
      forall i :: 0 <= i < |after| ==> Decodes(share.layout, after[i].1)
  {
  }
}
