/** The ordering and state helpers of Table in drizzled/table.h: the
    case-insensitive ordering of tables by schema, name and type, and the
    small operations that mark a null row, point the column bitmaps, ask
    whether the table is open or stale, and fetch the duplicate key. */
module TableOrder {
  import opened Common

  /** A C string: the characters before its NUL. */
  type CName = s: string | '\0' !in s

  // ---------------------------------------------------------------------
  // strcasecmp
  // ---------------------------------------------------------------------

  /** tolower in the C locale. */
  function ToLower(c: char): char
  {
    if 'A' <= c <= 'Z' then (c as int + 32) as char else c
  }

  function Fold(s: string): (r: string)
    ensures |r| == |s| && forall i :: 0 <= i < |s| ==> r[i] == ToLower(s[i])
  {
    seq(|s|, i requires 0 <= i < |s| => ToLower(s[i]))
  }

  /** strcasecmp, by its sign: the first position where the lowered
      characters differ decides, the terminating NUL lowest of all. */
  function StrCaseCmp(a: CName, b: CName): (r: int)
    ensures -1 <= r <= 1 && (a == b ==> r == 0) && (r == 0 ==> |a| == |b|)
    decreases |a|
  {
    if a == [] && b == [] then 0
    else if a == [] then -1
    else if b == [] then 1
    else if ToLower(a[0]) < ToLower(b[0]) then -1
    else if ToLower(a[0]) > ToLower(b[0]) then 1
    else StrCaseCmp(a[1..], b[1..])
  }

  /** Strict lexicographic order of strings, a proper prefix first. */
  predicate SeqLess(a: string, b: string)
  {
    if a == [] then b != []
    else b != [] && (a[0] < b[0] || (a[0] == b[0] && SeqLess(a[1..], b[1..])))
  }

  lemma {:induction false} SeqLessIrreflexive(a: string)
    ensures !SeqLess(a, a)
  {
    if a != [] {
      SeqLessIrreflexive(a[1..]);
    }
  }

  lemma {:induction false} SeqLessTransitive(a: string, b: string, c: string)
    requires SeqLess(a, b) && SeqLess(b, c)
    ensures SeqLess(a, c)
  {
    if a != [] && a[0] == b[0] && b[0] == c[0] {
      SeqLessTransitive(a[1..], b[1..], c[1..]);
    }
  }

  lemma {:induction false} SeqLessTotal(a: string, b: string)
    requires a != b
    ensures SeqLess(a, b) || SeqLess(b, a)
  {
    if a != [] && b != [] && a[0] == b[0] {
      assert a == [a[0]] + a[1..] && b == [b[0]] + b[1..];
      SeqLessTotal(a[1..], b[1..]);
    }
  }

  /** strcasecmp is below zero exactly when the lowered strings are in
      order, and zero exactly when they are equal. */
  lemma {:induction false} StrCaseCmpIsFoldedOrder(a: CName, b: CName)
    ensures StrCaseCmp(a, b) < 0 <==> SeqLess(Fold(a), Fold(b))
    ensures StrCaseCmp(a, b) == 0 <==> Fold(a) == Fold(b)
    decreases |a|
  {
    if a != [] && b != [] && ToLower(a[0]) == ToLower(b[0]) {
      StrCaseCmpIsFoldedOrder(a[1..], b[1..]);
      assert Fold(a)[1..] == Fold(a[1..]) && Fold(b)[1..] == Fold(b[1..]);
      assert Fold(a) == [Fold(a)[0]] + Fold(a)[1..] && Fold(b) == [Fold(b)[0]] + Fold(b)[1..];
    } else if a != [] && b != [] {
      assert Fold(a)[0] != Fold(b)[0];
    }
  }

  // ---------------------------------------------------------------------
  // operator< and compare
  // ---------------------------------------------------------------------

  /** What of TableShare the ordering and the helpers read. */
  datatype TableShare = TableShare(
    schemaName: CName, tableName: CName, tableType: int, version: nat, nullBytes: nat)

  /** Table::operator<, which reads only the shares: schema names
      compared without case first, then table names, then the proto's
      table type. */
  function ShareLess(a: TableShare, b: TableShare): (r: bool)
    ensures Fold(a.schemaName) == Fold(b.schemaName) && Fold(a.tableName) == Fold(b.tableName) ==>
      (r <==> a.tableType < b.tableType)
  {
    StrCaseCmpIsFoldedOrder(a.schemaName, b.schemaName);
    StrCaseCmpIsFoldedOrder(a.tableName, b.tableName);
    var result := StrCaseCmp(a.schemaName, b.schemaName);
    if result < 0 then true
    else if result > 0 then false
    else
      var result2 := StrCaseCmp(a.tableName, b.tableName);
      if result2 < 0 then true
      else if result2 > 0 then false
      else a.tableType < b.tableType
  }

  /** The key the ordering sorts by. */
  predicate SameKey(a: TableShare, b: TableShare)
  {
    Fold(a.schemaName) == Fold(b.schemaName) && Fold(a.tableName) == Fold(b.tableName) &&
    a.tableType == b.tableType
  }

  /** The lexicographic order on (lowered schema, lowered name, type). */
  predicate KeyBefore(a: TableShare, b: TableShare)
  {
    SeqLess(Fold(a.schemaName), Fold(b.schemaName)) ||
    (Fold(a.schemaName) == Fold(b.schemaName) &&
     (SeqLess(Fold(a.tableName), Fold(b.tableName)) ||
      (Fold(a.tableName) == Fold(b.tableName) && a.tableType < b.tableType)))
  }

  /** operator< is the lexicographic order of the keys. */
  lemma LessIsKeyOrder(a: TableShare, b: TableShare)
    ensures ShareLess(a, b) <==> KeyBefore(a, b)
  {
    StrCaseCmpIsFoldedOrder(a.schemaName, b.schemaName);
    StrCaseCmpIsFoldedOrder(a.tableName, b.tableName);
  }

  /** No table sorts before itself. */
  lemma LessIrreflexive(a: TableShare)
    ensures !ShareLess(a, a)
  {
    LessIsKeyOrder(a, a);
    SeqLessIrreflexive(Fold(a.schemaName));
    SeqLessIrreflexive(Fold(a.tableName));
  }

  lemma LessTransitive(a: TableShare, b: TableShare, c: TableShare)
    requires ShareLess(a, b) && ShareLess(b, c)
    ensures ShareLess(a, c)
  {
    LessIsKeyOrder(a, b);
    LessIsKeyOrder(b, c);
    LessIsKeyOrder(a, c);
    if SeqLess(Fold(a.schemaName), Fold(b.schemaName)) && SeqLess(Fold(b.schemaName), Fold(c.schemaName)) {
      SeqLessTransitive(Fold(a.schemaName), Fold(b.schemaName), Fold(c.schemaName));
    }
    if SeqLess(Fold(a.tableName), Fold(b.tableName)) && SeqLess(Fold(b.tableName), Fold(c.tableName)) {
      SeqLessTransitive(Fold(a.tableName), Fold(b.tableName), Fold(c.tableName));
    }
  }

  lemma LessAsymmetric(a: TableShare, b: TableShare)
    requires ShareLess(a, b)
    ensures !ShareLess(b, a)
  {
    if ShareLess(b, a) {
      LessTransitive(a, b, a);
      LessIrreflexive(a);
    }
  }

  /** Two tables neither of which sorts before the other have the same
      key: the ordering is a strict weak order whose ties are the tables
      that differ only in the case of their names. */
  lemma IncomparableIsSameKey(a: TableShare, b: TableShare)
    ensures !ShareLess(a, b) && !ShareLess(b, a) <==> SameKey(a, b)
  {
    LessIsKeyOrder(a, b);
    LessIsKeyOrder(b, a);
    if Fold(a.schemaName) != Fold(b.schemaName) {
      SeqLessTotal(Fold(a.schemaName), Fold(b.schemaName));
    } else if Fold(a.tableName) != Fold(b.tableName) {
      SeqLessTotal(Fold(a.tableName), Fold(b.tableName));
    } else {
      SeqLessIrreflexive(Fold(a.schemaName));
      SeqLessIrreflexive(Fold(a.tableName));
    }
  }

  // ---------------------------------------------------------------------
  // Table
  // ---------------------------------------------------------------------

  /** STATUS_NULL_ROW in Table::status. */
  const STATUS_NULL_ROW: bv32 := 32

  /** (uint32_t) -1: no key. */
  const NO_KEY: nat := 0xFFFF_FFFF

  /** The handler errors that name a duplicate key. */
  const HA_ERR_FOUND_DUPP_KEY := 121
  const HA_ERR_FOUND_DUPP_UNIQUE := 141
  const HA_ERR_DROP_INDEX_FK := 162
  const HA_ERR_FOREIGN_DUPLICATE_KEY := 163

  predicate IsDuplicateError(error: int)
  {
    error == HA_ERR_FOUND_DUPP_KEY || error == HA_ERR_FOREIGN_DUPLICATE_KEY ||
    error == HA_ERR_FOUND_DUPP_UNIQUE || error == HA_ERR_DROP_INDEX_FK
  }

  /** Which bitmap a column-set pointer designates. */
  datatype Bitmap = ShareAllSet | DefReadSet | DefWriteSet | Other(id: nat)

  class Table {
    var share: TableShare
    var dbStat: nat
    var openPlaceholder: bool
    var nullRow: bool
    var status: bv32
    const nullFlags: array<byte>
    var readSet: Bitmap
    var writeSet: Bitmap
    /** The cursor's errkey. */
    var errkey: nat

    /** A Table over the given state.  The body of Table::Table() lies
        outside this model, so every field's first value is a parameter
        rather than an assumed default. */
    constructor(share: TableShare, nullFlags: array<byte>, dbStat: nat, openPlaceholder: bool,
                nullRow: bool, status: bv32, readSet: Bitmap, writeSet: Bitmap, errkey: nat)
      ensures this.share == share && this.nullFlags == nullFlags
      ensures this.dbStat == dbStat && this.openPlaceholder == openPlaceholder
      ensures this.nullRow == nullRow && this.status == status
      ensures this.readSet == readSet && this.writeSet == writeSet && this.errkey == errkey
    {
      this.share := share;
      this.nullFlags := nullFlags;
      this.dbStat, this.openPlaceholder, this.nullRow, this.status := dbStat, openPlaceholder, nullRow, status;
      this.readSet, this.writeSet, this.errkey := readSet, writeSet, errkey;
    }

    /** operator<. */
    function Less(right: Table): (r: bool)
      reads this, right
      ensures r <==> KeyBefore(share, right.share)
      ensures r ==> !ShareLess(right.share, share)
    {
      LessIsKeyOrder(share, right.share);
      if ShareLess(share, right.share) then
        LessAsymmetric(share, right.share);
        true
      else
        false
    }

    /** compare(a, b): the sort comparator, `*a < *b`. */
    static function Compare(a: Table, b: Table): (r: bool)
      reads a, b
      ensures r ==> !b.Less(a)
    {
      a.Less(b)
    }

    /** The table counts as open when a handler is attached or a
        name-lock placeholder stands in for it. */
    predicate IsNameOpened()
      reads this
      ensures openPlaceholder ==> IsNameOpened()
      ensures !IsNameOpened() ==> dbStat == 0
    {
      dbStat != 0 || openPlaceholder
    }

    /** The table is stale, or a name lock, once the share's version
        falls behind the global refresh version. */
    predicate NeedsReopenOrNameLock(refreshVersion: nat)
      reads this
      ensures share.version == refreshVersion ==> !NeedsReopenOrNameLock(refreshVersion)
      ensures share.version != refreshVersion ==> NeedsReopenOrNameLock(refreshVersion)
    {
      share.version != refreshVersion
    }

    /** mark_as_null_row: the row reads as NULL in every nullable column. */
    method MarkAsNullRow()
      requires share.nullBytes <= nullFlags.Length
      modifies this, nullFlags
      ensures NullRowMarked()
      ensures status == old(status) | STATUS_NULL_ROW
      ensures forall k :: share.nullBytes <= k < nullFlags.Length ==> nullFlags[k] == old(nullFlags[k])
      ensures share == old(share) && dbStat == old(dbStat) && openPlaceholder == old(openPlaceholder)
      ensures readSet == old(readSet) && writeSet == old(writeSet) && errkey == old(errkey)
    {
      nullRow := true;
      status := status | STATUS_NULL_ROW;
      forall k | 0 <= k < share.nullBytes {
        nullFlags[k] := 255;
      }
    }

    /** The state mark_as_null_row leaves. */
    ghost predicate NullRowMarked()
      reads this, nullFlags
    {
      nullRow && status & STATUS_NULL_ROW != 0 && share.nullBytes <= nullFlags.Length &&
      forall k :: 0 <= k < share.nullBytes ==> nullFlags[k] == 255
    }

    /** column_bitmaps_set. */
    method ColumnBitmapsSet(readSetArg: Bitmap, writeSetArg: Bitmap)
      modifies this`readSet, this`writeSet
      ensures readSet == readSetArg && writeSet == writeSetArg
      ensures share == old(share) && status == old(status) && nullRow == old(nullRow)
    {
      readSet := readSetArg;
      writeSet := writeSetArg;
    }

    /** use_all_columns: read and write every column. */
    method UseAllColumns()
      modifies this`readSet, this`writeSet
      ensures readSet == ShareAllSet && writeSet == ShareAllSet
      ensures share == old(share) && status == old(status) && nullRow == old(nullRow)
    {
      ColumnBitmapsSet(ShareAllSet, ShareAllSet);
    }

    /** default_column_bitmaps: back to the table's own sets. */
    method DefaultColumnBitmaps()
      modifies this`readSet, this`writeSet
      ensures readSet == DefReadSet && writeSet == DefWriteSet
      ensures share == old(share) && status == old(status) && nullRow == old(nullRow)
    {
      readSet := DefReadSet;
      writeSet := DefWriteSet;
    }

    /** get_dup_key: the key the engine reports for a duplicate-key
        error, NO_KEY for any other error.  `engineErrkey` is what
        cursor->info(HA_STATUS_ERRKEY) leaves in errkey. */
    method GetDupKey(error: int, engineErrkey: nat) returns (key: nat)
      modifies this`errkey
      ensures key == errkey
      ensures IsDuplicateError(error) ==> key == engineErrkey
      ensures !IsDuplicateError(error) ==> key == NO_KEY
      ensures share == old(share) && status == old(status) && nullRow == old(nullRow)
    {
      errkey := NO_KEY;
      if error == HA_ERR_FOUND_DUPP_KEY || error == HA_ERR_FOREIGN_DUPLICATE_KEY ||
         error == HA_ERR_FOUND_DUPP_UNIQUE || error == HA_ERR_DROP_INDEX_FK {
        errkey := engineErrkey;
      }
      return errkey;
    }
  }
}
