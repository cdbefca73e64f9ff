/** RENAME TABLE of drizzled/rename.cc: the statement's TableList chain
    holds (old name, new name) pairs linked through next_local; the tables
    are renamed pair by pair, and when one rename fails the pairs already
    renamed are renamed back in reverse order.

    The table definitions and the engines' files are modelled as a catalog
    from table name to the definition's engine name; `refused` lists the
    (old, new) renames an engine would fail.  Locking (LOCK_open, the global
    read lock, the exclusive name locks) is left out. */
module RenameTables {
  import opened Common

  datatype TableName = TableName(db: string, table: string)

  /** The table definitions that exist, with their engine. */
  type Catalog = map<TableName, string>

  /** The errors raised on the way (my_error / my_message). */
  datatype RenameError = NoSuchTable | TableExists | EngineFailed | LockOrActiveTransaction

  /** The pair at position `index` failed with `error`. */
  datatype Failure = Failure(index: nat, error: RenameError)

  /** One element of the statement's table list. */
  class TableList {
    const db: string
    const tableName: string
    var nextLocal: TableList?

    constructor(db: string, tableName: string)
      ensures this.db == db && this.tableName == tableName && nextLocal == null
    {
      this.db := db;
      this.tableName := tableName;
      nextLocal := null;
    }

    function Name(): TableName
    {
      TableName(db, tableName)
    }
  }

  // ---------------------------------------------------------------------
  // The next_local chain
  // ---------------------------------------------------------------------

  function First(nodes: seq<TableList>): TableList?
  {
    if nodes == [] then null else nodes[0]
  }

  function NextOf(nodes: seq<TableList>, i: nat): TableList?
    requires i < |nodes|
  {
    if i + 1 < |nodes| then nodes[i + 1] else null
  }

  predicate Distinct(nodes: seq<TableList>)
  {
    forall i, j :: 0 <= i < j < |nodes| ==> nodes[i] != nodes[j]
  }

  /** Following next_local from `head` visits `nodes`, in order, and ends
      at a NULL next_local. */
  ghost predicate Linked(head: TableList?, nodes: seq<TableList>)
    reads set n | n in nodes
  {
    head == First(nodes) &&
    forall i {:trigger nodes[i].nextLocal} :: 0 <= i < |nodes| ==> nodes[i].nextLocal == NextOf(nodes, i)
  }

  /** `head` starts a chain through exactly the distinct `nodes`. */
  ghost predicate Chain(head: TableList?, nodes: seq<TableList>)
    reads set n | n in nodes
  {
    Distinct(nodes) && Linked(head, nodes)
  }

  function Reversed<T>(s: seq<T>): (r: seq<T>)
    ensures |r| == |s|
  {
    seq(|s|, i requires 0 <= i < |s| => s[|s| - 1 - i])
  }

  /** A reversed list holds the same elements. */
  lemma ReversedSameElements<T>(s: seq<T>)
    ensures forall x :: x in Reversed(s) <==> x in s
  {
    forall x | x in s
      ensures x in Reversed(s)
    {
      var i :| 0 <= i < |s| && s[i] == x;
      assert Reversed(s)[|s| - 1 - i] == x;
    }
  }

  /** Reversing twice gives back the original order. */
  lemma ReversedTwice<T>(s: seq<T>)
    ensures Reversed(Reversed(s)) == s
  {
  }

  /** The last `k` elements of the reversed list are the first `k`
      reversed. */
  lemma ReversedTail<T>(s: seq<T>, k: nat)
    requires k <= |s|
    ensures Reversed(s)[|s| - k..] == Reversed(s[..k])
  {
  }

  /** The tail of a chain is a chain. */
  lemma ChainSuffix(head: TableList?, nodes: seq<TableList>, k: nat)
    requires Chain(head, nodes) && k <= |nodes|
    ensures Chain(First(nodes[k..]), nodes[k..])
  {
    var t := nodes[k..];
    forall i | 0 <= i < |t|
      ensures t[i].nextLocal == NextOf(t, i)
    {
      assert t[i] == nodes[k + i];
    }
  }

  /** reverse_table_list: relinks the chain backwards in place and returns
      the old tail. */
  method ReverseTableList(tableList: TableList?, ghost nodes: seq<TableList>) returns (prev: TableList?)
    requires Chain(tableList, nodes)
    modifies set n | n in nodes
    ensures Chain(prev, Reversed(nodes))
    ensures prev == (if nodes == [] then null else nodes[|nodes| - 1])
  {
    prev := null;
    var cur := tableList;
    ghost var i := 0;
    while cur != null
      invariant 0 <= i <= |nodes|
      invariant cur == (if i < |nodes| then nodes[i] else null)
      invariant prev == (if i == 0 then null else nodes[i - 1])
      invariant forall j {:trigger nodes[j].nextLocal} :: i <= j < |nodes| ==> nodes[j].nextLocal == NextOf(nodes, j)
      invariant 0 < i ==> nodes[0].nextLocal == null
      invariant forall j :: 0 < j < i ==> nodes[j].nextLocal == nodes[j - 1]
      decreases |nodes| - i
    {
      var next := cur.nextLocal;
      cur.nextLocal := prev;
      prev := cur;
      cur := next;
      i := i + 1;
    }
    assert i == |nodes|;
    BackLinkedIsReversedChain(prev, nodes);
  }

  /** A list whose every element links to the one before it is a chain
      of the reversed list, started by the last element. */
  lemma BackLinkedIsReversedChain(last: TableList?, nodes: seq<TableList>)
    requires Distinct(nodes) && last == (if nodes == [] then null else nodes[|nodes| - 1])
    requires nodes != [] ==> nodes[0].nextLocal == null
    requires forall j :: 0 < j < |nodes| ==> nodes[j].nextLocal == nodes[j - 1]
    ensures Chain(last, Reversed(nodes))
  {
    var r := Reversed(nodes);
    forall j | 0 <= j < |r|
      ensures r[j].nextLocal == NextOf(r, j)
    {
      var k := |nodes| - 1 - j;
      assert r[j] == nodes[k];
      if j + 1 < |r| {
        assert r[j + 1] == nodes[k - 1];
      }
    }
    forall a, b | 0 <= a < b < |r|
      ensures r[a] != r[b]
    {
      assert r[a] == nodes[|nodes| - 1 - a] && r[b] == nodes[|nodes| - 1 - b];
    }
  }

  // ---------------------------------------------------------------------
  // do_rename and rename_tables
  // ---------------------------------------------------------------------

  /** The catalog after the definition of `from` moved to `to`. */
  function Move(cat: Catalog, from: TableName, to: TableName): (r: Catalog)
    requires from in cat
    ensures to in r && r[to] == cat[from] && (from != to ==> from !in r)
    ensures forall n :: n != from && n != to ==> (n in r <==> n in cat) && (n in r ==> r[n] == cat[n])
  {
    (cat - {from})[to := cat[from]]
  }

  /** do_rename: the source must exist and the target must not, whatever
      skip_error says; an engine failure is an error only without
      skip_error, and leaves the catalog as it was. */
  function DoRename(cat: Catalog, from: TableName, to: TableName, skipError: bool, refused: set<(TableName, TableName)>): (r: (Catalog, Option<RenameError>))
    ensures r.1 == Some(NoSuchTable) <==> from !in cat
    ensures r.1 == Some(TableExists) <==> from in cat && to in cat
    ensures r.1 == Some(EngineFailed) <==> from in cat && to !in cat && (from, to) in refused && !skipError
    ensures r.1.Some? || (from, to) in refused ==> r.0 == cat
  {
    if from !in cat then (cat, Some(NoSuchTable))
    else if to in cat then (cat, Some(TableExists))
    else if (from, to) in refused then (cat, if skipError then None else Some(EngineFailed))
    else (Move(cat, from, to), None)
  }

  /** A rename the engine carried out moves the definition from the old
      name to the new one and leaves every other table alone. */
  lemma DoRenameMoves(cat: Catalog, from: TableName, to: TableName, skipError: bool, refused: set<(TableName, TableName)>)
    requires DoRename(cat, from, to, skipError, refused).1.None? && (from, to) !in refused
    ensures var c := DoRename(cat, from, to, skipError, refused).0;
      c.Keys == cat.Keys - {from} + {to} && c[to] == cat[from] &&
      forall n :: n in cat && n != from && n != to ==> c[n] == cat[n]
  {
  }

  /** A rename that went through is undone by the rename back, provided the
      engine carries that one out. */
  lemma RenameBack(cat: Catalog, from: TableName, to: TableName, skipError: bool, refused: set<(TableName, TableName)>)
    requires DoRename(cat, from, to, false, refused).1.None?
    requires (to, from) !in refused
    ensures DoRename(DoRename(cat, from, to, false, refused).0, to, from, skipError, refused) == (cat, None)
  {
    var moved := Move(cat, from, to);
    assert Move(moved, to, from) == cat;
  }

  /** The pair of old and new names. */
  function Swap(p: (TableName, TableName)): (TableName, TableName)
  {
    (p.1, p.0)
  }

  /** rename_tables on a list of pairs: the catalog after the renames up to
      the first failing one, and that failure. */
  function RenameAll(cat: Catalog, pairs: seq<(TableName, TableName)>, skipError: bool, refused: set<(TableName, TableName)>): (r: (Catalog, Option<Failure>))
    ensures r.1.Some? ==> r.1.value.index < |pairs|
    decreases |pairs|
  {
    if pairs == [] then (cat, None)
    else
      var (c1, err) := DoRename(cat, pairs[0].0, pairs[0].1, skipError, refused);
      if err.Some? then (cat, Some(Failure(0, err.value)))
      else Shift(RenameAll(c1, pairs[1..], skipError, refused), 1)
  }

  /** A result of the renames after the first `k` pairs, seen from the
      start of the list. */
  function Shift(r: (Catalog, Option<Failure>), k: nat): (Catalog, Option<Failure>)
  {
    (r.0, if r.1.None? then None else Some(r.1.value.(index := r.1.value.index + k)))
  }

  /** Renaming `a + b` is renaming `a`, then, if nothing failed, `b`. */
  lemma {:induction false} RenameAllAppend(cat: Catalog, a: seq<(TableName, TableName)>, b: seq<(TableName, TableName)>, skipError: bool, refused: set<(TableName, TableName)>)
    ensures RenameAll(cat, a + b, skipError, refused) ==
      var (c, f) := RenameAll(cat, a, skipError, refused);
      if f.Some? then (c, f) else Shift(RenameAll(c, b, skipError, refused), |a|)
    decreases |a|
  {
    if a == [] {
      assert a + b == b;
    } else {
      assert (a + b)[0] == a[0] && (a + b)[1..] == a[1..] + b;
      var (c1, err) := DoRename(cat, a[0].0, a[0].1, skipError, refused);
      if err.None? {
        var rest := RenameAll(c1, a[1..], skipError, refused);
        var restB := RenameAll(c1, a[1..] + b, skipError, refused);
        RenameAllAppend(c1, a[1..], b, skipError, refused);
        assert RenameAll(cat, a, skipError, refused) == Shift(rest, 1);
        assert RenameAll(cat, a + b, skipError, refused) == Shift(restB, 1);
        if rest.1.None? {
          ShiftTwice(RenameAll(rest.0, b, skipError, refused), |a| - 1, 1);
        }
      }
    }
  }

  /** Shifting by `j`, then by `k`, is shifting by `j + k`. */
  lemma ShiftTwice(r: (Catalog, Option<Failure>), j: nat, k: nat)
    ensures Shift(Shift(r, j), k) == Shift(r, j + k)
  {
  }

  /** The renames before the first failure all went through, and the
      failing one left the catalog as they had it. */
  lemma RenameAllPrefix(cat: Catalog, pairs: seq<(TableName, TableName)>, skipError: bool, refused: set<(TableName, TableName)>)
    requires RenameAll(cat, pairs, skipError, refused).1.Some?
    ensures var (c, f) := RenameAll(cat, pairs, skipError, refused);
      RenameAll(cat, pairs[..f.value.index], skipError, refused) == (c, None)
  {
    var (c, f) := RenameAll(cat, pairs, skipError, refused);
    var k := f.value.index;
    assert pairs == pairs[..k] + pairs[k..];
    RenameAllAppend(cat, pairs[..k], pairs[k..], skipError, refused);
  }

  /** The rollback list: the pairs backwards, each with its names
      swapped. */
  function Inverse(pairs: seq<(TableName, TableName)>): (r: seq<(TableName, TableName)>)
    ensures |r| == |pairs|
  {
    seq(|pairs|, i requires 0 <= i < |pairs| => Swap(pairs[|pairs| - 1 - i]))
  }

  /** Renames that all went through are undone by renaming back in reverse
      order, when the engine carries out every rename back. */
  lemma {:induction false} UndoRenames(cat: Catalog, pairs: seq<(TableName, TableName)>, refused: set<(TableName, TableName)>)
    requires RenameAll(cat, pairs, false, refused).1.None?
    requires forall i :: 0 <= i < |pairs| ==> Swap(pairs[i]) !in refused
    ensures RenameAll(RenameAll(cat, pairs, false, refused).0, Inverse(pairs), true, refused) == (cat, None)
    decreases |pairs|
  {
    if pairs != [] {
      var n := |pairs| - 1;
      var init, last := pairs[..n], pairs[n];
      RenameAllLast(cat, pairs, false, refused);
      var c1 := RenameAll(cat, init, false, refused).0;
      var cK := RenameAll(cat, pairs, false, refused).0;
      assert Swap(pairs[n]) !in refused;
      RenameBack(c1, last.0, last.1, true, refused);
      assert forall i :: 0 <= i < |init| ==> Swap(init[i]) !in refused by {
        forall i | 0 <= i < |init| ensures Swap(init[i]) !in refused {
          assert init[i] == pairs[i];
        }
      }
      UndoRenames(cat, init, refused);
      InverseLast(pairs);
      assert RenameAll(cK, Inverse(pairs), true, refused) == Shift(RenameAll(c1, Inverse(init), true, refused), 1);
    }
  }

  /** Renames that all went through: the last one is applied to what the
      others left. */
  lemma RenameAllLast(cat: Catalog, pairs: seq<(TableName, TableName)>, skipError: bool, refused: set<(TableName, TableName)>)
    requires pairs != [] && RenameAll(cat, pairs, skipError, refused).1.None?
    ensures var n := |pairs| - 1;
      var (c1, f1) := RenameAll(cat, pairs[..n], skipError, refused);
      f1.None? && DoRename(c1, pairs[n].0, pairs[n].1, skipError, refused) == (RenameAll(cat, pairs, skipError, refused).0, None)
  {
    var n := |pairs| - 1;
    assert pairs == pairs[..n] + [pairs[n]];
    RenameAllAppend(cat, pairs[..n], [pairs[n]], skipError, refused);
  }

  /** The rollback list starts with the last pair swapped, then rolls back
      the others. */
  lemma InverseLast(pairs: seq<(TableName, TableName)>)
    requires pairs != []
    ensures Inverse(pairs)[0] == Swap(pairs[|pairs| - 1])
    ensures Inverse(pairs)[1..] == Inverse(pairs[..|pairs| - 1])
  {
  }

  /** After a failed RENAME TABLE, the rollback restores the catalog when
      the engine carries out every rename back. */
  lemma RollbackRestores(cat: Catalog, pairs: seq<(TableName, TableName)>, refused: set<(TableName, TableName)>)
    requires RenameAll(cat, pairs, false, refused).1.Some?
    requires forall i :: 0 <= i < |pairs| ==> Swap(pairs[i]) !in refused
    ensures var (c, f) := RenameAll(cat, pairs, false, refused);
      RenameAll(c, Inverse(pairs[..f.value.index]), true, refused) == (cat, None)
  {
    RenameAllPrefix(cat, pairs, false, refused);
    var k := RenameAll(cat, pairs, false, refused).1.value.index;
    UndoRenames(cat, pairs[..k], refused);
  }

  /** The (old, new) pairs of a list of even length. */
  function Pairs(nodes: seq<TableList>): (r: seq<(TableName, TableName)>)
    requires |nodes| % 2 == 0
    ensures |r| == |nodes| / 2 && 2 * |r| == |nodes|
  {
    seq(|nodes| / 2, i requires 0 <= i < |nodes| / 2 => (nodes[2 * i].Name(), nodes[2 * i + 1].Name()))
  }

  /** The pairs of the first `2k` elements are the first `k` pairs. */
  lemma PairsPrefix(nodes: seq<TableList>, k: nat)
    requires |nodes| % 2 == 0 && 2 * k <= |nodes|
    ensures Pairs(nodes[..2 * k]) == Pairs(nodes)[..k]
  {
  }

  /** The pairs the rollback walks, in the reversed list after the failing
      pair `k`, are the first `k` pairs backwards and swapped. */
  lemma RollbackPairs(nodes: seq<TableList>, k: nat)
    requires |nodes| % 2 == 0 && 2 * k <= |nodes|
    ensures |nodes[..2 * k]| % 2 == 0
    ensures Pairs(Reversed(nodes[..2 * k])) == Inverse(Pairs(nodes)[..k])
  {
    PairsOfReversed(nodes[..2 * k]);
    PairsPrefix(nodes, k);
  }

  /** Reading a reversed list in pairs gives the rollback list. */
  lemma PairsOfReversed(nodes: seq<TableList>)
    requires |nodes| % 2 == 0
    ensures Pairs(Reversed(nodes)) == Inverse(Pairs(nodes))
  {
    var n := |nodes|;
    var r, p := Reversed(nodes), Pairs(nodes);
    forall i | 0 <= i < n / 2
      ensures Pairs(r)[i] == Inverse(p)[i]
    {
      var j := n / 2 - 1 - i;
      assert 2 * j == n - 2 - 2 * i;
      assert r[2 * i] == nodes[2 * j + 1] && r[2 * i + 1] == nodes[2 * j];
      assert p[j] == (nodes[2 * j].Name(), nodes[2 * j + 1].Name());
      assert Inverse(p)[i] == Swap(p[j]);
    }
  }

  /** The pairs from the `i`-th on: the `i`-th pair, then the rest. */
  lemma PairsFrom(nodes: seq<TableList>, i: nat)
    requires |nodes| % 2 == 0 && 2 * i + 2 <= |nodes|
    ensures var ps := Pairs(nodes)[i..];
      ps != [] && ps[0] == (nodes[2 * i].Name(), nodes[2 * i + 1].Name()) && ps[1..] == Pairs(nodes)[i + 1..]
  {
  }

  /** One pass of the loop of rename_tables: the `i`-th old name links to
      its new name and that to the next pair or NULL, and the `i`-th rename,
      `step`, either fails, deciding the whole outcome, or leaves the rest
      to decide it. */
  lemma RenameLoopStep(head: TableList?, nodes: seq<TableList>, ps: seq<(TableName, TableName)>, i: nat,
                       result: (Catalog, Option<Failure>), newCat: Catalog,
                       skipError: bool, refused: set<(TableName, TableName)>, step: (Catalog, Option<RenameError>))
    requires Linked(head, nodes) && |nodes| % 2 == 0 && 2 * i < |nodes| && ps == Pairs(nodes)
    requires result == Shift(RenameAll(newCat, ps[i..], skipError, refused), i)
    requires step == DoRename(newCat, nodes[2 * i].Name(), nodes[2 * i + 1].Name(), skipError, refused)
    ensures 2 * i + 2 <= |nodes| && nodes[2 * i].nextLocal == nodes[2 * i + 1]
    ensures nodes[2 * i + 1].nextLocal == (if 2 * i + 2 < |nodes| then nodes[2 * i + 2] else null)
    ensures step.1.Some? ==> result == (newCat, Some(Failure(i, step.1.value)))
    ensures step.1.None? ==> result == Shift(RenameAll(step.0, ps[i + 1..], skipError, refused), i + 1)
  {
    PairsFrom(nodes, i);
    assert ps[i] == ps[i..][0];
    RenameAllFrom(newCat, ps, i, skipError, refused, i);
  }

  /** One step of rename_tables: the `i`-th pair, then the rest. */
  lemma RenameAllFrom(cat: Catalog, pairs: seq<(TableName, TableName)>, i: nat, skipError: bool, refused: set<(TableName, TableName)>, k: nat)
    requires i < |pairs|
    ensures var (c1, err) := DoRename(cat, pairs[i].0, pairs[i].1, skipError, refused);
      Shift(RenameAll(cat, pairs[i..], skipError, refused), k) ==
        if err.Some? then (cat, Some(Failure(k, err.value)))
        else Shift(RenameAll(c1, pairs[i + 1..], skipError, refused), k + 1)
  {
    assert pairs[i..][0] == pairs[i] && pairs[i..][1..] == pairs[i + 1..];
  }

  /** rename_tables: walks the pairs and returns the first one whose rename
      failed (its old-name element), or NULL. */
  method RenameTableList(cat: Catalog, tableList: TableList?, ghost nodes: seq<TableList>, skipError: bool, refused: set<(TableName, TableName)>)
    returns (newCat: Catalog, failed: TableList?, error: Option<RenameError>)
    requires Linked(tableList, nodes) && |nodes| % 2 == 0
    ensures var (c, f) := RenameAll(cat, Pairs(nodes), skipError, refused);
      newCat == c &&
      (f.None? ==> failed == null && error.None?) &&
      (f.Some? ==> failed == nodes[2 * f.value.index] && error == Some(f.value.error))
  {
    newCat := cat;
    var renTable := tableList;
    ghost var i := 0;
    ghost var ps := Pairs(nodes);
    ghost var result := RenameAll(cat, ps, skipError, refused);
    assert ps[0..] == ps;
    while renTable != null
      invariant 0 <= 2 * i <= |nodes|
      invariant 2 * i < |nodes| ==> renTable == nodes[2 * i]
      invariant 2 * i == |nodes| ==> renTable == null
      invariant result == Shift(RenameAll(newCat, ps[i..], skipError, refused), i)
      decreases |nodes| - 2 * i
    {
      var newTable := renTable.nextLocal;
      var step := DoRename(newCat, renTable.Name(), newTable.Name(), skipError, refused);
      RenameLoopStep(tableList, nodes, ps, i, result, newCat, skipError, refused, step);
      if step.1.Some? {
        return newCat, renTable, step.1;
      }
      newCat := step.0;
      renTable := newTable.nextLocal;
      i := i + 1;
    }
    assert ps[i..] == [];
    failed, error := null, None;
  }

  /** The loop of drizzle_rename_tables that finds, in the reversed list,
      the element before `failed`, and steps past that pair: the rest of
      the list holds the pairs renamed before the failure, backwards. */
  method FindLastRenamed(reversed: TableList, ghost rn: seq<TableList>, failed: TableList, ghost q: nat) returns (table: TableList?)
    requires Linked(reversed, rn) && 2 * q + 1 < |rn| && rn[2 * q + 1] == failed
    ensures table == First(rn[2 * q + 2..])
  {
    table := reversed;
    ghost var h := 0;
    while table.nextLocal != failed
      invariant 0 <= h <= q
      invariant table == rn[2 * h]
      decreases q - h
    {
      table := table.nextLocal.nextLocal;
      h := h + 1;
    }
    table := table.nextLocal.nextLocal;
  }

  /** The first half of the rollback: the list reversed, and the element
      of the reversed list from which the pairs before `k` follow. */
  method ReverseToLastRenamed(tableList: TableList?, ghost nodes: seq<TableList>, renTable: TableList, ghost k: nat)
    returns (reversed: TableList?, table: TableList?)
    requires Chain(tableList, nodes) && |nodes| % 2 == 0 && 2 * k < |nodes| && renTable == nodes[2 * k]
    modifies set n | n in nodes
    ensures Chain(reversed, Reversed(nodes))
    ensures Chain(table, Reversed(nodes[..2 * k]))
  {
    ghost var n := |nodes|;
    ghost var q := n / 2 - 1 - k;
    assert 2 * q + 1 == n - 1 - 2 * k;
    reversed := ReverseTableList(tableList, nodes);
    ghost var rn := Reversed(nodes);
    assert rn[2 * q + 1] == renTable;
    table := FindLastRenamed(reversed, rn, renTable, q);
    ChainSuffix(reversed, rn, n - 2 * k);
    ReversedTail(nodes, 2 * k);
  }

  /** The rollback of drizzle_rename_tables after pair `k` failed: the list
      is reversed, the pairs before `k` are renamed back in reverse order
      with skip_error, and the list is reversed again. */
  method RenameBackTables(cat: Catalog, tableList: TableList?, ghost nodes: seq<TableList>, renTable: TableList, ghost k: nat, refused: set<(TableName, TableName)>)
    returns (newCat: Catalog)
    requires Chain(tableList, nodes) && |nodes| % 2 == 0 && 2 * k < |nodes| && renTable == nodes[2 * k]
    modifies set n | n in nodes
    ensures Chain(tableList, nodes)
    ensures newCat == RenameAll(cat, Inverse(Pairs(nodes)[..k]), true, refused).0
  {
    assert tableList == nodes[0];
    var reversed, table := ReverseToLastRenamed(tableList, nodes, renTable, k);
    RollbackPairs(nodes, k);
    var stopped, rollbackError;
    newCat, stopped, rollbackError := RenameTableList(cat, table, Reversed(nodes[..2 * k]), true, refused);
    ReversedSameElements(nodes);
    var restored := ReverseTableList(reversed, Reversed(nodes));
    ReversedTwice(nodes);
    assert restored == nodes[0];
  }

  /** What RENAME TABLE leaves behind: whether it failed, the error raised,
      and the catalog.  Inside a transaction nothing is renamed; otherwise
      a failing pair makes the pairs before it be renamed back, in reverse
      order and with skip_error. */
  function RenameStatement(inTransaction: bool, cat: Catalog, pairs: seq<(TableName, TableName)>, refused: set<(TableName, TableName)>): (r: (bool, Option<RenameError>, Catalog))
    ensures r.0 <==> r.1.Some?
    ensures inTransaction ==> r == (true, Some(LockOrActiveTransaction), cat)
    ensures !inTransaction && RenameAll(cat, pairs, false, refused).1.None? ==>
      r == (false, None, RenameAll(cat, pairs, false, refused).0)
  {
    if inTransaction then (true, Some(LockOrActiveTransaction), cat)
    else
      var (c, f) := RenameAll(cat, pairs, false, refused);
      if f.None? then (false, None, c)
      else (true, Some(f.value.error), RenameAll(c, Inverse(pairs[..f.value.index]), true, refused).0)
  }

  /** RENAME TABLE is all or nothing: it either carries out every pair or
      fails with the catalog as it found it, provided the engine carries
      out each rename back it is asked for. */
  lemma RenameStatementAtomic(inTransaction: bool, cat: Catalog, pairs: seq<(TableName, TableName)>, refused: set<(TableName, TableName)>)
    requires forall i :: 0 <= i < |pairs| ==> Swap(pairs[i]) !in refused
    ensures var (failed, _, c) := RenameStatement(inTransaction, cat, pairs, refused);
      failed ==> c == cat
    ensures var (failed, _, c) := RenameStatement(inTransaction, cat, pairs, refused);
      !failed ==> c == RenameAll(cat, pairs, false, refused).0
  {
    if !inTransaction && RenameAll(cat, pairs, false, refused).1.Some? {
      RollbackRestores(cat, pairs, refused);
    }
  }

  /** drizzle_rename_tables: refused inside a transaction; otherwise the
      pairs are renamed and, when one fails, the list is reversed, the
      pairs before the failing one are renamed back with skip_error, and
      the list is put back in its order. */
  method DrizzleRenameTables(inTransaction: bool, cat: Catalog, tableList: TableList?, ghost nodes: seq<TableList>, refused: set<(TableName, TableName)>)
    returns (failed: bool, error: Option<RenameError>, newCat: Catalog)
    requires Chain(tableList, nodes) && |nodes| % 2 == 0
    modifies set n | n in nodes
    ensures Chain(tableList, nodes)
    ensures (failed, error, newCat) == RenameStatement(inTransaction, cat, Pairs(nodes), refused)
  {
    if inTransaction {
      return true, Some(LockOrActiveTransaction), cat;
    }
    ghost var ps := Pairs(nodes);
    var renTable;
    newCat, renTable, error := RenameTableList(cat, tableList, nodes, false, refused);
    if renTable == null {
      return false, error, newCat;
    }
    ghost var k := RenameAll(cat, ps, false, refused).1.value.index;
    newCat := RenameBackTables(newCat, tableList, nodes, renTable, k, refused);
    failed := true;
  }
}
