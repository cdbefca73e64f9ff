/** The COLLATIONS table function of plugin/data_engine/collations.cc: its
    seven columns, and the generator that walks the character-set table
    with two resumable cursors, `cs` over the character sets and `cl` over
    the collations, yielding one row per call.

    The character-set table all_charsets is modelled by its first 255
    slots; an empty slot is None. */
module Collations {
  import opened Common
  import opened TableFunction

  newtype uint32 = x: int | 0 <= x < 0x1_0000_0000

  /** The parts of CHARSET_INFO the generator reads; the state bits
      MY_CS_AVAILABLE, MY_CS_HIDDEN, MY_CS_PRIMARY and MY_CS_COMPILED are
      the four flags. */
  datatype CharsetInfo = CharsetInfo(
    name: string, csname: string, number: uint32, strxfrmMultiply: uint32,
    available: bool, hidden: bool, primary: bool, compiled: bool)

  /** How many slots of all_charsets the cursors walk. */
  const SLOTS := 255

  /** A character set that gets rows: present, available, not hidden and
      primary. */
  predicate Qualifies(slot: Option<CharsetInfo>)
  {
    slot.Some? && slot.value.available && !slot.value.hidden && slot.value.primary
  }

  /** my_charset_same: two collations of one character set. */
  predicate SameCharset(a: CharsetInfo, b: CharsetInfo)
  {
    a.csname == b.csname
  }

  /** A collation listed under character set `cs`: present, available and
      of the same character set. */
  predicate Matches(cs: CharsetInfo, slot: Option<CharsetInfo>)
  {
    slot.Some? && slot.value.available && SameCharset(cs, slot.value)
  }

  // ---------------------------------------------------------------------
  // The columns
  // ---------------------------------------------------------------------

  /** The columns CollationsTool declares; the three name columns use the
      default length and nullability that add_field(name) supplies. */
  function Columns(defaultLength: nat, defaultNull: bool): (r: seq<FieldDescriptor>)
    ensures |r| == 7
  {
    [ Describe("CHARACTER_SET_NAME", String, defaultLength, defaultNull),
      Describe("COLLATION_NAME", String, defaultLength, defaultNull),
      Describe("DESCRIPTION", String, defaultLength, defaultNull),
      Describe("ID", Number, DEFAULT_TYPED_LENGTH, defaultNull),
      Describe("IS_DEFAULT", Boolean, DEFAULT_TYPED_LENGTH, defaultNull),
      Describe("IS_COMPILED", Boolean, DEFAULT_TYPED_LENGTH, defaultNull),
      Describe("SORTLEN", Number, DEFAULT_TYPED_LENGTH, defaultNull) ]
  }

  function TypesOf(fields: seq<FieldDescriptor>): (r: seq<FieldType>)
    ensures |r| == |fields| && forall k :: 0 <= k < |r| ==> r[k] == fields[k].fieldType
  {
    seq(|fields|, k requires 0 <= k < |fields| => fields[k].fieldType)
  }

  /** The columns, in order: three strings, the numeric id, two booleans
      and the numeric sort length; only the strings may be NULL. */
  lemma ColumnsShape(defaultLength: nat, defaultNull: bool)
    ensures var c := Columns(defaultLength, defaultNull);
      [c[0].name, c[1].name, c[2].name, c[3].name, c[4].name, c[5].name, c[6].name] ==
        ["CHARACTER_SET_NAME", "COLLATION_NAME", "DESCRIPTION", "ID", "IS_DEFAULT", "IS_COMPILED", "SORTLEN"] &&
      TypesOf(c) == [Varchar, Varchar, Varchar, Bigint, Varchar, Varchar, Bigint] &&
      (forall k :: 3 <= k < 7 ==> !c[k].isNullable) &&
      c[4].length == Some(5) && c[5].length == Some(5)
  {
  }

  /** CollationsTool's constructor: the seven add_field calls. */
  method DeclareColumns(tool: TableFunction, defaultLength: nat, defaultNull: bool)
    modifies tool
    ensures tool.fields == old(tool.fields) + Columns(defaultLength, defaultNull)
  {
    tool.AddStringField("CHARACTER_SET_NAME", defaultLength, defaultNull);
    tool.AddStringField("COLLATION_NAME", defaultLength, defaultNull);
    tool.AddStringField("DESCRIPTION", defaultLength, defaultNull);
    tool.AddTypedField("ID", Number, defaultNull);
    tool.AddTypedField("IS_DEFAULT", Boolean, defaultNull);
    tool.AddTypedField("IS_COMPILED", Boolean, defaultNull);
    tool.AddTypedField("SORTLEN", Number, defaultNull);
  }

  // ---------------------------------------------------------------------
  // The rows
  // ---------------------------------------------------------------------

  /** A C string: the characters and the terminating NUL. */
  function CString(s: string): seq<char>
  {
    s + ['\0']
  }

  /** The seven pushes of one row, for collation `cl` of character set
      `cs`. */
  function RowPushes(cs: CharsetInfo, cl: CharsetInfo): (r: seq<Push>)
    ensures |r| == 7
  {
    [ PushChars(CString(cs.name), 0),
      PushChars(CString(cl.name), 0),
      PushChars(CString(cl.csname), 0),
      PushSigned(cl.number as int),
      PushBool(cl.primary),
      PushBool(cl.compiled),
      PushSigned(cl.strxfrmMultiply as int) ]
  }

  /** The pushes of the row a pair of slots makes. */
  function RowOf(charsets: seq<Option<CharsetInfo>>, p: (nat, nat)): seq<Push>
  {
    if Yields(charsets, p.0, p.1) then RowPushes(charsets[p.0].value, charsets[p.1].value) else []
  }

  /** The pushes of a row fill every column, each with a push that fits
      its type. */
  lemma RowFitsColumns(charsets: seq<Option<CharsetInfo>>, p: (nat, nat), defaultLength: nat, defaultNull: bool)
    requires Yields(charsets, p.0, p.1)
    ensures var types := TypesOf(Columns(defaultLength, defaultNull));
      |RowOf(charsets, p)| == |types| && Applicable(types, RowOf(charsets, p))
  {
    ColumnsShape(defaultLength, defaultNull);
  }

  /** strlen of a C string built from a name without NUL is the name's
      length. */
  lemma {:induction false} CStringLength(name: string)
    requires '\0' !in name
    ensures CStrLen(CString(name)) == |name|
  {
    if name != [] {
      assert CString(name)[1..] == CString(name[1..]);
      assert name[0] in name;
      CStringLength(name[1..]);
    }
  }

  /** A name without NUL reaches its field whole. */
  lemma NameStored(c: Cell, name: string, t: FieldType)
    requires '\0' !in name
    ensures Store(c, PushChars(CString(name), 0), t).value == Some(Text(name))
  {
    CStringLength(name);
    assert CString(name)[..|name|] == name;
  }

  /** The rows still to come from cursor position (cs, cl), as the pairs
      (character set slot, collation slot) they are made of: the collations
      from `cl` on for the set at `cs`, then every later set's from the
      start. */
  function Remaining(charsets: seq<Option<CharsetInfo>>, cs: nat, cl: nat): (r: seq<(nat, nat)>)
    ensures forall i :: 0 <= i < |r| ==> Yields(charsets, r[i].0, r[i].1) && AtOrAfter(r[i], cs, cl)
    decreases |charsets| - cs, |charsets| - cl
  {
    if cs >= |charsets| then []
    else if !Qualifies(charsets[cs]) then Remaining(charsets, cs + 1, cl)
    else if cl >= |charsets| then Remaining(charsets, cs + 1, 0)
    else if Matches(charsets[cs].value, charsets[cl]) then [(cs, cl)] + Remaining(charsets, cs, cl + 1)
    else Remaining(charsets, cs, cl + 1)
  }

  /** Whether the pair of slots (i, j) makes a row. */
  predicate Yields(charsets: seq<Option<CharsetInfo>>, i: nat, j: nat)
  {
    i < |charsets| && j < |charsets| && Qualifies(charsets[i]) && Matches(charsets[i].value, charsets[j])
  }

  /** (i, j) comes before (k, l) in character-set-major order. */
  predicate Before(p: (nat, nat), q: (nat, nat))
  {
    p.0 < q.0 || (p.0 == q.0 && p.1 < q.1)
  }

  /** Every pair comes before the ones after it. */
  predicate Ascending(r: seq<(nat, nat)>)
  {
    forall a, b :: 0 <= a < b < |r| ==> Before(r[a], r[b])
  }

  /** Pair p is at or after cursor position (cs, cl). */
  predicate AtOrAfter(p: (nat, nat), cs: nat, cl: nat)
  {
    p.0 > cs || (p.0 == cs && p.1 >= cl)
  }

  /** A pair put in front of ascending pairs that all come after it. */
  lemma ConsAscending(x: (nat, nat), t: seq<(nat, nat)>)
    requires Ascending(t) && forall i :: 0 <= i < |t| ==> AtOrAfter(t[i], x.0, x.1 + 1)
    ensures Ascending([x] + t)
  {
    var r := [x] + t;
    forall a, b | 0 <= a < b < |r|
      ensures Before(r[a], r[b])
    {
      assert r[b] == t[b - 1];
      if a == 0 {
        assert AtOrAfter(t[b - 1], x.0, x.1 + 1);
      } else {
        assert r[a] == t[a - 1];
      }
    }
  }

  /** From a cursor position the generator can be in, the rows still to
      come are exactly the row-making pairs at or after it. */
  lemma {:induction false} RemainingMembers(charsets: seq<Option<CharsetInfo>>, cs: nat, cl: nat)
    requires cl == 0 || (cs < |charsets| && Qualifies(charsets[cs]))
    ensures forall p :: p in Remaining(charsets, cs, cl) <==> Yields(charsets, p.0, p.1) && AtOrAfter(p, cs, cl)
    decreases |charsets| - cs, |charsets| - cl
  {
    if cs >= |charsets| {
    } else if !Qualifies(charsets[cs]) {
      RemainingMembers(charsets, cs + 1, cl);
    } else if cl >= |charsets| {
      RemainingMembers(charsets, cs + 1, 0);
    } else {
      RemainingMembers(charsets, cs, cl + 1);
    }
  }

  /** ... each once, in character-set-major order. */
  lemma {:induction false} RemainingAscending(charsets: seq<Option<CharsetInfo>>, cs: nat, cl: nat)
    requires cl == 0 || (cs < |charsets| && Qualifies(charsets[cs]))
    ensures Ascending(Remaining(charsets, cs, cl))
    decreases |charsets| - cs, |charsets| - cl
  {
    if cs >= |charsets| {
    } else if !Qualifies(charsets[cs]) {
      RemainingAscending(charsets, cs + 1, cl);
      assert Remaining(charsets, cs, cl) == Remaining(charsets, cs + 1, cl);
    } else if cl >= |charsets| {
      RemainingAscending(charsets, cs + 1, 0);
      assert Remaining(charsets, cs, cl) == Remaining(charsets, cs + 1, 0);
    } else if Matches(charsets[cs].value, charsets[cl]) {
      RemainingAscending(charsets, cs, cl + 1);
      RowThenAscending(charsets, cs, cl);
    } else {
      RemainingAscending(charsets, cs, cl + 1);
      assert Remaining(charsets, cs, cl) == Remaining(charsets, cs, cl + 1);
    }
  }

  /** A row in front of the ascending rows after it keeps them ascending. */
  lemma RowThenAscending(charsets: seq<Option<CharsetInfo>>, cs: nat, cl: nat)
    requires Yields(charsets, cs, cl) && Ascending(Remaining(charsets, cs, cl + 1))
    ensures Ascending(Remaining(charsets, cs, cl))
  {
    var t := Remaining(charsets, cs, cl + 1);
    ConsAscending((cs, cl), t);
    assert Remaining(charsets, cs, cl) == [(cs, cl)] + t;
  }

  /** At a row-making pair, that row comes next and the cursor moves past
      it. */
  lemma NextRow(charsets: seq<Option<CharsetInfo>>, cs: nat, cl: nat)
    requires Yields(charsets, cs, cl)
    ensures var r := Remaining(charsets, cs, cl);
      r != [] && r[0] == (cs, cl) && r[1..] == Remaining(charsets, cs, cl + 1) &&
      RowOf(charsets, r[0]) == RowPushes(charsets[cs].value, charsets[cl].value)
  {
    assert Remaining(charsets, cs, cl) == [(cs, cl)] + Remaining(charsets, cs, cl + 1);
  }

  /** The generator of CollationsTool. */
  class CollationsGenerator {
    const charsets: seq<Option<CharsetInfo>>
    var cs: nat
    var cl: nat

    /** `cl` is away from the start only while a qualifying set is being
        listed. */
    ghost predicate Valid()
      reads this
    {
      |charsets| == SLOTS && cs <= SLOTS && cl <= SLOTS &&
      (cl != 0 ==> cs < SLOTS && Qualifies(charsets[cs]))
    }

    /** Both cursors start at the first slot. */
    constructor(charsets: seq<Option<CharsetInfo>>)
      requires |charsets| == SLOTS
      ensures Valid() && this.charsets == charsets && cs == 0 && cl == 0
    {
      this.charsets := charsets;
      cs, cl := 0, 0;
    }

    /** populate: the next row's pushes, or false once the sets are
        exhausted; the cursors stay where the next call resumes. */
    method Populate() returns (more: bool, pushes: seq<Push>)
      requires Valid()
      modifies this
      ensures Valid()
      ensures var rest := Remaining(charsets, old(cs), old(cl));
        (more <==> rest != []) &&
        (more ==> pushes == RowOf(charsets, rest[0]) &&
                  Remaining(charsets, cs, cl) == rest[1..]) &&
        (!more ==> pushes == [] && Remaining(charsets, cs, cl) == [])
    {
      ghost var rest := Remaining(charsets, cs, cl);
      while cs < SLOTS
        invariant Valid()
        invariant Remaining(charsets, cs, cl) == rest
        decreases SLOTS - cs
      {
        var tmpCs := charsets[cs];
        if !Qualifies(tmpCs) {
          cs := cs + 1;
          continue;
        }
        ghost var cs0 := cs;
        while cl < SLOTS
          invariant Valid() && cs == cs0 && cs < SLOTS && Qualifies(charsets[cs]) && tmpCs == charsets[cs]
          invariant Remaining(charsets, cs, cl) == rest
          decreases SLOTS - cl
        {
          var tmpCl := charsets[cl];
          if !Matches(tmpCs.value, tmpCl) {
            cl := cl + 1;
            continue;
          }
          NextRow(charsets, cs, cl);
          pushes := RowPushes(tmpCs.value, tmpCl.value);
          cl := cl + 1;
          return true, pushes;
        }
        cl := 0;
        cs := cs + 1;
      }
      return false, [];
    }

    /** sub_populate for this tool: populate, with its pushes applied to
        the row of `gen`, whose fields are the seven columns. */
    method Fill(gen: Generator, defaultLength: nat, defaultNull: bool) returns (more: bool)
      requires Valid() && gen.Valid() && gen.types == TypesOf(Columns(defaultLength, defaultNull))
      modifies this, gen
      ensures Valid() && gen.Valid()
      ensures more <==> Remaining(charsets, old(cs), old(cl)) != []
      ensures more ==> gen.columnsIterator == 7
      ensures var rest := Remaining(charsets, old(cs), old(cl));
        more ==> gen.cells == Apply(old(gen.cells), gen.types, RowOf(charsets, rest[0])) && Remaining(charsets, cs, cl) == rest[1..]
      ensures !more ==> gen.cells == old(gen.cells) && Remaining(charsets, cs, cl) == []
    {
      ghost var rest := Remaining(charsets, cs, cl);
      RemainingMembers(charsets, cs, cl);
      if rest != [] {
        assert rest[0] in rest;
        RowFitsColumns(charsets, rest[0], defaultLength, defaultNull);
      }
      var pushes;
      more, pushes := Populate();
      more := gen.SubPopulate(pushes, more, 7);
    }
  }
}
