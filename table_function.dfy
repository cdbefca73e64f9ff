/** Table functions of drizzled/plugin/table_function.cc: the column
    descriptors add_field appends to a function's table definition, and the
    Generator that fills one row by pushing values into the row's fields in
    column order.

    A field is modelled by the value last handed to its store() and its
    NULL flag; conversion inside Field::store is left out. */
module TableFunction {
  import opened Common

  /** TableFunction::ColumnType. */
  datatype ColumnType = Boolean | Number | String | Varbinary

  /** The message::Table::Field types add_field produces. */
  datatype FieldType = Varchar | Bigint

  datatype Collation = Collation(name: string, id: nat)

  /** my_charset_bin's name and number. */
  const BINARY_COLLATION := Collation("binary", 63)

  /** The length add_field(name, type, is_default_null) passes on. */
  const DEFAULT_TYPED_LENGTH := 5

  /** One field of the function's table definition: its name, type,
      default_null option, is_nullable constraint, and the string options
      (length and collation) when they were set. */
  datatype FieldDescriptor = FieldDescriptor(
    name: string, fieldType: FieldType, defaultNull: bool, isNullable: bool,
    length: Option<nat>, collation: Option<Collation>)

  /** The four-argument add_field: BOOLEAN (the switch's default case)
      forces length 5 and not-null, then falls through to STRING. */
  function Describe(name: string, columnType: ColumnType, fieldLength: nat, isDefaultNull: bool): (r: FieldDescriptor)
    ensures r.name == name
    ensures r.fieldType == Bigint <==> columnType == Number
    ensures r.defaultNull == r.isNullable
    ensures r.isNullable <==> isDefaultNull && (columnType == String || columnType == Varbinary)
    ensures r.length.None? <==> columnType == Number
    ensures columnType == Boolean ==> r.length == Some(5)
    ensures columnType == String || columnType == Varbinary ==> r.length == Some(fieldLength)
    ensures r.collation.Some? <==> columnType == Varbinary
    ensures r.collation.Some? ==> r.collation.value == BINARY_COLLATION
  {
    var (len, nullable) := if columnType == Boolean then (5, false) else (fieldLength, isDefaultNull);
    match columnType
    case Boolean => FieldDescriptor(name, Varchar, nullable, nullable, Some(len), None)
    case String => FieldDescriptor(name, Varchar, nullable, nullable, Some(len), None)
    case Varbinary => FieldDescriptor(name, Varchar, nullable, nullable, Some(len), Some(BINARY_COLLATION))
    case Number => FieldDescriptor(name, Bigint, false, false, None, None)
  }

  /** A BOOLEAN column is described exactly like a not-null STRING column
      of length 5. */
  lemma BooleanIsShortString(name: string, fieldLength: nat, isDefaultNull: bool)
    ensures Describe(name, Boolean, fieldLength, isDefaultNull) == Describe(name, String, 5, false)
  {
  }

  /** The descriptor tells the column type back, except that a BOOLEAN and
      a STRING column can look alike. */
  lemma DescriptorDeterminesType(name1: string, t1: ColumnType, n1: nat, d1: bool, name2: string, t2: ColumnType, n2: nat, d2: bool)
    requires Describe(name1, t1, n1, d1) == Describe(name2, t2, n2, d2)
    ensures name1 == name2
    ensures t1 == t2 || (t1 in {Boolean, String} && t2 in {Boolean, String})
  {
  }

  /** The function's table definition, to which add_field appends. */
  class TableFunction {
    var fields: seq<FieldDescriptor>

    constructor()
      ensures fields == []
    {
      fields := [];
    }

    /** add_field(name, type, field_length, is_default_null). */
    method AddField(name: string, columnType: ColumnType, fieldLength: nat, isDefaultNull: bool)
      modifies this
      ensures fields == old(fields) + [Describe(name, columnType, fieldLength, isDefaultNull)]
    {
      var len := fieldLength;
      var defaultNull, nullable := isDefaultNull, isDefaultNull;
      var fieldType := Varchar;
      var lengthOption: Option<nat> := None;
      var collation: Option<Collation> := None;
      if columnType == Boolean {
        len := 5;
        defaultNull, nullable := false, false;
      }
      if columnType == Number {
        fieldType := Bigint;
        defaultNull, nullable := false, false;
      } else {
        lengthOption := Some(len);
        if columnType == Varbinary {
          collation := Some(BINARY_COLLATION);
        }
      }
      fields := fields + [FieldDescriptor(name, fieldType, defaultNull, nullable, lengthOption, collation)];
    }

    /** add_field(name, type, is_default_null): length 5. */
    method AddTypedField(name: string, columnType: ColumnType, isDefaultNull: bool)
      modifies this
      ensures fields == old(fields) + [Describe(name, columnType, DEFAULT_TYPED_LENGTH, isDefaultNull)]
    {
      AddField(name, columnType, DEFAULT_TYPED_LENGTH, isDefaultNull);
    }

    /** add_field(name, field_length): a STRING column; `isDefaultNull`
        is the default argument the declaration supplies. */
    method AddStringField(name: string, fieldLength: nat, isDefaultNull: bool)
      modifies this
      ensures fields == old(fields) + [Describe(name, String, fieldLength, isDefaultNull)]
    {
      AddField(name, String, fieldLength, isDefaultNull);
    }
  }

  // ---------------------------------------------------------------------
  // Pushing values into a row
  // ---------------------------------------------------------------------

  /** What a field was last given to store: an integer with its unsigned
      flag, or characters. */
  datatype Value = Integer(n: int, unsigned: bool) | Text(s: string)

  /** A field of the row: its stored value (none yet) and its NULL flag. */
  datatype Cell = Cell(value: Option<Value>, isNull: bool)

  /** The overloads of Generator::push. */
  datatype Push =
    | PushUnsigned(u: nat)                     // push(uint64_t)
    | PushSigned(i: int)                       // push(int64_t)
    | PushChars(chars: seq<char>, length: nat) // push(const char *, uint32_t)
    | PushNull                                 // push()
    | PushText(s: string)                      // push(const std::string &)
    | PushBool(b: bool)                        // push(bool)

  /** static_cast<int64_t> of a uint64_t. */
  function ToInt64(u: nat): (r: int)
    requires u < TWO_TO_64
    ensures -TWO_TO_63 <= r < TWO_TO_63
  {
    if u < TWO_TO_63 then u else u - TWO_TO_64
  }

  /** How a field stored with the unsigned flag reads its value back. */
  function FromInt64Unsigned(v: int): (r: nat)
    requires -TWO_TO_63 <= v < TWO_TO_63
    ensures r < TWO_TO_64
  {
    if v < 0 then v + TWO_TO_64 else v
  }

  /** push(uint64_t) loses nothing: the field reads the value back. */
  lemma UnsignedRoundTrip(u: nat)
    requires u < TWO_TO_64
    ensures FromInt64Unsigned(ToInt64(u)) == u
  {
  }

  /** Whether a push may be made into a field of type `t`: integers within
      their C type, a length within the buffer, push() only on VARCHAR. */
  predicate Fits(p: Push, t: FieldType)
  {
    match p
    case PushUnsigned(u) => u < TWO_TO_64
    case PushSigned(i) => -TWO_TO_63 <= i < TWO_TO_63
    case PushChars(chars, length) => length <= |chars|
    case PushNull => t == Varchar
    case PushText(_) => true
    case PushBool(_) => true
  }

  /** The field after push(const char *, length). */
  function CharsCell(chars: seq<char>, length: nat): Cell
    requires length <= |chars|
  {
    var n := if length == 0 then CStrLen(chars) else length;
    Cell(Some(Text(chars[..n])), false)
  }

  /** The field after one push.  Every push but push() clears the NULL
      flag, except push(bool), which leaves it as it was. */
  function Store(c: Cell, p: Push, t: FieldType): (r: Cell)
    requires Fits(p, t)
    ensures r.isNull <==> p.PushNull? || (p.PushBool? && c.isNull)
    ensures p.PushNull? ==> r.value == c.value
    ensures p.PushUnsigned? ==> r.value == Some(Integer(ToInt64(p.u), true))
    ensures p.PushSigned? ==> r.value == Some(Integer(p.i, false))
    ensures p.PushBool? ==> r.value == Some(Text(if p.b then "TRUE" else "FALSE"))
  {
    match p
    case PushUnsigned(u) => Cell(Some(Integer(ToInt64(u), true)), false)
    case PushSigned(i) => Cell(Some(Integer(i, false)), false)
    case PushChars(chars, length) => CharsCell(chars, length)
    case PushNull => c.(isNull := true)
    case PushText(s) => CharsCell(s + ['\0'], |s|)
    case PushBool(b) => c.(value := Some(Text(if b then "TRUE" else "FALSE")))
  }

  /** push(const char *, 0) stores the characters up to the NUL; a
      non-zero length stores exactly that many. */
  lemma StoreChars(c: Cell, chars: seq<char>, length: nat, t: FieldType)
    requires length <= |chars|
    ensures var r := Store(c, PushChars(chars, length), t).value.value;
      r.Text? && r.s == chars[..if length == 0 then CStrLen(chars) else length] &&
      (length == 0 ==> '\0' !in r.s)
  {
  }

  /** push(std::string) stores the whole string, the empty one included. */
  lemma StoreText(c: Cell, s: string, t: FieldType)
    ensures Store(c, PushText(s), t).value == Some(Text(s))
  {
    if s == [] {
      assert CStrLen(['\0']) == 0;
    } else {
      assert (s + ['\0'])[..|s|] == s;
    }
  }

  /** Every push of `script` fits the column it lands in. */
  predicate Applicable(types: seq<FieldType>, script: seq<Push>)
  {
    |script| <= |types| && forall k :: 0 <= k < |script| ==> Fits(script[k], types[k])
  }

  /** The row after the pushes of `script`, made from the first column on:
      push k lands in column k and the columns after the last push keep
      their contents. */
  function Apply(cells: seq<Cell>, types: seq<FieldType>, script: seq<Push>): (r: seq<Cell>)
    requires |cells| == |types| && Applicable(types, script)
    ensures |r| == |cells|
    ensures forall k :: |script| <= k < |cells| ==> r[k] == cells[k]
  {
    seq(|cells|, k requires 0 <= k < |cells| =>
      if k < |script| then Store(cells[k], script[k], types[k]) else cells[k])
  }

  /** Generator: the row's fields and columns_iterator. */
  class Generator {
    const types: seq<FieldType>
    var cells: seq<Cell>
    var columnsIterator: nat

    ghost predicate Valid()
      reads this
    {
      |cells| == |types| && columnsIterator <= |cells|
    }

    /** Generator(Field**): binds the generator to the table's columns.
        columns_iterator is not set here (sub_populate sets it before any
        push), so its first value is a parameter. */
    constructor(types: seq<FieldType>, cells: seq<Cell>, start: nat)
      requires |cells| == |types| && start <= |cells|
      ensures Valid() && this.types == types && this.cells == cells && columnsIterator == start
    {
      this.types := types;
      this.cells := cells;
      columnsIterator := start;
    }

    /** push(uint64_t): stored as int64_t with the unsigned flag. */
    method PushUnsignedValue(arg: nat)
      requires Valid() && columnsIterator < |cells| && arg < TWO_TO_64
      modifies this
      ensures Valid() && columnsIterator == old(columnsIterator) + 1
      ensures cells == old(cells)[old(columnsIterator) := Store(old(cells)[old(columnsIterator)], PushUnsigned(arg), types[old(columnsIterator)])]
    {
      var stored := if arg < TWO_TO_63 then arg else arg - TWO_TO_64;
      cells := cells[columnsIterator := Cell(Some(Integer(stored, true)), false)];
      columnsIterator := columnsIterator + 1;
    }

    /** push(int64_t). */
    method PushSignedValue(arg: int)
      requires Valid() && columnsIterator < |cells| && -TWO_TO_63 <= arg < TWO_TO_63
      modifies this
      ensures Valid() && columnsIterator == old(columnsIterator) + 1
      ensures cells == old(cells)[old(columnsIterator) := Store(old(cells)[old(columnsIterator)], PushSigned(arg), types[old(columnsIterator)])]
    {
      cells := cells[columnsIterator := Cell(Some(Integer(arg, false)), false)];
      columnsIterator := columnsIterator + 1;
    }

    /** push(const char *, length): a zero length means strlen. */
    method PushCharsValue(arg: seq<char>, length: nat)
      requires Valid() && columnsIterator < |cells| && length <= |arg|
      modifies this
      ensures Valid() && columnsIterator == old(columnsIterator) + 1
      ensures cells == old(cells)[old(columnsIterator) := Store(old(cells)[old(columnsIterator)], PushChars(arg, length), types[old(columnsIterator)])]
    {
      var n := length;
      if n == 0 {
        n := CStrLen(arg);
      }
      cells := cells[columnsIterator := Cell(Some(Text(arg[..n])), false)];
      columnsIterator := columnsIterator + 1;
    }

    /** push(): sets the field NULL; the field must be a VARCHAR. */
    method PushNullValue()
      requires Valid() && columnsIterator < |cells| && types[columnsIterator] == Varchar
      modifies this
      ensures Valid() && columnsIterator == old(columnsIterator) + 1
      ensures cells == old(cells)[old(columnsIterator) := Store(old(cells)[old(columnsIterator)], PushNull, types[old(columnsIterator)])]
    {
      cells := cells[columnsIterator := cells[columnsIterator].(isNull := true)];
      columnsIterator := columnsIterator + 1;
    }

    /** push(std::string): push(c_str(), length()). */
    method PushTextValue(arg: string)
      requires Valid() && columnsIterator < |cells|
      modifies this
      ensures Valid() && columnsIterator == old(columnsIterator) + 1
      ensures cells == old(cells)[old(columnsIterator) := Store(old(cells)[old(columnsIterator)], PushText(arg), types[old(columnsIterator)])]
    {
      PushCharsValue(arg + ['\0'], |arg|);
    }

    /** push(bool): "TRUE" or "FALSE", without set_notnull. */
    method PushBoolValue(arg: bool)
      requires Valid() && columnsIterator < |cells|
      modifies this
      ensures Valid() && columnsIterator == old(columnsIterator) + 1
      ensures cells == old(cells)[old(columnsIterator) := Store(old(cells)[old(columnsIterator)], PushBool(arg), types[old(columnsIterator)])]
    {
      if arg {
        cells := cells[columnsIterator := cells[columnsIterator].(value := Some(Text("TRUE")))];
      } else {
        cells := cells[columnsIterator := cells[columnsIterator].(value := Some(Text("FALSE")))];
      }
      columnsIterator := columnsIterator + 1;
    }

    /** One push, by overload. */
    method Push(p: Push)
      requires Valid() && columnsIterator < |cells| && Fits(p, types[columnsIterator])
      modifies this
      ensures Valid() && columnsIterator == old(columnsIterator) + 1
      ensures cells == old(cells)[old(columnsIterator) := Store(old(cells)[old(columnsIterator)], p, types[old(columnsIterator)])]
    {
      match p
      case PushUnsigned(u) => PushUnsignedValue(u);
      case PushSigned(i) => PushSignedValue(i);
      case PushChars(chars, length) => PushCharsValue(chars, length);
      case PushNull => PushNullValue();
      case PushText(s) => PushTextValue(s);
      case PushBool(b) => PushBoolValue(b);
    }

    /** sub_populate: the iterator goes back to the first column and
        populate runs; its pushes are `script` and its answer `more`.  When
        it produced a row, the pushes must have covered all `fieldSize`
        columns. */
    method SubPopulate(script: seq<Push>, more: bool, fieldSize: nat) returns (r: bool)
      requires Valid() && Applicable(types, script)
      requires more ==> |script| == fieldSize
      modifies this
      ensures Valid() && r == more && columnsIterator == |script|
      ensures cells == Apply(old(cells), types, script)
    {
      columnsIterator := 0;
      var k := 0;
      while k < |script|
        invariant Valid() && k <= |script| && columnsIterator == k
        invariant cells == Apply(old(cells), types, script[..k])
      {
        assert Applicable(types, script[..k + 1]);
        Push(script[k]);
        k := k + 1;
      }
      assert script[..k] == script;
      var difference := columnsIterator;
      assert more ==> difference == fieldSize;
      r := more;
    }
  }
}
