/** data_ref_basic of drizzled/util/data_ref.h: a view of a byte range
    held as two pointers, `begin` and `end`.  Pointers are modelled as
    64-bit addresses, NULL being address 0; the size is the pointer
    difference as a size_t. */
module DataRef {
  import opened Common

  type Address = a: int | 0 <= a < TWO_TO_64

  const NULL: Address := 0

  /** size(): end - begin, taken modulo 2^64 as size_t. */
  function RangeSize(b: Address, e: Address): (r: nat)
    ensures r < TWO_TO_64
    ensures b <= e ==> r == e - b
    ensures r == 0 <==> b == e
  {
    (e - b) % TWO_TO_64
  }

  /** The view's end after assign(b, sz) gives back sz as the size. */
  lemma SizeOfSpan(b: Address, sz: nat)
    requires b + sz < TWO_TO_64
    ensures RangeSize(b, b + sz) == sz
  {
  }

  class DataRef {
    var begin: Address
    var end: Address

    /** data_ref_basic(b, e). */
    constructor FromRange(b: Address, e: Address)
      ensures begin == b && end == e
    {
      begin, end := b, e;
    }

    /** data_ref_basic(b, sz): the view of the sz bytes from b. */
    constructor FromSize(b: Address, sz: nat)
      requires b + sz < TWO_TO_64
      ensures begin == b && end == b + sz && Size() == sz
    {
      begin, end := b, b + sz;
      SizeOfSpan(b, sz);
    }

    /** data_ref_basic(const char*): the string at b up to its NUL, whose
        memory from b on is `chars`. */
    constructor FromCString(b: Address, chars: seq<char>)
      requires '\0' in chars && b + |chars| < TWO_TO_64
      ensures begin == b && Size() == CStrLen(chars)
      ensures Size() < |chars| && chars[Size()] == '\0' && '\0' !in chars[..Size()]
    {
      var n := CStrLen(chars);
      CStrLenFindsNul(chars);
      begin, end := b, b + n;
      SizeOfSpan(b, n);
    }

    /** data_ref_basic(const U&): the view of a container whose elements
        occupy `length` bytes from `base`; an empty container gives the
        cleared view. */
    constructor FromContainer(base: Address, length: nat)
      requires base + length < TWO_TO_64
      ensures length == 0 ==> begin == NULL && end == NULL
      ensures length != 0 ==> begin == base && end == base + length && Size() == length
    {
      if length == 0 {
        begin, end := NULL, NULL;
      } else {
        begin, end := base, base + length;
        SizeOfSpan(base, length);
      }
    }

    function Begin(): Address
      reads this
    {
      begin
    }

    function End(): Address
      reads this
    {
      end
    }

    /** data() is begin(). */
    function Data(): (r: Address)
      reads this
    {
      Begin()
    }

    /** The number of bytes viewed; zero exactly when the pointers meet. */
    function Size(): (r: nat)
      reads this
      ensures r == 0 <==> Begin() == End()
      ensures Begin() <= End() ==> r == End() - Begin()
    {
      RangeSize(Begin(), End())
    }

    /** empty(): nothing is viewed. */
    function Empty(): (r: bool)
      reads this
      ensures r <==> Size() == 0
    {
      Begin() == End()
    }

    /** clear(): both pointers NULL, an empty view. */
    method Clear()
      modifies this
      ensures begin == NULL && end == NULL
      ensures Empty() && Size() == 0
    {
      begin := NULL;
      end := NULL;
    }

    /** assign(b, e). */
    method AssignRange(b: Address, e: Address)
      modifies this
      ensures begin == b && end == e
      ensures b <= e ==> Size() == e - b
    {
      begin := b;
      end := e;
    }

    /** assign(b, sz). */
    method AssignSize(b: Address, sz: nat)
      requires b + sz < TWO_TO_64
      modifies this
      ensures begin == b && end == b + sz
      ensures Size() == sz && (Empty() <==> sz == 0)
    {
      begin := b;
      end := begin + sz;
      SizeOfSpan(b, sz);
    }
  }
}
