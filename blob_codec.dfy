/** The BLOB column codec of drizzled/field/blob.cc, for the binary
    character set on a little-endian host.

    A blob lives in a record as a slot of `packlength` bytes (1 to 4) that
    hold its length, followed by a pointer to the payload.  The slot is
    modelled as a `prefix` byte string and an optional payload (`None` is a
    NULL pointer).  Rows, keys and sort keys are byte strings written into
    caller buffers. */
module BlobCodec {
  import opened Common

  // ---------------------------------------------------------------------
  // Length prefix
  // ---------------------------------------------------------------------

  function Pow2(k: nat): (r: nat)
    ensures r >= 1
  {
    if k == 0 then 1 else 2 * Pow2(k - 1)
  }

  lemma {:induction false} Pow2Bytes(m: nat)
    ensures Pow2(8 * m) == Pow256(m)
  {
    if m > 0 {
      Pow2Bytes(m - 1);
      var k := 8 * (m - 1);
      assert Pow2(k + 8) == 256 * Pow2(k) by {
        assert Pow2(k + 8) == 2 * Pow2(k + 7);
        assert Pow2(k + 7) == 2 * Pow2(k + 6);
        assert Pow2(k + 6) == 2 * Pow2(k + 5);
        assert Pow2(k + 5) == 2 * Pow2(k + 4);
        assert Pow2(k + 4) == 2 * Pow2(k + 3);
        assert Pow2(k + 3) == 2 * Pow2(k + 2);
        assert Pow2(k + 2) == 2 * Pow2(k + 1);
        assert Pow2(k + 1) == 2 * Pow2(k);
      }
    }
  }

  /** blob_pack_length_to_max_length: the largest length a prefix of
      `packlength` bytes holds; widths above 4 count as 4. */
  function MaxLength(packlength: nat): (r: nat)
    ensures r + 1 == Pow256(Min(packlength, 4))
  {
    Pow2Bytes(Min(packlength, 4));
    Pow2(Min(packlength, 4) * 8) - 1
  }

  /** The bytes store_length (and put_length) writes for `n`: the low
      `width` bytes, least significant first, for widths 1 to 4, and
      nothing for any other width. */
  function LengthBytes(n: nat, width: nat): (r: seq<byte>)
    ensures |r| == (if 1 <= width <= 4 then width else 0)
    ensures 1 <= width <= 4 ==> FromLE(r) == n % Pow256(width)
  {
    if 1 <= width <= 4 then
      LERoundTrip(n, width);
      LE(n, width)
    else []
  }

  /** get_length: the length read from a prefix of `width` bytes; any
      width other than 1 to 4 reads as 0. */
  function GetLength(pos: seq<byte>, width: nat): (r: nat)
    requires 1 <= width <= 4 ==> width <= |pos|
    ensures r <= MaxLength(width)
    ensures !(1 <= width <= 4) ==> r == 0
  {
    if 1 <= width <= 4 then FromLE(pos[..width]) else 0
  }

  /** Reading back a stored length gives it modulo the width's range, so
      exactly when it fits. */
  lemma LengthRoundTrip(n: nat, width: nat, rest: seq<byte>)
    requires 1 <= width <= 4
    ensures GetLength(LengthBytes(n, width) + rest, width) == n % Pow256(width)
    ensures GetLength(LengthBytes(n, width) + rest, width) == n <==> n <= MaxLength(width)
  {
    var bytes := LengthBytes(n, width);
    assert (bytes + rest)[..width] == bytes;
    var p := Pow256(width);
    assert MaxLength(width) + 1 == p;
    if n < p {
      ModUnique(n, p, 0, n);
    } else {
      assert n % p < p;
    }
  }

  /** MaxLength is exactly the largest length that survives the prefix. */
  lemma MaxLengthIsLargest(width: nat)
    requires 1 <= width <= 4
    ensures forall n: nat :: GetLength(LengthBytes(n, width), width) == n <==> n <= MaxLength(width)
  {
    forall n: nat
      ensures GetLength(LengthBytes(n, width), width) == n <==> n <= MaxLength(width)
    {
      LengthRoundTrip(n, width, []);
      assert LengthBytes(n, width) + [] == LengthBytes(n, width);
    }
  }

  /** max_display_length: the prefix's range scaled by the widest character;
      a 4-byte prefix is capped at 2^32 - 1. */
  function MaxDisplayLength(packlength: nat, mbmaxlen: nat): (r: nat)
    requires 1 <= packlength <= 4
    ensures packlength < 4 ==> r == MaxLength(packlength) * mbmaxlen
    ensures mbmaxlen == 1 ==> r == MaxLength(packlength)
  {
    match packlength
    case 1 => 255 * mbmaxlen
    case 2 => 65535 * mbmaxlen
    case 3 => 16777215 * mbmaxlen
    case 4 => 4294967295
  }

  // ---------------------------------------------------------------------
  // The field slot and Field_blob::store
  // ---------------------------------------------------------------------

  /** A blob slot of some record: its length prefix and the payload its
      pointer refers to. */
  datatype BlobSlot = BlobSlot(prefix: seq<byte>, data: seq<byte>)

  predicate WellFormedSlot(packlength: nat, s: BlobSlot)
  {
    1 <= packlength <= 4 && |s.prefix| == packlength && GetLength(s.prefix, packlength) <= |s.data|
  }

  /** The value a slot holds: as many payload bytes as its prefix says. */
  function SlotValue(packlength: nat, s: BlobSlot): (r: seq<byte>)
    requires WellFormedSlot(packlength, s)
    ensures |r| == GetLength(s.prefix, packlength) && r == s.data[..|r|]
  {
    s.data[..GetLength(s.prefix, packlength)]
  }

  /** The blob field bound to the current record. */
  class BlobField {
    const packlength: nat
    /** field_length: blob_pack_length_to_max_length(packlength). */
    const fieldLength: nat
    /** The length prefix in the record. */
    var prefix: seq<byte>
    /** The pointer part of the slot; `None` is a NULL pointer. */
    var ptr: Option<seq<byte>>
    /** The field's own buffer (`value`), which `ptr` refers to after a copy. */
    var value: seq<byte>

    ghost predicate Valid()
      reads this
    {
      1 <= packlength <= 4 && |prefix| == packlength &&
      (ptr.None? ==> GetLength(prefix, packlength) == 0) &&
      (ptr.Some? ==> GetLength(prefix, packlength) <= |ptr.value|)
    }

    /** get_length() on the current record. */
    function Length(): (r: nat)
      reads this
      requires Valid()
      ensures r <= MaxLength(packlength)
    {
      GetLength(prefix, packlength)
    }

    /** The bytes the field currently holds. */
    function Contents(): (r: seq<byte>)
      reads this
      requires Valid()
      ensures |r| == Length()
    {
      if ptr.None? then [] else ptr.value[..Length()]
    }

    /** Field_blob's constructor: the field is bound to a slot of the
        record, `field_length` is the largest length its prefix can hold,
        and its own buffer starts empty. */
    constructor (packlength: nat, prefix: seq<byte>, ptr: Option<seq<byte>>)
      requires 1 <= packlength <= 4 && |prefix| == packlength
      requires ptr.None? ==> GetLength(prefix, packlength) == 0
      requires ptr.Some? ==> GetLength(prefix, packlength) <= |ptr.value|
      ensures Valid() && this.packlength == packlength && fieldLength == MaxLength(packlength)
      ensures this.prefix == prefix && this.ptr == ptr && value == []
    {
      this.packlength := packlength;
      fieldLength := MaxLength(packlength);
      this.prefix := prefix;
      this.ptr := ptr;
      value := [];
    }

    /** The store of (a prefix of) the field's own buffer: store_length
        of its length and the buffer's pointer, kept as it is. */
    method StoreOwnBuffer(from: seq<byte>)
      requires Valid() && 0 < |from| <= |value| && from == value[..|from|]
      modifies this`prefix, this`ptr
      ensures Valid() && ptr == Some(value)
      ensures Length() == |from| % Pow256(packlength)
      ensures Length() <= |from| && Contents() == from[..Length()]
    {
      var length := |from|;
      prefix := LengthBytes(length, packlength);
      ptr := Some(value);
      LengthRoundTrip(length, packlength, []);
      assert prefix + [] == prefix;
      ModAtMost(length, Pow256(packlength));
      var n := Length();
      assert from[..n] == value[..length][..n] == value[..n];
    }

    /** Field_blob::store for the binary character set.  `fromIsValue`
        says that the caller passes (a prefix of) the field's own buffer,
        whose pointer is then kept as it is; `allocOk`
        says whether growing that buffer succeeds; `countCutFields` says
        whether the session reports truncation. */
    method Store(from: seq<byte>, fromIsValue: bool, allocOk: bool, countCutFields: bool) returns (r: int)
      requires Valid()
      requires fromIsValue ==> |from| <= |value| && from == value[..|from|]
      modifies this
      ensures Valid()
      ensures |from| == 0 ==> r == 0 && prefix == Zeros(packlength) && ptr == None && value == old(value)
      ensures |from| > 0 && fromIsValue ==>
        r == 0 && ptr == Some(value) && value == old(value) && Length() == |from| % Pow256(packlength)
      ensures |from| > 0 && fromIsValue ==> Length() <= |from| && Contents() == from[..Length()]
      ensures |from| > 0 && !fromIsValue && !allocOk ==>
        r == -1 && prefix == Zeros(packlength) && ptr == None && value == old(value)
      ensures |from| > 0 && !fromIsValue && allocOk ==>
        Contents() == from[..Min(|from|, MaxLength(packlength))] && ptr == Some(value) &&
        r == (if |from| > MaxLength(packlength) && countCutFields then 2 else 0)
    {
      if |from| == 0 {
        prefix := Zeros(packlength);
        ptr := None;
        LEOfZeros(packlength);
        return 0;
      }
      if fromIsValue {
        StoreOwnBuffer(from);
        return 0;
      }
      var newLength := Min(MaxLength(packlength), |from|);
      if !allocOk {
        prefix := Zeros(packlength);
        ptr := None;
        LEOfZeros(packlength);
        return -1;
      }
      value := from[..newLength];
      prefix := LengthBytes(newLength, packlength);
      ptr := Some(value);
      assert prefix[..packlength] == prefix;
      LengthRoundTrip(newLength, packlength, []);
      assert prefix + [] == prefix;
      r := if newLength < |from| && countCutFields then 2 else 0;
    }

    /** Field_blob::unpack: reads a prefix of the master's width (the low
        byte of `paramData`, or this field's width when it is 0), stores
        the payload that follows and returns the position after it. */
    method Unpack(src: seq<byte>, at: nat, paramData: nat, allocOk: bool, countCutFields: bool)
      returns (next: nat)
      requires Valid()
      requires at + MasterWidth(paramData, packlength) <= |src|
      requires at + MasterWidth(paramData, packlength) + GetLength(src[at..], MasterWidth(paramData, packlength)) <= |src|
      modifies this
      ensures Valid()
      ensures next == at + ReadPacked(src[at..], MasterWidth(paramData, packlength)).1
      ensures var (payload, _) := ReadPacked(src[at..], MasterWidth(paramData, packlength));
        (allocOk || payload == [] ==> Contents() == payload[..Min(|payload|, MaxLength(packlength))]) &&
        (!allocOk && payload != [] ==> Contents() == [])
    {
      var w := MasterWidth(paramData, packlength);
      var length := GetLength(src[at..], w);
      var payload := src[at + w .. at + w + length];
      assert payload == src[at..][w .. w + length];
      var code := Store(payload, false, allocOk, countCutFields);
      if payload == [] {
        LEOfZeros(packlength);
      }
      next := at + w + length;
    }

    /** Field_blob::unpack_key: reads a 1-byte length (2 bytes when
        `maxLength` > 255), puts it into the prefix and points at the key
        bytes that follow, or stores a NULL pointer for length 0. */
    method UnpackKey(src: seq<byte>, at: nat, maxLength: nat) returns (next: nat)
      requires Valid()
      requires at + KeyHeaderWidth(maxLength) <= |src|
      requires at + KeyHeaderWidth(maxLength) + KeyLength(src[at..], maxLength) <= |src|
      modifies this
      ensures Valid() && value == old(value)
      ensures var (payload, n) := ReadKey(src[at..], maxLength);
        next == at + n && prefix == LengthBytes(|payload|, packlength) &&
        ptr == (if payload == [] then None else Some(payload)) &&
        Length() == |payload| % Pow256(packlength)
    {
      var length := KeyLength(src[at..], maxLength);
      var h := KeyHeaderWidth(maxLength);
      assert src[at + h .. at + h + length] == src[at..][h .. h + length];
      prefix := LengthBytes(length, packlength);
      LengthRoundTrip(length, packlength, []);
      assert prefix + [] == prefix;
      assert prefix[..packlength] == prefix;
      if length > 0 {
        ptr := Some(src[at + h .. at + h + length]);
      } else {
        ptr := None;
      }
      next := at + h + length;
    }

    /** Field_blob::pack: writes the packed image of the blob in record slot
        `from` into `to` at `at` and returns the position after it. */
    method Pack(to: array<byte>, at: nat, from: BlobSlot, maxLength: nat) returns (end: nat)
      requires WellFormedSlot(packlength, from)
      requires at + |PackImage(packlength, from, maxLength)| <= to.Length
      modifies to
      ensures end == at + |PackImage(packlength, from, maxLength)|
      ensures to[..] == Splice(old(to[..]), at, PackImage(packlength, from, maxLength))
    {
      var image := PackImage(packlength, from, maxLength);
      CopyInto(to, at, image);
      end := at + |image|;
    }

    /** Field_blob::pack_key: writes the key image of the blob in record
        slot `from` into `to` at `at` and returns the position after it. */
    method PackKey(to: array<byte>, at: nat, from: BlobSlot, maxLength: nat) returns (end: nat)
      requires WellFormedSlot(packlength, from)
      requires at + |PackKeyImage(SlotValue(packlength, from), maxLength)| <= to.Length
      modifies to
      ensures end == at + |PackKeyImage(SlotValue(packlength, from), maxLength)|
      ensures to[..] == Splice(old(to[..]), at, PackKeyImage(SlotValue(packlength, from), maxLength))
    {
      var image := PackKeyImage(SlotValue(packlength, from), maxLength);
      CopyInto(to, at, image);
      end := at + |image|;
    }

    /** Field_blob::sort_string: writes the `length`-byte sort key of the
        current value into `to`. */
    method SortString(to: array<byte>, length: nat)
      requires Valid()
      requires Length() > 0 ==> packlength <= length
      requires length <= to.Length
      modifies to
      ensures to[..] == Splice(old(to[..]), 0, SortKey(Contents(), length, packlength))
    {
      CopyInto(to, 0, SortKey(Contents(), length, packlength));
    }
  }

  lemma LEOfZeros(width: nat)
    ensures 1 <= width <= 4 ==> GetLength(Zeros(width), width) == 0
  {
    if 1 <= width <= 4 {
      assert Zeros(width)[..width] == Zeros(width);
      LEOfFromLEZeros(width);
    }
  }

  lemma {:induction false} LEOfFromLEZeros(n: nat)
    ensures FromLE(Zeros(n)) == 0
  {
    if n > 0 {
      assert Zeros(n)[1..] == Zeros(n - 1);
      LEOfFromLEZeros(n - 1);
    }
  }

  // ---------------------------------------------------------------------
  // Row images: pack / unpack
  // ---------------------------------------------------------------------

  /** The prefix width unpack reads: the low byte of `paramData`, or the
      field's own width when `paramData` is 0. */
  function MasterWidth(paramData: nat, packlength: nat): (r: nat)
    ensures r < 256 || r == packlength
    ensures paramData == 0 ==> r == packlength
  {
    if paramData > 0 then paramData % 256 else packlength
  }

  /** What unpack consumes from the front of `src` with a prefix of
      `width` bytes: the payload and the number of bytes consumed. */
  function ReadPacked(src: seq<byte>, width: nat): (r: (seq<byte>, nat))
    requires width <= |src|
    requires width + GetLength(src, width) <= |src|
    ensures r.1 == width + |r.0| <= |src|
    ensures r.0 == src[width .. r.1]
    ensures |r.0| == GetLength(src, width)
  {
    var length := GetLength(src, width);
    (src[width .. width + length], width + length)
  }

  /** The image pack writes as the code stands: the prefix holds the length
      clipped to `maxLength`, but the whole payload follows. */
  function PackImageAsWritten(packlength: nat, from: BlobSlot, maxLength: nat): (r: seq<byte>)
    requires WellFormedSlot(packlength, from)
    ensures |r| == packlength + |SlotValue(packlength, from)|
    ensures r[..packlength] == LengthBytes(Min(|SlotValue(packlength, from)|, maxLength), packlength)
    ensures r[packlength..] == SlotValue(packlength, from)
  {
    var v := SlotValue(packlength, from);
    LengthBytes(Min(|v|, maxLength), packlength) + v
  }

  /** The image pack is meant to write: the prefix and the payload both
      clipped to `maxLength`. */
  function PackImage(packlength: nat, from: BlobSlot, maxLength: nat): (r: seq<byte>)
    requires WellFormedSlot(packlength, from)
    ensures |r| == packlength + Min(|SlotValue(packlength, from)|, maxLength)
    ensures r[..packlength] == LengthBytes(Min(|SlotValue(packlength, from)|, maxLength), packlength)
    ensures r[packlength..] == SlotValue(packlength, from)[..Min(|SlotValue(packlength, from)|, maxLength)]
  {
    var v := SlotValue(packlength, from);
    var k := Min(|v|, maxLength);
    LengthBytes(k, packlength) + v[..k]
  }

  /** Unpacking a packed image with the same width gives back the clipped
      value and ends exactly where the image ends. */
  lemma PackUnpackRoundTrip(packlength: nat, from: BlobSlot, maxLength: nat, rest: seq<byte>)
    requires WellFormedSlot(packlength, from)
    ensures GetLength(PackImage(packlength, from, maxLength) + rest, packlength) ==
      Min(|SlotValue(packlength, from)|, maxLength)
    ensures var image := PackImage(packlength, from, maxLength);
      ReadPacked(image + rest, packlength) ==
        (SlotValue(packlength, from)[..Min(|SlotValue(packlength, from)|, maxLength)], |image|)
  {
    var v := SlotValue(packlength, from);
    var k := Min(|v|, maxLength);
    var image := PackImage(packlength, from, maxLength);
    assert image == LengthBytes(k, packlength) + v[..k];
    assert image + rest == LengthBytes(k, packlength) + (v[..k] + rest);
    LengthRoundTrip(k, packlength, v[..k] + rest);
    assert k <= MaxLength(packlength) by {
      assert k <= |v| == GetLength(from.prefix, packlength);
    }
    assert (image + rest)[packlength .. packlength + k] == v[..k];
  }

  /** With a clip at least as long as the value, the code as written and
      the intended image agree. */
  lemma PackAsWrittenAgreesWhenUnclipped(packlength: nat, from: BlobSlot, maxLength: nat)
    requires WellFormedSlot(packlength, from) && |SlotValue(packlength, from)| <= maxLength
    ensures PackImageAsWritten(packlength, from, maxLength) == PackImage(packlength, from, maxLength)
  {
    var v := SlotValue(packlength, from);
    assert v[..|v|] == v;
  }

  /** The image pack writes as the code stands is misframed once the value
      is longer than `maxLength`: a 2-byte value packed with a 1-byte clip
      is 3 bytes long, but unpack consumes only 2 of them. */
  lemma PackAsWrittenMisframes()
    ensures PackImageAsWritten(1, BlobSlot([2], [7, 7]), 1) == [1, 7, 7]
    ensures GetLength([1, 7, 7], 1) == 1
    ensures ReadPacked([1, 7, 7], 1) == ([7], 2)
  {
    var from := BlobSlot([2], [7, 7]);
    assert FromLE([2]) == 2 by {
      assert [2][1..] == [];
    }
    assert GetLength([2], 1) == 2 by {
      assert [2][..1] == [2];
    }
    assert SlotValue(1, from) == [7, 7];
    var image := PackImageAsWritten(1, from, 1);
    assert LengthBytes(1, 1) == [1];
    assert image == [1, 7, 7];
    assert [1, 7, 7][..1] == [1];
    assert [1, 7, 7][1..2] == [7];
    assert FromLE([1]) == 1 by {
      assert [1][1..] == [];
    }
  }

  // ---------------------------------------------------------------------
  // Key images: pack_key / unpack_key / pack_key_from_key_image
  // ---------------------------------------------------------------------

  /** Keys carry a 1-byte length, or 2 bytes when the key part is longer
      than 255 bytes. */
  function KeyHeaderWidth(maxLength: nat): (r: nat)
    ensures r == 1 || r == 2
    ensures r == 2 <==> maxLength > 255
  {
    if maxLength > 255 then 2 else 1
  }

  /** The length header of a key image: the low byte, and the high byte
      when the key part is longer than 255 bytes. */
  function KeyLengthHeader(length: nat, maxLength: nat): (r: seq<byte>)
    ensures |r| == KeyHeaderWidth(maxLength)
    ensures r[0] == length % 256
    ensures maxLength > 255 ==> r[1] == (length / 256) % 256
  {
    [length % 256] + (if maxLength > 255 then [(length / 256) % 256] else [])
  }

  /** The key image pack_key writes for the binary character set: the
      value clipped to `maxLength` bytes behind its length header. */
  function PackKeyImage(v: seq<byte>, maxLength: nat): (r: seq<byte>)
    ensures |r| == KeyHeaderWidth(maxLength) + Min(|v|, maxLength)
    ensures r[KeyHeaderWidth(maxLength)..] == v[..Min(|v|, maxLength)]
  {
    var length := Min(|v|, maxLength);
    KeyLengthHeader(length, maxLength) + v[..length]
  }

  /** The length unpack_key reads from the front of `src`. */
  function KeyLength(src: seq<byte>, maxLength: nat): (r: nat)
    requires KeyHeaderWidth(maxLength) <= |src|
    ensures r < 65536 && (maxLength <= 255 ==> r < 256)
  {
    src[0] as int + (if maxLength > 255 then src[1] as int * 256 else 0)
  }

  /** What unpack_key consumes from the front of `src`: the key bytes and
      the number of bytes consumed. */
  function ReadKey(src: seq<byte>, maxLength: nat): (r: (seq<byte>, nat))
    requires KeyHeaderWidth(maxLength) <= |src|
    requires KeyHeaderWidth(maxLength) + KeyLength(src, maxLength) <= |src|
    ensures r.1 == KeyHeaderWidth(maxLength) + |r.0|
    ensures |r.0| == KeyLength(src, maxLength)
    ensures r.0 == src[KeyHeaderWidth(maxLength) .. r.1]
  {
    var h := KeyHeaderWidth(maxLength);
    var length := KeyLength(src, maxLength);
    (src[h .. h + length], h + length)
  }

  /** A key image read back gives the clipped value and the position right
      after the image, for key parts up to 64K - 1 bytes. */
  lemma PackKeyRoundTrip(v: seq<byte>, maxLength: nat, rest: seq<byte>)
    requires maxLength < 65536
    ensures KeyLength(PackKeyImage(v, maxLength) + rest, maxLength) == Min(|v|, maxLength)
    ensures var image := PackKeyImage(v, maxLength);
      ReadKey(image + rest, maxLength) == (v[..Min(|v|, maxLength)], |image|)
  {
    var length := Min(|v|, maxLength);
    var h := KeyHeaderWidth(maxLength);
    var image := PackKeyImage(v, maxLength);
    var src := image + rest;
    assert src[0] == length % 256;
    if maxLength > 255 {
      assert src[1] == (length / 256) % 256;
    }
    assert KeyLength(src, maxLength) == length;
    assert src[h .. h + length] == v[..length];
  }

  /** get_key_image for the binary character set, into a key part of
      `length` bytes: the 2-byte little-endian length (HA_KEY_BLOB_LENGTH)
      of the value clipped to `length`, the clipped bytes, and zeros up to
      the end of the key part.  The second component is the returned size,
      HA_KEY_BLOB_LENGTH plus the clipped length. */
  function KeyImage(v: seq<byte>, length: nat): (r: (seq<byte>, nat))
    requires length < 65536
    ensures |r.0| == 2 + length && r.1 == 2 + Min(|v|, length)
    ensures FromLE(r.0[..2]) == Min(|v|, length)
    ensures r.0[2 .. r.1] == v[..Min(|v|, length)]
    ensures forall i :: r.1 <= i < |r.0| ==> r.0[i] == 0
  {
    var clipped := Min(|v|, length);
    var image := LE(clipped, 2) + v[..clipped] + Zeros(length - clipped);
    LERoundTrip(clipped, 2);
    assert image[..2] == LE(clipped, 2);
    assert image[2 .. 2 + clipped] == v[..clipped];
    (image, 2 + clipped)
  }

  /** pack_key_from_key_image: re-packs a key-buffer image with the
      length clipped to `maxLength` and a 1- or 2-byte header. */
  function PackKeyFromKeyImage(from: seq<byte>, maxLength: nat): (r: seq<byte>)
    requires 2 <= |from|
    requires 2 + Min(FromLE(from[..2]), maxLength) <= |from|
    ensures |r| == KeyHeaderWidth(maxLength) + Min(FromLE(from[..2]), maxLength)
  {
    var length := Min(FromLE(from[..2]), maxLength);
    KeyLengthHeader(length, maxLength) + from[2 .. 2 + length]
  }

  /** Re-packing the key-buffer image of a value gives the same bytes as
      packing the value clipped to the key part; when the key part is at
      least `maxLength` long, the same bytes as packing the value from the
      record. */
  lemma KeyImageRepacksAsPackKey(v: seq<byte>, length: nat, maxLength: nat, rest: seq<byte>)
    requires length < 65536
    ensures FromLE((KeyImage(v, length).0 + rest)[..2]) == Min(|v|, length)
    ensures PackKeyFromKeyImage(KeyImage(v, length).0 + rest, maxLength) == PackKeyImage(v[..Min(|v|, length)], maxLength)
    ensures maxLength <= length ==> PackKeyFromKeyImage(KeyImage(v, length).0 + rest, maxLength) == PackKeyImage(v, maxLength)
  {
    var image := KeyImage(v, length).0;
    var from := image + rest;
    assert from[..2] == image[..2];
    var clipped := Min(|v|, length);
    var n := Min(clipped, maxLength);
    assert from[2 .. 2 + n] == image[2 .. 2 + clipped][..n];
    assert v[..clipped][..n] == v[..n];
    if maxLength <= length {
      assert n == Min(|v|, maxLength);
    }
  }

  /** packed_col_length: the size of the key image at the front of `data`. */
  function PackedColLength(data: seq<byte>, length: nat): (r: nat)
    requires KeyHeaderWidth(length) <= |data|
    ensures r == KeyHeaderWidth(length) + KeyLength(data, length)
  {
    if length > 255 then
      FromLE2(data[..2]);
      FromLE(data[..2]) + 2
    else data[0] as int + 1
  }

  /** packed_col_length measures exactly the key image pack_key wrote. */
  lemma PackedColLengthOfPackKey(v: seq<byte>, maxLength: nat, rest: seq<byte>)
    requires maxLength < 65536
    ensures PackedColLength(PackKeyImage(v, maxLength) + rest, maxLength) == |PackKeyImage(v, maxLength)|
  {
    PackKeyRoundTrip(v, maxLength, rest);
  }

  /** max_packed_col_length: the largest key image for a key part of
      `maxLength` bytes. */
  function MaxPackedColLength(maxLength: nat): (r: nat)
    ensures forall v :: |PackKeyImage(v, maxLength)| <= r
    ensures forall v :: |v| >= maxLength ==> |PackKeyImage(v, maxLength)| == r
  {
    (if maxLength > 255 then 2 else 1) + maxLength
  }

  // ---------------------------------------------------------------------
  // Comparison: cmp_binary
  // ---------------------------------------------------------------------

  /** memcmp over the first `n` bytes, as its sign. */
  function MemCmp(a: seq<byte>, b: seq<byte>, n: nat): (r: int)
    requires n <= |a| && n <= |b|
    ensures -1 <= r <= 1
    ensures r == 0 <==> a[..n] == b[..n]
    ensures r < 0 ==> LexLess(a, b)
    ensures r > 0 ==> LexLess(b, a)
  {
    if n == 0 then 0
    else if a[0] != b[0] then (if a[0] < b[0] then -1 else 1)
    else
      var r := MemCmp(a[1..], b[1..], n - 1);
      assert a[..n] == [a[0]] + a[1..][..n - 1];
      assert b[..n] == [b[0]] + b[1..][..n - 1];
      r
  }

  function Clip(v: seq<byte>, maxLength: nat): (r: seq<byte>)
    ensures r == v[..Min(|v|, maxLength)]
  {
    if |v| <= maxLength then v else v[..maxLength]
  }

  /** cmp_binary with the length difference taken as a signed integer:
      negative, zero or positive as the clipped values sort in memcmp
      order. */
  function CmpBinary(a: seq<byte>, b: seq<byte>, maxLength: nat): (r: int)
    ensures r < 0 <==> LexLess(Clip(a, maxLength), Clip(b, maxLength))
    ensures r > 0 <==> LexLess(Clip(b, maxLength), Clip(a, maxLength))
    ensures r == 0 <==> Clip(a, maxLength) == Clip(b, maxLength)
  {
    var a', b' := Clip(a, maxLength), Clip(b, maxLength);
    var n := Min(|a'|, |b'|);
    var diff := MemCmp(a', b', n);
    LexLessAsymmetric(a', b');
    if diff != 0 then diff
    else
      LexLessByLength(a', b', n);
      LexLessByLength(b', a', n);
      LexLessIrreflexive(a');
      |a'| - |b'|
  }

  /** The 32-bit pattern `x` read as a signed int. */
  function Int32(x: nat): (r: int)
    requires x < 0x1_0000_0000
    ensures -0x8000_0000 <= r < 0x8000_0000 && r % 0x1_0000_0000 == x
  {
    if x < 0x8000_0000 then x else x - 0x1_0000_0000
  }

  /** cmp_binary as the code stands: on a tie the difference of the two
      lengths is taken in unsigned 32-bit arithmetic and cast to int. */
  function CmpBinaryAsWritten(a: seq<byte>, b: seq<byte>, maxLength: nat): (r: int)
    requires maxLength < 0x1_0000_0000
    ensures MemCmp(Clip(a, maxLength), Clip(b, maxLength), Min(|Clip(a, maxLength)|, |Clip(b, maxLength)|)) != 0 ==>
      r == CmpBinary(a, b, maxLength)
  {
    var a', b' := Clip(a, maxLength), Clip(b, maxLength);
    var diff := MemCmp(a', b', Min(|a'|, |b'|));
    if diff != 0 then diff else Int32((|a'| - |b'|) % 0x1_0000_0000)
  }

  /** The unsigned subtraction gives the wrong sign once the lengths differ
      by 2^31 or more: an empty value compares greater than a value of
      2^31 + 1 zero bytes, although it is a proper prefix of it. */
  lemma CmpBinaryAsWrittenWrapsSign()
    ensures var big := Zeros(0x8000_0001);
      CmpBinaryAsWritten([], big, 0xFFFF_FFFF) > 0 && CmpBinary([], big, 0xFFFF_FFFF) < 0
  {
    var big := Zeros(0x8000_0001);
    assert Clip([], 0xFFFF_FFFF) == [];
    assert Clip(big, 0xFFFF_FFFF) == big;
    assert (0 - 0x8000_0001) % 0x1_0000_0000 == 0x7FFF_FFFF;
  }

  // ---------------------------------------------------------------------
  // Sort keys: sort_string
  // ---------------------------------------------------------------------

  /** `v` cut or zero-padded to exactly `n` bytes (my_strnxfrm for the
      binary character set). */
  function Pad(v: seq<byte>, n: nat): (r: seq<byte>)
    ensures |r| == n
    ensures |v| >= n ==> r == v[..n]
    ensures |v| < n ==> r == v + Zeros(n - |v|)
  {
    if |v| >= n then v[..n] else v + Zeros(n - |v|)
  }

  /** The sort key of a binary blob in a key of `length` bytes: all zeros
      for an empty value; otherwise the padded payload followed by the
      length, big-endian, in the last `packlength` bytes. */
  function SortKey(v: seq<byte>, length: nat, packlength: nat): (r: seq<byte>)
    requires |v| > 0 ==> packlength <= length
    ensures |r| == length
    ensures |v| == 0 ==> r == Zeros(length)
    ensures |v| > 0 ==> r[..length - packlength] == Pad(v, length - packlength)
    ensures |v| > 0 ==> r[length - packlength..] == BE(|v|, packlength)
  {
    if |v| == 0 then Zeros(length)
    else Pad(v, length - packlength) + BE(|v|, packlength)
  }

  /** Values whose payload regions agree sort by length: the shorter one
      first. */
  lemma SortKeyShorterFirst(a: seq<byte>, b: seq<byte>, length: nat, packlength: nat)
    requires 0 < |a| < |b| < Pow256(packlength) && packlength <= length
    requires Pad(a, length - packlength) == Pad(b, length - packlength)
    ensures LexLess(SortKey(a, length, packlength), SortKey(b, length, packlength))
  {
    var p := Pad(a, length - packlength);
    BEOrder(|a|, |b|, packlength);
    LexLessPrefix(p, BE(|a|, packlength), BE(|b|, packlength));
  }

  /** A payload region that sorts first makes the whole key sort first. */
  lemma SortKeyPayloadDecides(a: seq<byte>, b: seq<byte>, length: nat, packlength: nat)
    requires 0 < |a| && 0 < |b| && packlength <= length
    requires LexLess(Pad(a, length - packlength), Pad(b, length - packlength))
    ensures LexLess(SortKey(a, length, packlength), SortKey(b, length, packlength))
  {
    LexLessAppend(Pad(a, length - packlength), Pad(b, length - packlength), BE(|a|, packlength), BE(|b|, packlength));
  }

  /** The all-zero key of an empty value sorts before the key of any
      non-empty value that fits the prefix. */
  lemma SortKeyEmptyFirst(b: seq<byte>, length: nat, packlength: nat)
    requires 0 < |b| < Pow256(packlength) && packlength <= length
    ensures LexLess(SortKey([], length, packlength), SortKey(b, length, packlength))
  {
    var key := SortKey(b, length, packlength);
    BEOrder(0, |b|, packlength);
    BEZero(packlength);
    var p := Pad(b, length - packlength);
    var z := Zeros(length - packlength);
    assert Zeros(length) == z + BE(0, packlength);
    ZerosFirstOrEqual(p);
    if p == z {
      LexLessPrefix(z, BE(0, packlength), BE(|b|, packlength));
    } else {
      LexLessAppend(z, p, BE(0, packlength), BE(|b|, packlength));
    }
  }

  lemma {:induction false} BEZero(w: nat)
    ensures BE(0, w) == Zeros(w)
  {
    if w > 0 {
      BEZero(w - 1);
      assert Zeros(w) == Zeros(w - 1) + [0];
    }
  }

  /** An all-zero string is the least of its length. */
  lemma {:induction false} ZerosFirstOrEqual(p: seq<byte>)
    ensures p == Zeros(|p|) || LexLess(Zeros(|p|), p)
  {
    if p != [] {
      ZerosFirstOrEqual(p[1..]);
      assert Zeros(|p|)[1..] == Zeros(|p| - 1);
      if p[0] == 0 && p[1..] == Zeros(|p| - 1) {
        assert p == [0] + p[1..];
        assert Zeros(|p|) == [0] + Zeros(|p| - 1);
      }
    }
  }
}
