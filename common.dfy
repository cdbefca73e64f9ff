/** Shared vocabulary: bytes, optional values, and the little- and
    big-endian integer layouts that the record and key formats use. */
module Common {

  /** An unsigned 8-bit value (a C `uchar`). */
  type byte = b: int | 0 <= b < 256

  datatype Option<T> = None | Some(value: T)

  function Min(a: int, b: int): int { if a <= b then a else b }

  function Max(a: int, b: int): int { if a <= b then b else a }

  /** 256 to the power `n`: one more than the largest value `n` bytes hold. */
  function Pow256(n: nat): (r: nat)
    ensures r >= 1
  {
    if n == 0 then 1 else 256 * Pow256(n - 1)
  }

  /** `n` zero bytes (what `memset(p, 0, n)` leaves behind). */
  function Zeros(n: nat): (r: seq<byte>)
    ensures |r| == n && forall i :: 0 <= i < n ==> r[i] == 0
  {
    seq(n, _ => 0)
  }

  /** `s` with the bytes from position `at` on replaced by `bytes`:
      the effect of `memcpy(s + at, bytes, |bytes|)`. */
  function Splice<T>(s: seq<T>, at: nat, bytes: seq<T>): (r: seq<T>)
    requires at + |bytes| <= |s|
    ensures |r| == |s|
    ensures r[..at] == s[..at] && r[at..at + |bytes|] == bytes && r[at + |bytes|..] == s[at + |bytes|..]
  {
    s[..at] + bytes + s[at + |bytes|..]
  }

  // ---------------------------------------------------------------------
  // Little-endian layout (int2store / int3store / int4store, uint*korr)
  // ---------------------------------------------------------------------

  /** The low `w` bytes of `n`, least significant first. */
  function LE(n: nat, w: nat): (r: seq<byte>)
    ensures |r| == w
  {
    if w == 0 then [] else [n % 256] + LE(n / 256, w - 1)
  }

  /** The number whose little-endian bytes are `s`. */
  function FromLE(s: seq<byte>): (r: nat)
    ensures r < Pow256(|s|)
  {
    if s == [] then 0 else s[0] as int + 256 * FromLE(s[1..])
  }

  lemma ModSplit(n: nat, m: nat)
    requires m >= 1
    ensures n % (256 * m) == n % 256 + 256 * ((n / 256) % m)
  {
    var q, r := n / 256, n % 256;
    var q2, r2 := q / m, q % m;
    assert n == 256 * q + r;
    assert q == m * q2 + r2;
    assert n == (256 * m) * q2 + (256 * r2 + r);
    assert 0 <= 256 * r2 + r < 256 * m;
    ModUnique(n, 256 * m, q2, 256 * r2 + r);
  }

  lemma ModUnique(n: int, d: int, q: int, r: int)
    requires d > 0 && n == d * q + r && 0 <= r < d
    ensures n % d == r && n / d == q
  {
    var k := q - n / d;
    assert d * k == n % d - r by {
      assert n == d * (n / d) + n % d;
      assert d * q - d * (n / d) == d * k;
    }
    if k > 0 {
      MulAtLeast(d, k);
    } else if k < 0 {
      MulAtLeast(d, -k);
    }
  }

  lemma ModAtMost(n: nat, d: nat)
    requires d > 0
    ensures n % d <= n
  {
    if n < d {
      ModUnique(n, d, 0, n);
    } else {
      assert n % d < d <= n;
    }
  }

  lemma MulAtLeast(d: int, k: int)
    requires d > 0 && k >= 1
    ensures d * k >= d
  {
    assert d * k == d + d * (k - 1);
  }

  /** Reading back `w` little-endian bytes gives the value modulo 256^w:
      a value that fits in `w` bytes round-trips exactly. */
  lemma {:induction false} LERoundTrip(n: nat, w: nat)
    ensures FromLE(LE(n, w)) == n % Pow256(w)
  {
    if w > 0 {
      LERoundTrip(n / 256, w - 1);
      var s := LE(n, w);
      assert s[1..] == LE(n / 256, w - 1);
      ModSplit(n, Pow256(w - 1));
    }
  }

  /** Encoding a decoded byte string gives the same bytes back. */
  lemma {:induction false} LEOfFromLE(s: seq<byte>)
    ensures LE(FromLE(s), |s|) == s
  {
    if s != [] {
      LEOfFromLE(s[1..]);
      var n := FromLE(s);
      assert n % 256 == s[0] && n / 256 == FromLE(s[1..]) by {
        ModUnique(n, 256, FromLE(s[1..]), s[0]);
      }
    }
  }

  /** A 2-byte little-endian value (uint2korr). */
  lemma FromLE2(s: seq<byte>)
    requires |s| == 2
    ensures FromLE(s) == s[0] as int + 256 * s[1] as int
  {
    assert s[1..][1..] == [];
  }

  // ---------------------------------------------------------------------
  // Big-endian layout (mi_int2store ... mi_int4store, mi_uint4korr)
  // ---------------------------------------------------------------------

  /** The low `w` bytes of `n`, most significant first. */
  function BE(n: nat, w: nat): (r: seq<byte>)
    ensures |r| == w
  {
    if w == 0 then [] else BE(n / 256, w - 1) + [n % 256]
  }

  /** The number whose big-endian bytes are `s`. */
  function FromBE(s: seq<byte>): (r: nat)
    ensures r < Pow256(|s|)
  {
    if s == [] then 0 else 256 * FromBE(s[..|s| - 1]) + s[|s| - 1] as int
  }

  lemma {:induction false} BERoundTrip(n: nat, w: nat)
    ensures FromBE(BE(n, w)) == n % Pow256(w)
  {
    if w > 0 {
      BERoundTrip(n / 256, w - 1);
      var s := BE(n, w);
      assert s[..w - 1] == BE(n / 256, w - 1);
      ModSplit(n, Pow256(w - 1));
    }
  }

  // ---------------------------------------------------------------------
  // Unsigned lexicographic order on byte strings (memcmp order)
  // ---------------------------------------------------------------------

  /** `a` sorts strictly before `b` when compared byte by byte as unsigned
      values, a proper prefix sorting first. */
  predicate LexLess(a: seq<byte>, b: seq<byte>)
  {
    if a == [] then b != []
    else if b == [] then false
    else if a[0] != b[0] then a[0] < b[0]
    else LexLess(a[1..], b[1..])
  }

  /** A common prefix does not change the order. */
  lemma {:induction false} LexLessPrefix(p: seq<byte>, a: seq<byte>, b: seq<byte>)
    ensures LexLess(p + a, p + b) == LexLess(a, b)
  {
    if p != [] {
      assert (p + a)[0] == (p + b)[0];
      assert (p + a)[1..] == p[1..] + a;
      assert (p + b)[1..] == p[1..] + b;
      LexLessPrefix(p[1..], a, b);
    } else {
      assert p + a == a && p + b == b;
    }
  }

  /** The order is decided at the first position where two equally long
      strings differ. */
  lemma {:induction false} LexLessAtFirstDifference(a: seq<byte>, b: seq<byte>, k: nat)
    requires |a| == |b| && k < |a| && a[..k] == b[..k] && a[k] < b[k]
    ensures LexLess(a, b)
  {
    if k > 0 {
      assert a[0] == a[..k][0] && b[0] == b[..k][0];
      assert a[1..][..k - 1] == a[..k][1..] && b[1..][..k - 1] == b[..k][1..];
      LexLessAtFirstDifference(a[1..], b[1..], k - 1);
    }
  }

  /** Numeric order of values below 256^w is the memcmp order of their
      big-endian images: why sort keys store lengths big-endian. */
  lemma {:induction false} BEOrder(x: nat, y: nat, w: nat)
    requires x < y < Pow256(w)
    ensures LexLess(BE(x, w), BE(y, w))
  {
    var m := Pow256(w - 1);
    assert w > 0;
    if x / 256 == y / 256 {
      assert BE(x, w)[..w - 1] == BE(y, w)[..w - 1];
      assert x % 256 < y % 256;
      LexLessAtFirstDifference(BE(x, w), BE(y, w), w - 1);
    } else {
      assert x / 256 < y / 256 < m by {
        assert y < 256 * m;
      }
      BEOrder(x / 256, y / 256, w - 1);
      LexLessAppend(BE(x / 256, w - 1), BE(y / 256, w - 1), [x % 256], [y % 256]);
    }
  }

  /** Extending two strings of equal length keeps an order already decided. */
  lemma {:induction false} LexLessAppend(a: seq<byte>, b: seq<byte>, c: seq<byte>, d: seq<byte>)
    requires |a| == |b| && LexLess(a, b)
    ensures LexLess(a + c, b + d)
  {
    assert a != [] && b != [];
    if a[0] == b[0] {
      assert (a + c)[1..] == a[1..] + c;
      assert (b + d)[1..] == b[1..] + d;
      LexLessAppend(a[1..], b[1..], c, d);
    }
  }

  /** No string sorts before itself. */
  lemma {:induction false} LexLessIrreflexive(a: seq<byte>)
    ensures !LexLess(a, a)
  {
    if a != [] {
      LexLessIrreflexive(a[1..]);
    }
  }

  /** Two strings are never each before the other. */
  lemma {:induction false} LexLessAsymmetric(a: seq<byte>, b: seq<byte>)
    ensures !(LexLess(a, b) && LexLess(b, a))
  {
    if a != [] && b != [] && a[0] == b[0] {
      LexLessAsymmetric(a[1..], b[1..]);
    }
  }

  /** Once the first `n` bytes agree, the shorter string sorts first. */
  lemma {:induction false} LexLessByLength(a: seq<byte>, b: seq<byte>, n: nat)
    requires n == Min(|a|, |b|) && a[..n] == b[..n]
    ensures LexLess(a, b) <==> |a| < |b|
  {
    if n > 0 {
      assert a[0] == a[..n][0] && b[0] == b[..n][0];
      assert a[1..][..n - 1] == a[..n][1..] && b[1..][..n - 1] == b[..n][1..];
      LexLessByLength(a[1..], b[1..], n - 1);
    }
  }

  // ---------------------------------------------------------------------
  // Machine words and C strings
  // ---------------------------------------------------------------------

  const TWO_TO_63 := 0x8000_0000_0000_0000
  const TWO_TO_64 := 0x1_0000_0000_0000_0000

  /** strlen: the characters before the first NUL. */
  function CStrLen(chars: seq<char>): (r: nat)
    ensures r <= |chars| && '\0' !in chars[..r]
    ensures r < |chars| ==> chars[r] == '\0'
  {
    if chars == [] || chars[0] == '\0' then 0
    else
      var n := CStrLen(chars[1..]);
      assert chars[..n + 1] == [chars[0]] + chars[1..][..n];
      1 + n
  }

  /** A string holding a NUL ends before the end of its memory. */
  lemma {:induction false} CStrLenFindsNul(chars: seq<char>)
    requires '\0' in chars
    ensures CStrLen(chars) < |chars|
  {
    if chars[0] != '\0' {
      var i :| 0 <= i < |chars| && chars[i] == '\0';
      assert chars[1..][i - 1] == '\0';
      CStrLenFindsNul(chars[1..]);
    }
  }

  // ---------------------------------------------------------------------
  // Slices
  // ---------------------------------------------------------------------

  /** Adjacent slices join. */
  lemma SliceSplit<T>(s: seq<T>, i: nat, j: nat, k: nat)
    requires i <= j <= k <= |s|
    ensures s[i..k] == s[i..j] + s[j..k]
  {
  }

  /** A prefix of a slice is a slice. */
  lemma SlicePrefix<T>(s: seq<T>, i: nat, j: nat, k: nat)
    requires i <= j <= k <= |s|
    ensures s[i..k][..j - i] == s[i..j]
  {
  }

  /** Concatenation regroups. */
  lemma AppendAssoc<T>(a: seq<T>, b: seq<T>, c: seq<T>)
    ensures (a + b) + c == a + (b + c)
  {
  }

  /** Moving one element across a concatenation. */
  lemma AppendOne<T>(a: seq<T>, v: T, b: seq<T>)
    ensures a + ([v] + b) == (a + [v]) + b
  {
  }

  // ---------------------------------------------------------------------
  // memcpy into a caller's buffer
  // ---------------------------------------------------------------------

  /** Copies `bytes` into `to` starting at `at`, one byte at a time. */
  method CopyInto(to: array<byte>, at: nat, bytes: seq<byte>)
    requires at + |bytes| <= to.Length
    modifies to
    ensures to[..] == Splice(old(to[..]), at, bytes)
  {
    var i := 0;
    while i < |bytes|
      invariant 0 <= i <= |bytes|
      invariant forall k :: 0 <= k < to.Length ==>
        to[k] == (if at <= k < at + i then bytes[k - at] else old(to[k]))
    {
      to[at + i] := bytes[i];
      i := i + 1;
    }
    assert forall k :: 0 <= k < to.Length ==> to[..][k] == Splice(old(to[..]), at, bytes)[k];
  }
}
