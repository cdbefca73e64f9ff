/** Directory names of mysys/mf_dirname.c, on Unix: FN_LIBCHAR is '/',
    there is no device character, and convert_dirname copies with strmake.

    A C string is modelled by its characters before the terminating NUL;
    `from_end` is an offset into `from`, or None for a NULL pointer. */
module DirName {
  import opened Common

  const FN_LIBCHAR := '/'
  /** Longest path name, terminating NUL included. */
  const FN_REFLEN := 512

  /** Index just past the last '/' of `name`, or 0 when it has none. */
  function DirnameLengthSpec(name: string): (r: nat)
    ensures r <= |name|
    ensures r > 0 ==> name[r - 1] == FN_LIBCHAR
  {
    if name == [] then 0
    else if name[|name| - 1] == FN_LIBCHAR then |name|
    else DirnameLengthSpec(name[..|name| - 1])
  }

  /** After the directory part there is no further '/'. */
  lemma {:induction false} DirnameLengthIsLast(name: string)
    ensures FN_LIBCHAR !in name[DirnameLengthSpec(name)..]
  {
    if name != [] && name[|name| - 1] != FN_LIBCHAR {
      var p := name[..|name| - 1];
      DirnameLengthIsLast(p);
      assert name[DirnameLengthSpec(name)..] == p[DirnameLengthSpec(p)..] + [name[|name| - 1]];
    }
  }

  /** dirname_length: the scan keeps the position of the last '/' seen. */
  method DirnameLength(name: string) returns (length: nat)
    ensures length == DirnameLengthSpec(name)
  {
    var gpos := -1;
    var pos := 0;
    while pos < |name|
      invariant 0 <= pos <= |name| && -1 <= gpos < pos
      invariant gpos + 1 == DirnameLengthSpec(name[..pos])
    {
      assert name[..pos + 1][..pos] == name[..pos];
      if name[pos] == FN_LIBCHAR {
        gpos := pos;
      }
      pos := pos + 1;
    }
    assert name[..pos] == name;
    length := gpos + 1;
  }

  /** How many characters convert_dirname takes from `from`: up to
      `from_end`, at most FN_REFLEN - 2, and no further than the NUL. */
  function CopyLimit(from: string, fromEnd: Option<nat>): (n: nat)
    ensures n <= |from| && n <= FN_REFLEN - 2
    ensures fromEnd.Some? && fromEnd.value <= FN_REFLEN - 2 ==> n == Min(fromEnd.value, |from|)
  {
    var limit := if fromEnd.None? || fromEnd.value > FN_REFLEN - 2 then FN_REFLEN - 2 else fromEnd.value;
    Min(limit, |from|)
  }

  /** convert_dirname's result: the copied prefix, with a '/' added when it
      is not empty and does not already end in one. */
  function ConvertDirname(from: string, fromEnd: Option<nat>): (r: string)
    ensures |r| <= FN_REFLEN - 1 && (r != [] ==> r[|r| - 1] == FN_LIBCHAR)
  {
    var copied := from[..CopyLimit(from, fromEnd)];
    if copied != [] && copied[|copied| - 1] != FN_LIBCHAR then copied + [FN_LIBCHAR] else copied
  }

  /** The result is the copied prefix and at most one '/', fits in FN_REFLEN
      with its NUL, and is empty exactly when nothing was copied; otherwise
      it ends in '/'. */
  lemma ConvertDirnameShape(from: string, fromEnd: Option<nat>)
    ensures var n := CopyLimit(from, fromEnd); var r := ConvertDirname(from, fromEnd);
      r[..n] == from[..n] && |r| - n <= 1 &&
      |r| <= FN_REFLEN - 1 &&
      (r == [] <==> n == 0) &&
      (r != [] ==> r[|r| - 1] == FN_LIBCHAR)
  {
  }

  /** Converting a converted name changes nothing. */
  lemma ConvertDirnameIdempotent(from: string, fromEnd: Option<nat>)
    ensures ConvertDirname(ConvertDirname(from, fromEnd), None) == ConvertDirname(from, fromEnd)
  {
    var n := CopyLimit(from, fromEnd);
    var copied := from[..n];
    var r := ConvertDirname(from, fromEnd);
    if copied != [] && copied[|copied| - 1] != FN_LIBCHAR {
      assert r[..|r| - 1] == copied;
      if |r| == FN_REFLEN - 1 {
        assert r[..CopyLimit(r, None)] == copied;
      } else {
        assert r[..CopyLimit(r, None)] == r;
      }
    } else {
      assert r[..CopyLimit(r, None)] == r;
    }
  }

  /** The buffer size convert_dirname's comment asks for. */
  function DocumentedSize(from: string): nat
  {
    Min(FN_REFLEN, |from| + 1)
  }

  /** The characters convert_dirname stores, its NUL included. */
  function BytesWritten(from: string, fromEnd: Option<nat>): nat
  {
    |ConvertDirname(from, fromEnd)| + 1
  }

  /** The documented size leaves no room for the '/' it adds: "a" needs
      three bytes ("a/" and the NUL) where two are asked for. */
  lemma DocumentedSizeTooSmall()
    ensures BytesWritten("a", None) == 3 && DocumentedSize("a") == 2
  {
    assert "a"[..1] == "a";
  }

  /** The size a caller has to provide: the copy, the '/' and the NUL. */
  function NeededSize(from: string): (r: nat)
    ensures forall fromEnd: Option<nat> :: BytesWritten(from, fromEnd) <= r
  {
    Min(FN_REFLEN, |from| + 2)
  }

  /** convert_dirname into `to`: strmake's copy of the limited prefix, the
      terminating NUL, and the '/' added after it; returns the offset of the
      NUL. */
  method ConvertDirnameInto(to: array<char>, from: string, fromEnd: Option<nat>) returns (end: nat)
    requires to.Length >= NeededSize(from) && '\0' !in from
    modifies to
    ensures end < to.Length && to[..end] == ConvertDirname(from, fromEnd) && to[end] == '\0'
    ensures forall k :: end < k < to.Length ==> to[k] == old(to[k])
  {
    var n := CopyLimit(from, fromEnd);
    end := 0;
    while end < n
      invariant end <= n && to[..end] == from[..end]
      invariant forall k :: end <= k < to.Length ==> to[k] == old(to[k])
    {
      to[end] := from[end];
      end := end + 1;
    }
    to[end] := '\0';
    if end != 0 && to[end - 1] != FN_LIBCHAR && to[end - 1] != '\0' {
      to[end] := FN_LIBCHAR;
      end := end + 1;
      to[end] := '\0';
    }
  }

  /** dirname_part: the length of the directory part of `name`, with the
      converted directory written to `to` and its length. */
  method DirnamePart(to: array<char>, name: string) returns (length: nat, toLength: nat)
    requires to.Length >= NeededSize(name) && '\0' !in name
    modifies to
    ensures length == DirnameLengthSpec(name)
    ensures toLength < to.Length && to[..toLength] == ConvertDirname(name, Some(length)) && to[toLength] == '\0'
  {
    length := DirnameLength(name);
    toLength := ConvertDirnameInto(to, name, Some(length));
  }

  /** For a directory part short enough to be copied whole, dirname_part
      writes exactly that part of `name`. */
  lemma DirnamePartIsDirectory(name: string)
    requires DirnameLengthSpec(name) <= FN_REFLEN - 2
    ensures ConvertDirname(name, Some(DirnameLengthSpec(name))) == name[..DirnameLengthSpec(name)]
  {
  }
}
