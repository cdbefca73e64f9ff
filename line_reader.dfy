/** The batch line reader of client/readline.cc (LINE_BUFFER).

    The buffer is a character sequence whose allocated size is `bufread + 1`
    while reading a file; `startOfLine`, `endOfLine` and `end` are offsets
    into it, and `buffer[end]` is always the NUL sentinel.  The file is the
    sequence of characters not yet read from it: my_read hands over as many
    as were asked for, or the rest of the file. */
module LineReader {
  import opened Common

  /** Unit of buffer growth and of reads (mysys IO_SIZE). */
  const IO_SIZE := 4096

  predicate IsTerminator(c: char)
  {
    c == '\n' || c == '\0'
  }

  /** No newline and no NUL: a stretch the line scan passes over. */
  predicate NoTerminator(s: seq<char>)
  {
    forall k :: 0 <= k < |s| ==> !IsTerminator(s[k])
  }

  /** The synthetic newline fill_buffer adds to a last line that has none:
      present exactly when this call turned `eof` on. */
  function Kludge(eofBefore: bool, eofAfter: bool): (r: seq<char>)
    ensures |r| <= 1 && (r != [] <==> eofAfter && !eofBefore)
    ensures r != [] ==> r[0] == '\n'
  {
    if eofAfter && !eofBefore then "\n" else ""
  }

  /** The buffer size fill_buffer ends up with: `bufread` doubled until at
      least IO_SIZE bytes are free beyond the `bufbytes` kept. */
  function GrownSize(bufread: nat, bufbytes: nat): (r: nat)
    requires bufread > 0 && bufbytes <= bufread
    ensures r >= bufread && r - bufbytes >= IO_SIZE
    ensures r > bufread ==> r < 2 * (bufbytes + IO_SIZE)
    decreases bufbytes + IO_SIZE - bufread
  {
    if bufread - bufbytes >= IO_SIZE then bufread
    else GrownSize(2 * bufread, bufbytes)
  }

  /** How much fill_buffer asks my_read for: the free space, rounded down
      to whole IO_SIZE units. */
  function ReadCount(bufread: nat, bufbytes: nat): (r: nat)
    requires bufread - bufbytes >= IO_SIZE
    ensures IO_SIZE <= r <= bufread - bufbytes && r % IO_SIZE == 0
  {
    var q := (bufread - bufbytes) / IO_SIZE;
    ModUnique(q * IO_SIZE, IO_SIZE, q, 0);
    q * IO_SIZE
  }

  /** What batch_readline makes of a line: one trailing newline removed,
      then one carriage return before it. */
  function StripNewline(line: seq<char>): (r: seq<char>)
    ensures |r| <= |line| && r == line[..|r|]
    ensures line[|r|..] in {"", "\n", "\r\n"}
    ensures |line| > 0 && line[|line| - 1] == '\n' ==> |r| < |line|
    ensures (|line| == 0 || line[|line| - 1] != '\n') ==> r == line
  {
    if |line| > 0 && line[|line| - 1] == '\n' then
      var l := line[..|line| - 1];
      if |l| > 0 && l[|l| - 1] == '\r' then
        assert line[|l| - 1..] == "\r\n";
        l[..|l| - 1]
      else
        assert line[|l|..] == "\n";
        l
    else
      assert line[|line|..] == "";
      line
  }

  /** The text init_line_buffer_from_string leaves: the earlier text with
      its final character turned into a space, then `str` and a newline. */
  function FromStringText(text: seq<char>, str: seq<char>): (r: seq<char>)
    ensures |r| == |text| + |str| + 1 && r[|r| - 1] == '\n'
    ensures r[|text| .. |r| - 1] == str
    ensures text != [] ==> r[..|text| - 1] == text[..|text| - 1] && r[|text| - 1] == ' '
  {
    (if text == [] then [] else text[..|text| - 1] + [' ']) + str + ['\n']
  }

  /** The text after feeding `strs` one after another to an empty buffer. */
  function Fed(strs: seq<seq<char>>): (r: seq<char>)
    ensures strs == [] <==> r == []
    ensures strs != [] ==> |r| > |strs[|strs| - 1]| && r[|r| - 1] == '\n' && r[|r| - 1 - |strs[|strs| - 1]| .. |r| - 1] == strs[|strs| - 1]
  {
    if strs == [] then [] else FromStringText(Fed(strs[..|strs| - 1]), strs[|strs| - 1])
  }

  /** `strs` joined with single spaces. */
  function SpaceJoined(strs: seq<seq<char>>): seq<char>
    requires strs != []
  {
    if |strs| == 1 then strs[0] else SpaceJoined(strs[..|strs| - 1]) + [' '] + strs[|strs| - 1]
  }

  /** Repeated calls concatenate the strings separated by spaces, ending
      in one newline. */
  lemma {:induction false} FedJoinsWithSpaces(strs: seq<seq<char>>)
    requires strs != []
    ensures Fed(strs) == SpaceJoined(strs) + ['\n']
  {
    var p := strs[..|strs| - 1];
    if |strs| == 1 {
      assert p == [];
    } else {
      FedJoinsWithSpaces(p);
      var t := SpaceJoined(p) + ['\n'];
      assert t[..|t| - 1] == SpaceJoined(p);
    }
  }

  class LineBuffer {
    var buffer: seq<char>
    /** The part of the input file not read yet. */
    var file: seq<char>
    var bufread: nat
    var maxSize: nat
    var startOfLine: nat
    var endOfLine: nat
    var end: nat
    var eof: bool
    var readLength: nat

    ghost predicate Valid()
      reads this
    {
      startOfLine <= endOfLine <= end < |buffer| && buffer[end] == '\0' &&
      (!eof ==> bufread > 0 && |buffer| == bufread + 1) &&
      maxSize > 0
    }

    /** The characters the scan has not passed yet, buffered or unread. */
    ghost function Unread(): seq<char>
      requires Valid()
      reads this
    {
      buffer[endOfLine..end] + file
    }

    function EofCount(): nat
      reads this
    {
      if eof then 1 else 0
    }

    /** batch_readline_init / init_line_buffer: an empty buffer of IO_SIZE
        bytes over `file`. */
    constructor Init(file: seq<char>, maxSize: nat)
      requires maxSize > 0
      ensures Valid() && Unread() == file && !eof
      ensures this.maxSize == maxSize && bufread == IO_SIZE && end == 0
    {
      this.file := file;
      this.maxSize := maxSize;
      bufread := IO_SIZE;
      buffer := seq(IO_SIZE + 1, _ => '\0');
      startOfLine, endOfLine, end := 0, 0, 0;
      eof := false;
      readLength := 0;
    }

    /** batch_readline_command on a fresh (zeroed) buffer: the text is
        `str` and a newline, and no file is read. */
    constructor FromCommand(str: seq<char>)
      requires '\0' !in str
      ensures Valid() && buffer[..end] == FromStringText([], str)
      ensures startOfLine == endOfLine == 0 && eof && maxSize == 1 && file == []
    {
      buffer := str + ['\n', '\0'];
      end := |str| + 1;
      startOfLine, endOfLine := 0, 0;
      eof := true;
      maxSize := 1;
      bufread := 0;
      file := [];
      readLength := 0;
    }

    /** init_line_buffer_from_string: appends `str` and a newline to the
        buffered text, the old last character becoming a space, rewinds to
        the start of the buffer and marks the input as complete. */
    method FromString(str: seq<char>)
      requires Valid() && '\0' !in str
      modifies this
      ensures Valid() && buffer[..end] == FromStringText(old(buffer[..end]), str)
      ensures |buffer| == old(end) + |str| + 2
      ensures startOfLine == endOfLine == 0 && eof && maxSize == 1 && file == old(file)
    {
      var oldLength := end;
      var text := buffer[..oldLength];
      if oldLength > 0 {
        text := text[..oldLength - 1] + [' '];
      }
      buffer := text + str + ['\n', '\0'];
      end := oldLength + |str| + 1;
      assert buffer[..end] == text + str + ['\n'];
      startOfLine, endOfLine := 0, 0;
      eof := true;
      maxSize := 1;
    }

    /** The growing loop of fill_buffer: doubles `bufread` (reallocating,
        which keeps the bytes) until IO_SIZE bytes are free beyond the
        `bufbytes` of the unfinished line. */
    method GrowBuffer(bufbytes: nat)
      requires Valid() && !eof && bufbytes == end - startOfLine
      modifies this`bufread, this`buffer
      ensures Valid() && bufread == GrownSize(old(bufread), bufbytes)
      ensures buffer[..end] == old(buffer[..end])
      ensures buffer[startOfLine..end] == old(buffer[startOfLine..end])
      ensures end > 0 ==> buffer[end - 1] == old(buffer[end - 1])
    {
      ghost var size0 := bufread;
      while (bufread - bufbytes) / IO_SIZE == 0
        invariant Valid() && !eof && bufbytes <= bufread
        invariant buffer[..end] == old(buffer[..end])
        invariant GrownSize(bufread, bufbytes) == GrownSize(size0, bufbytes)
        decreases bufbytes + IO_SIZE - bufread
      {
        bufread := bufread * 2;
        buffer := buffer + seq(bufread + 1 - |buffer|, _ => '\0');
      }
      assert buffer[startOfLine..end] == buffer[..end][startOfLine..];
      assert old(buffer[startOfLine..end]) == old(buffer[..end])[startOfLine..];
      if end > 0 {
        assert buffer[end - 1] == buffer[..end][end - 1];
      }
    }

    /** fill_buffer: returns 0 once the input is complete.  Otherwise grows
        the buffer until IO_SIZE bytes are free, moves the unfinished line
        to the front, reads whole IO_SIZE units after it, and gives a last
        line without a newline a synthetic one (setting `eof`).  Returns the
        number of characters added. */
    method FillBuffer() returns (n: nat)
      requires Valid()
      modifies this
      ensures Valid() && maxSize == old(maxSize) && (old(eof) ==> eof)
      ensures old(eof) ==> (n == 0 && buffer == old(buffer) && file == old(file) &&
        startOfLine == old(startOfLine) && endOfLine == old(endOfLine) && end == old(end))
      ensures !old(eof) ==> FillOpenDone(old(bufread), old(startOfLine), old(end), old(buffer), old(file), n)
      ensures buffer[startOfLine..end] + file == old(buffer[startOfLine..end]) + old(file) + Kludge(old(eof), eof)
      ensures n > 0 ==> buffer[startOfLine..endOfLine] == old(buffer[startOfLine..end])
      ensures n == 0 ==> (eof == old(eof) && (eof || file == []) &&
        buffer[startOfLine..end] == old(buffer[startOfLine..end]))
      ensures n > 0 ==> |file| < |old(file)| || (eof && !old(eof) && file == [])
    {
      if eof {
        return 0;
      }
      n := FillOpen();
    }

    /** The state fill_buffer leaves when the input was not complete:
        the buffer grown to `GrownSize`, the unfinished line moved to the
        front, and after it what was read and the synthetic newline. */
    ghost predicate FillOpenDone(bufread0: nat, startOfLine0: nat, end0: nat, buffer0: seq<char>, file0: seq<char>, n: nat)
      requires bufread0 > 0 && startOfLine0 <= end0 < |buffer0| && end0 - startOfLine0 <= bufread0
      reads this
    {
      var bb := end0 - startOfLine0;
      bufread == GrownSize(bufread0, bb) &&
      var m := Min(ReadCount(bufread, bb), |file0|);
      startOfLine == 0 && endOfLine == bb && file == file0[m..] && end <= |buffer| &&
      buffer[..end] == buffer0[startOfLine0..end0] + file0[..m] + Kludge(false, eof) &&
      (eof <==> m == 0 && bb > 0 && buffer0[end0 - 1] != '\n') &&
      n == m + |Kludge(false, eof)|
    }

    /** fill_buffer when the input is not complete. */
    method FillOpen() returns (n: nat)
      requires Valid() && !eof
      modifies this
      ensures Valid() && maxSize == old(maxSize)
      ensures FillOpenDone(old(bufread), old(startOfLine), old(end), old(buffer), old(file), n)
      ensures buffer[startOfLine..end] + file == old(buffer[startOfLine..end]) + old(file) + Kludge(false, eof)
      ensures n > 0 ==> buffer[startOfLine..endOfLine] == old(buffer[startOfLine..end])
      ensures n == 0 ==> (!eof && file == [] &&
        buffer[startOfLine..end] == old(buffer[startOfLine..end]))
      ensures n > 0 ==> |file| < |old(file)| || (eof && file == [])
    {
      var bufbytes := end - startOfLine;
      GrowBuffer(bufbytes);
      var readCount := ReadCount(bufread, bufbytes);
      n := ShiftAndRead(readCount);
    }

    /** The part of fill_buffer after the growing: the unfinished line
        moved to the front, then the read after it. */
    method ShiftAndRead(readCount: nat) returns (n: nat)
      requires !eof && startOfLine <= endOfLine <= end < |buffer| && maxSize > 0
      requires IO_SIZE <= readCount && end - startOfLine + readCount < |buffer|
      modifies this`buffer, this`file, this`eof, this`startOfLine, this`endOfLine, this`end
      ensures |buffer| == old(|buffer|) && end < |buffer| && buffer[end] == '\0'
      ensures var bb := old(end) - old(startOfLine);
        var m := Min(readCount, |old(file)|);
        startOfLine == 0 && endOfLine == bb && file == old(file)[m..] &&
        buffer[..end] == old(buffer[startOfLine..end]) + old(file)[..m] + Kludge(false, eof) &&
        (eof <==> m == 0 && bb > 0 && old(buffer[end - 1]) != '\n') &&
        n == m + |Kludge(false, eof)|
      ensures buffer[..end] + file == old(buffer[startOfLine..end]) + old(file) + Kludge(false, eof)
      ensures buffer[..endOfLine] == old(buffer[startOfLine..end])
      ensures n == 0 ==> !eof && file == []
      ensures n > 0 ==> |file| < |old(file)| || (eof && file == [])
    {
      if startOfLine != 0 {
        ShiftDown();
      }
      n := ReadChunk(readCount);
    }

    /** fill_buffer as intern_read_line sees it: the text from the start
        of the line on gains what was read and nothing else, and a refill
        that adds nothing leaves the line as it was. */
    method RefillLine() returns (n: nat)
      requires Valid()
      modifies this
      ensures Valid() && maxSize == old(maxSize) && (old(eof) ==> eof)
      ensures buffer[startOfLine..end] + file == old(buffer[startOfLine..end]) + old(file) + Kludge(old(eof), eof)
      ensures n > 0 ==> buffer[startOfLine..endOfLine] == old(buffer[startOfLine..end])
      ensures n == 0 ==> (eof == old(eof) && (eof || file == []) &&
        buffer[startOfLine..end] == old(buffer[startOfLine..end]))
      ensures n > 0 ==> |file| < |old(file)| || (eof && !old(eof) && file == [])
    {
      n := FillBuffer();
    }

    /** The memmove of fill_buffer: the unfinished line to the buffer start. */
    method ShiftDown()
      requires startOfLine <= end < |buffer|
      modifies this`buffer, this`end
      ensures |buffer| == old(|buffer|) && end == old(end) - startOfLine
      ensures buffer[..end] == old(buffer[startOfLine..end])
      ensures end > 0 ==> buffer[end - 1] == old(buffer[end - 1])
    {
      buffer := buffer[startOfLine..end] + buffer[end - startOfLine..];
      end := end - startOfLine;
    }

    /** The read of fill_buffer, into the buffer after the `end` bytes kept
        at its start: up to `readCount` characters of the file, the
        synthetic newline, and the sentinel. */
    method ReadChunk(readCount: nat) returns (n: nat)
      requires !eof && IO_SIZE <= readCount && end + readCount < |buffer|
      modifies this`buffer, this`file, this`eof, this`startOfLine, this`endOfLine, this`end
      ensures |buffer| == old(|buffer|) && startOfLine == 0 && endOfLine == old(end)
      ensures end < |buffer| && buffer[end] == '\0'
      ensures var m := Min(readCount, |old(file)|);
        file == old(file)[m..] &&
        buffer[..end] == old(buffer[..end]) + old(file)[..m] + Kludge(false, eof) &&
        (eof <==> m == 0 && old(end) > 0 && old(buffer[end - 1]) != '\n') &&
        n == m + |Kludge(false, eof)|
      ensures buffer[..end] + file == old(buffer[..end]) + old(file) + Kludge(false, eof)
      ensures buffer[..endOfLine] == old(buffer[..end])
      ensures n == 0 ==> !eof && file == []
      ensures n > 0 ==> |file| < |old(file)| || (eof && file == [])
    {
      ghost var line := buffer[..end];
      var m := Min(readCount, |file|);
      ghost var file0 := file;
      var chunk := file[..m];
      file := file[m..];
      assert chunk + file == file0;
      var kept := end;
      buffer := Splice(buffer, end, chunk);
      assert buffer[..end + m] == line + chunk;
      if m == 0 && kept > 0 && buffer[end - 1] != '\n' {
        assert file0 == [] && chunk == [];
        eof := true;
        n := 1;
        buffer := buffer[end := '\n'];
        assert buffer[..end + 1] == line + "\n";
      } else {
        n := m;
      }
      startOfLine := 0;
      endOfLine := kept;
      end := end + n;
      buffer := buffer[end := '\0'];
      assert buffer[..end] == line + chunk + Kludge(false, eof);
      assert buffer[..endOfLine] == line;
    }

    /** intern_read_line: the next line, from the old end of line up to and
        including the first newline or NUL, less one character once the
        input is complete.  A line that reaches the end of the buffer with
        at least `maxSize` characters is cut there; a shorter one makes the
        buffer refill, and None comes back when nothing more can be read.
        `consumed` is the stretch of text the call moved past. */
    method ReadLine() returns (r: Option<seq<char>>, ghost consumed: seq<char>)
      requires Valid()
      modifies this
      ensures Valid() && maxSize == old(maxSize) && (old(eof) ==> eof)
      ensures r.Some? ==>
        consumed == buffer[startOfLine..endOfLine] && |consumed| >= 1 &&
        r.value == consumed[..|consumed| - EofCount()] &&
        ((IsTerminator(consumed[|consumed| - 1]) && NoTerminator(consumed[..|consumed| - 1])) ||
         (NoTerminator(consumed) && |consumed| >= maxSize && endOfLine == end)) &&
        old(Unread()) + Kludge(old(eof), eof) == consumed + Unread()
      ensures r.None? ==>
        (eof || file == []) &&
        NoTerminator(buffer[startOfLine..end]) && end - startOfLine < maxSize &&
        old(Unread()) + Kludge(old(eof), eof) == buffer[startOfLine..end] + file
    {
      startOfLine := endOfLine;
      var found, pos := FindLineEnd();
      if !found {
        return None, [];
      }
      r, consumed := TakeLine(pos);
    }

    /** The loop of intern_read_line: scans from the end of the previous
        line, refilling while the line reaches the end of the buffer and is
        shorter than `maxSize`.  Finds where the line ends, or reports that
        nothing more can be read. */
    method FindLineEnd() returns (found: bool, pos: nat)
      requires Valid() && startOfLine == endOfLine
      modifies this
      ensures Valid() && maxSize == old(maxSize) && (old(eof) ==> eof)
      ensures found ==> (startOfLine <= pos < end && NoTerminator(buffer[startOfLine..pos]) &&
        (IsTerminator(buffer[pos]) || (pos + 1 == end && pos + 1 - startOfLine >= maxSize)))
      ensures !found ==> ((eof || file == []) &&
        NoTerminator(buffer[startOfLine..end]) && end - startOfLine < maxSize)
      ensures old(Unread()) + Kludge(old(eof), eof) == buffer[startOfLine..end] + file
    {
      ghost var eof0 := eof;
      ghost var unread0 := Unread();
      while true
        invariant Valid() && maxSize == old(maxSize) && (eof0 ==> eof)
        invariant NoTerminator(buffer[startOfLine..endOfLine])
        invariant unread0 + Kludge(eof0, eof) == buffer[startOfLine..end] + file
        decreases |file| + (if eof then 0 else 1)
      {
        pos := ScanLine();
        SliceSplit(buffer, startOfLine, endOfLine, pos);
        if pos == end {
          if pos - startOfLine < maxSize {
            ghost var eofBefore := eof;
            var n := RefillLine();
            if n == 0 {
              return false, pos;
            }
            assert Kludge(eof0, eofBefore) + Kludge(eofBefore, eof) == Kludge(eof0, eof);
            continue;
          }
          pos := pos - 1;
          SlicePrefix(buffer, startOfLine, pos, end);
        }
        return true, pos;
      }
    }

    /** The scan of intern_read_line: from `endOfLine` to the first newline
        or NUL, at the latest the sentinel at `end`. */
    method ScanLine() returns (pos: nat)
      requires Valid()
      ensures endOfLine <= pos <= end && IsTerminator(buffer[pos])
      ensures NoTerminator(buffer[endOfLine..pos])
    {
      pos := endOfLine;
      while !IsTerminator(buffer[pos])
        invariant endOfLine <= pos <= end
        invariant forall k :: endOfLine <= k < pos ==> !IsTerminator(buffer[k])
        decreases end - pos
      {
        pos := pos + 1;
      }
    }

    /** The end of intern_read_line: the line ends at `pos`, a terminator
        or the last buffered character of a line cut at `maxSize`. */
    method TakeLine(pos: nat) returns (r: Option<seq<char>>, ghost consumed: seq<char>)
      requires Valid() && startOfLine <= pos < end
      requires NoTerminator(buffer[startOfLine..pos])
      requires IsTerminator(buffer[pos]) || (pos + 1 == end && pos + 1 - startOfLine >= maxSize)
      modifies this`endOfLine
      ensures Valid() && endOfLine == pos + 1
      ensures r.Some? &&
        consumed == buffer[startOfLine..endOfLine] && |consumed| >= 1 &&
        r.value == consumed[..|consumed| - EofCount()] &&
        ((IsTerminator(consumed[|consumed| - 1]) && NoTerminator(consumed[..|consumed| - 1])) ||
         (NoTerminator(consumed) && |consumed| >= maxSize && endOfLine == end)) &&
        buffer[startOfLine..end] + file == consumed + Unread()
    {
      endOfLine := pos + 1;
      var line := buffer[startOfLine..endOfLine];
      assert line[..|line| - 1] == buffer[startOfLine..pos];
      assert buffer[startOfLine..end] == line + buffer[endOfLine..end];
      if !IsTerminator(buffer[pos]) {
        assert NoTerminator(line);
      }
      return Some(line[..|line| - EofCount()]), line;
    }

    /** batch_readline: the next line with its newline (and a carriage
        return before it) removed, NUL-terminated in the buffer and its
        length kept in `readLength`.  For a line that does not end in a
        NUL, the terminator lands inside the consumed text, so what is
        still to be read is untouched. */
    method BatchReadline() returns (r: Option<seq<char>>, ghost raw: Option<seq<char>>, ghost consumed: seq<char>)
      requires Valid()
      modifies this
      ensures Valid() && maxSize == old(maxSize)
      ensures r.None? <==> raw.None?
      ensures r.Some? ==>
        raw.Some? && 1 <= |consumed| && startOfLine + |consumed| == endOfLine &&
        raw.value == consumed[..|consumed| - EofCount()]
      ensures r.Some? ==>
        r.value == StripNewline(raw.value) && readLength == |r.value| &&
        buffer[startOfLine..startOfLine + |r.value|] == r.value &&
        buffer[startOfLine + |r.value|] == '\0'
      ensures r.Some? && consumed[|consumed| - 1] != '\0' ==>
        old(Unread()) + Kludge(old(eof), eof) == consumed + Unread()
    {
      var got;
      got, consumed := ReadLine();
      raw := got;
      if got.None? {
        return None, raw, consumed;
      }
      var line := FinishLine(consumed, got.value);
      r := Some(line);
    }

    /** The rest of batch_readline once a line is read: the newline
        stripped, the NUL written after what is left, the length kept. */
    method FinishLine(ghost consumed: seq<char>, raw: seq<char>) returns (line: seq<char>)
      requires Valid() && |consumed| >= 1 && consumed == buffer[startOfLine..endOfLine]
      requires raw == consumed[..|consumed| - EofCount()]
      requires (IsTerminator(consumed[|consumed| - 1]) && NoTerminator(consumed[..|consumed| - 1])) ||
        endOfLine == end
      modifies this`buffer, this`readLength
      ensures Valid() && line == StripNewline(raw) && readLength == |line|
      ensures buffer[startOfLine..startOfLine + |line|] == line && buffer[startOfLine + |line|] == '\0'
      ensures consumed[|consumed| - 1] != '\0' ==> Unread() == old(Unread())
    {
      line := StripNewline(raw);
      readLength := |line|;
      var at := startOfLine + |line|;
      SlicePrefix(buffer, startOfLine, at, endOfLine);
      assert line == consumed[..|line|] == buffer[startOfLine..at];
      if consumed[|consumed| - 1] != '\0' {
        TerminatorInsideLine(consumed, EofCount(), endOfLine == end);
        assert at < endOfLine || at == end;
      }
      PutTerminator(at);
    }

    /** A line that ends in a newline, or that was read to its end under
        EOF, loses at least one character to StripNewline. */
    static lemma TerminatorInsideLine(consumed: seq<char>, eofCount: nat, cut: bool)
      requires |consumed| >= 1 && eofCount <= 1
      requires (IsTerminator(consumed[|consumed| - 1]) && NoTerminator(consumed[..|consumed| - 1])) || cut
      requires consumed[|consumed| - 1] != '\0'
      ensures cut || |StripNewline(consumed[..|consumed| - eofCount])| < |consumed|
    {
    }

    /** The NUL batch_readline writes after the line, at or before the end
        of the line: what is still to be read keeps its text unless the
        NUL falls on its first character. */
    method PutTerminator(at: nat)
      requires Valid() && startOfLine <= at <= endOfLine
      modifies this`buffer
      ensures Valid() && buffer == old(buffer)[at := '\0']
      ensures buffer[startOfLine..at] == old(buffer[startOfLine..at])
      ensures at < endOfLine || at == end ==> Unread() == old(Unread())
    {
      buffer := buffer[at := '\0'];
      assert buffer[endOfLine..end] == old(buffer[endOfLine..end]) || at == endOfLine;
    }
  }
}
