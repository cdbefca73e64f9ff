/** The option-file editor of mysys/default_modify.cc: rewrites a
    configuration file line by line to set, remove or drop an option of one
    `[section]`, or the whole section.

    The file is given as the pieces fgets returns (lines, each with its
    newline except perhaps the last); the rewritten text is the sequence
    written through `dst_ptr`.  Opening, stat-ing, truncating and writing
    the file are parameters or results. */
module DefaultsFile {
  import opened Common

  datatype RemoveMode = RemoveNone | RemoveOption | RemoveSection

  /** What modify_defaults_file is asked to do.  `option` and `value` may
      each be absent (NULL). */
  datatype Request = Request(option: Option<string>, value: Option<string>, section: string, mode: RemoveMode)
  {
    /** add_option dereferences both names when adding. */
    predicate Valid()
    {
      mode == RemoveNone ==> option.Some? && value.Some?
    }

    /** The part of the option name the line match compares: opt_len is
        left 0 unless both the option and its value are given. */
    function MatchedName(): string
    {
      if option.Some? && value.Some? then option.value else ""
    }
  }

  /** The characters my_isspace accepts in the ASCII range. */
  predicate IsSpace(c: char)
  {
    c == ' ' || c == '\t' || c == '\n' || c == '\r' || c as int == 11 || c as int == 12
  }

  /** A line with its leading whitespace skipped. */
  function SkipSpace(s: string): (r: string)
    ensures |r| <= |s|
    ensures r != [] ==> !IsSpace(r[0])
  {
    if s != [] && IsSpace(s[0]) then SkipSpace(s[1..]) else s
  }

  /** What SkipSpace drops is exactly a run of blanks at the front. */
  lemma {:induction false} SkipSpaceDropsBlanks(s: string)
    ensures var r := SkipSpace(s);
      r == s[|s| - |r|..] && forall k :: 0 <= k < |s| - |r| ==> IsSpace(s[k])
  {
    if s != [] && IsSpace(s[0]) {
      SkipSpaceDropsBlanks(s[1..]);
    }
  }

  /** `n` newlines. */
  function Newlines(n: nat): (r: string)
    ensures |r| == n && forall k :: 0 <= k < n ==> r[k] == '\n'
  {
    seq(n, _ => '\n')
  }

  /** The line (leading blanks skipped) sets option `name`: the name, then
      '=', whitespace or the end of the line. */
  predicate IsOptionLine(q: string, name: string)
  {
    |q| >= |name| && q[..|name|] == name &&
    (|q| == |name| || q[|name|] == '=' || IsSpace(q[|name|]))
  }

  /** `[section]` with optional blanks before the ']' (the rest of the line
      is not looked at); `q` has its leading blanks skipped. */
  predicate IsTargetHeader(q: string, section: string)
  {
    |q| > |section| && q[0] == '[' && q[1..|section| + 1] == section &&
    var t := SkipSpace(q[|section| + 1..]);
    t != [] && t[0] == ']'
  }

  /** add_option: "option=value\n", or "option\n" for an empty value;
      nothing when removing. */
  function AddOption(req: Request): (r: string)
    requires req.Valid()
    ensures req.mode != RemoveNone ==> r == []
    ensures req.mode == RemoveNone ==>
      var o, v := req.option.value, req.value.value;
      |r| == |o| + (if v == [] then 0 else |v| + 1) + 1 &&
      r[..|o|] == o && r[|r| - 1] == '\n' &&
      (v == [] <==> |r| == |o| + 1) &&
      (v != [] ==> r[|o|] == '=' && r[|o| + 1..|r| - 1] == v)
  {
    if req.mode != RemoveNone then []
    else
      var o, v := req.option.value, req.value.value;
      o + (if v != [] then ['='] + v else []) + ['\n']
  }

  /** A line add_option writes is one the option match recognises again
      when the file is edited next (for a name that does not start with a
      blank). */
  lemma AddedOptionIsRecognised(req: Request)
    requires req.Valid() && req.mode == RemoveNone
    requires req.option.value != [] && !IsSpace(req.option.value[0])
    ensures IsOptionLine(SkipSpace(AddOption(req)), req.MatchedName())
  {
    var r := AddOption(req);
    var o := req.option.value;
    assert r[0] == o[0];
    assert SkipSpace(r) == r;
  }

  // ---------------------------------------------------------------------
  // The line loop, with the skipped section left out of the output
  // ---------------------------------------------------------------------

  /** The loop's state: the flags and the text written so far. */
  datatype State = State(inSection: bool, optApplied: bool, nrNewlines: nat, out: string)

  /** One fgets line.  A blank line is only counted; the option line of the
      section is replaced by add_option's line; otherwise a pending option
      is added before the next section header, the counted blank lines are
      written back as newlines, the line is copied unless its section is
      being removed, and a header switches `inSection`.  The header that
      ends a removed section opens one that stays, so it is copied. */
  function Step(req: Request, st: State, line: string): (r: State)
    requires req.Valid()
    ensures st.optApplied ==> r.optApplied
    ensures SkipSpace(line) == [] ==> r == st.(nrNewlines := st.nrNewlines + 1)
    ensures |r.out| >= |st.out| && r.out[..|st.out|] == st.out
  {
    var q := SkipSpace(line);
    if q == [] then st.(nrNewlines := st.nrNewlines + 1)
    else if req.option.Some? && st.inSection && IsOptionLine(q, req.MatchedName()) then
      st.(optApplied := true, out := st.out + AddOption(req))
    else
      var flush := st.inSection && !st.optApplied && q[0] == '[';
      var out1 := (if flush then st.out + AddOption(req) else st.out) + Newlines(st.nrNewlines);
      var applied := st.optApplied || flush;
      if q[0] == '[' && IsTargetHeader(q, req.section) then
        State(true, applied, 0, if req.mode == RemoveSection then out1 else out1 + line)
      else
        var copied := !st.inSection || req.mode != RemoveSection || q[0] == '[';
        State(if q[0] == '[' then false else st.inSection, applied, 0, if copied then out1 + line else out1)
  }

  /** The loop over `lines`: what is written stays written, an applied
      change stays applied, and when only removing, the text grows by no
      more than the lines read. */
  function Run(req: Request, st: State, lines: seq<string>): (r: State)
    requires req.Valid()
    ensures st.optApplied ==> r.optApplied
    ensures |r.out| >= |st.out| && r.out[..|st.out|] == st.out
    ensures req.mode != RemoveNone ==> |r.out| + r.nrNewlines <= |st.out| + st.nrNewlines + |Text(lines)|
    decreases |lines|
  {
    if lines == [] then st
    else
      var s1 := Step(req, st, lines[0]);
      StepLength(req, st, lines[0]);
      var r := Run(req, s1, lines[1..]);
      assert r.out[..|st.out|] == r.out[..|s1.out|][..|st.out|];
      assert Text(lines) == Normalized(lines[0]) + Text(lines[1..]);
      r
  }

  /** When only removing, one line adds at most its normalised self. */
  lemma StepLength(req: Request, st: State, line: string)
    requires req.Valid()
    ensures var r := Step(req, st, line);
      req.mode != RemoveNone ==> |r.out| + r.nrNewlines <= |st.out| + st.nrNewlines + |Normalized(line)|
  {
  }

  /** End of file: a still pending option (not when only removing an
      option) is added at the end of its section, after a newline when the
      text does not end in one; then the counted blank lines. */
  function Finish(req: Request, st: State): (r: (bool, string))
    requires req.Valid()
    ensures r.0 <==> st.optApplied || (st.inSection && req.mode != RemoveOption)
    ensures |r.1| >= |st.out| && r.1[..|st.out|] == st.out
  {
    if !st.optApplied && st.inSection && req.mode != RemoveOption then
      var nl := if req.mode == RemoveNone && st.out != [] && st.out[|st.out| - 1] != '\n' then "\n" else "";
      (true, st.out + nl + AddOption(req) + Newlines(st.nrNewlines))
    else
      (st.optApplied, st.out + Newlines(st.nrNewlines))
  }

  /** The rewritten file for `lines`, and whether anything was applied. */
  function Rewrite(req: Request, lines: seq<string>): (r: (bool, string))
    requires req.Valid()
    ensures req.mode != RemoveNone ==> |r.1| <= |Text(lines)|
  {
    Finish(req, Run(req, State(false, false, 0, []), lines))
  }

  /** A line as it comes back out of an untouched part of the file: blank
      lines are re-emitted as a bare newline. */
  function Normalized(line: string): string
  {
    if SkipSpace(line) == [] then "\n" else line
  }

  function Text(lines: seq<string>): string
  {
    if lines == [] then [] else Normalized(lines[0]) + Text(lines[1..])
  }

  lemma NewlinesAdd(a: nat, b: nat)
    ensures Newlines(a) + Newlines(b) == Newlines(a + b)
  {
  }

  /** One line outside the target section. */
  lemma StepOutside(req: Request, st: State, line: string)
    requires req.Valid() && !st.inSection && !IsTargetHeader(SkipSpace(line), req.section)
    ensures SkipSpace(line) == [] ==> Step(req, st, line) == st.(nrNewlines := st.nrNewlines + 1)
    ensures SkipSpace(line) != [] ==>
      Step(req, st, line) == State(false, st.optApplied, 0, st.out + Newlines(st.nrNewlines) + line)
  {
  }

  /** Outside the target section every line is copied through; blank lines
      come out as newlines, at most deferred. */
  lemma {:induction false} RunOutsideSection(req: Request, st: State, lines: seq<string>)
    requires req.Valid() && !st.inSection
    requires forall line <- lines :: !IsTargetHeader(SkipSpace(line), req.section)
    decreases |lines|
    ensures var r := Run(req, st, lines);
      !r.inSection && r.optApplied == st.optApplied &&
      r.out + Newlines(r.nrNewlines) == st.out + Newlines(st.nrNewlines) + Text(lines)
  {
    if lines != [] {
      var line, rest := lines[0], Text(lines[1..]);
      var s1 := Step(req, st, line);
      assert Run(req, st, lines) == Run(req, s1, lines[1..]);
      assert Text(lines) == Normalized(line) + rest;
      assert !s1.inSection && s1.optApplied == st.optApplied &&
        s1.out + Newlines(s1.nrNewlines) + rest == st.out + Newlines(st.nrNewlines) + (Normalized(line) + rest) by {
        StepOutside(req, st, line);
        OutsideGlue(st.out, st.nrNewlines, line, SkipSpace(line) == [], rest);
      }
      RunOutsideSection(req, s1, lines[1..]);
    }
  }

  lemma OutsideGlue(out: string, n: nat, line: string, blank: bool, rest: string)
    ensures blank ==> out + Newlines(n + 1) + rest == out + Newlines(n) + ("\n" + rest)
    ensures !blank ==> (out + Newlines(n) + line) + Newlines(0) + rest == out + Newlines(n) + (line + rest)
  {
    if blank {
      NewlinesAdd(n, 1);
      Regroup(out, Newlines(n), "\n", rest);
    } else {
      assert Newlines(0) == [];
      Regroup(out, Newlines(n), line, rest);
    }
  }

  lemma EmptyGlue(x: string, a: string)
    ensures x + "" + a + Newlines(0) == x + a
  {
    assert Newlines(0) == [];
  }

  lemma Regroup(a: string, b: string, c: string, d: string)
    ensures a + b + c + d == a + b + (c + d)
  {
  }

  /** A file without the target section is left as it is (blank lines
      normalised) and no change is applied. */
  lemma {:induction false} NoSectionNoChange(req: Request, lines: seq<string>)
    requires req.Valid()
    requires forall line <- lines :: !IsTargetHeader(SkipSpace(line), req.section)
    ensures Rewrite(req, lines) == (false, Text(lines))
  {
    var st0 := State(false, false, 0, []);
    var r := Run(req, st0, lines);
    RunOutsideSection(req, st0, lines);
    assert !r.optApplied && !r.inSection;
    assert Finish(req, r) == (false, r.out + Newlines(r.nrNewlines));
    assert st0.out + Newlines(0) == [];
    assert r.out + Newlines(r.nrNewlines) == Text(lines);
    assert Rewrite(req, lines) == Finish(req, r);
  }

  /** Removing a section drops its header and its non-blank lines. */
  lemma {:induction false} RemoveSectionDropsIt(req: Request, header: string, body: seq<string>)
    requires req.Valid() && req.mode == RemoveSection
    requires IsTargetHeader(SkipSpace(header), req.section)
    requires forall k :: 0 <= k < |body| ==> SkipSpace(body[k]) != [] && SkipSpace(body[k])[0] != '['
    ensures Rewrite(req, [header] + body) == (true, [])
  {
    var s1 := Step(req, State(false, false, 0, []), header);
    assert s1 == State(true, false, 0, []);
    assert Run(req, State(false, false, 0, []), [header] + body) == Run(req, s1, body);
    RunInRemovedSection(req, s1, body);
  }

  lemma {:induction false} RunInRemovedSection(req: Request, st: State, body: seq<string>)
    requires req.Valid() && req.mode == RemoveSection && st.inSection && st.nrNewlines == 0
    requires forall k :: 0 <= k < |body| ==> SkipSpace(body[k]) != [] && SkipSpace(body[k])[0] != '['
    decreases |body|
    ensures var r := Run(req, st, body);
      r.inSection && r.nrNewlines == 0 && r.out == st.out
  {
    if body != [] {
      var s1 := Step(req, st, body[0]);
      assert s1.inSection && s1.nrNewlines == 0 && s1.out == st.out;
      RunInRemovedSection(req, s1, body[1..]);
    }
  }

  /** The header that ends a removed section is copied and leaves the
      section, with the pending change counted as applied. */
  lemma LeaveRemovedSection(req: Request, st: State, line: string)
    requires req.Valid() && req.mode == RemoveSection && st.inSection && st.nrNewlines == 0
    requires SkipSpace(line) != [] && SkipSpace(line)[0] == '[' && !IsTargetHeader(SkipSpace(line), req.section)
    requires req.option.Some? ==> !IsOptionLine(SkipSpace(line), req.MatchedName())
    ensures Step(req, st, line) == State(false, true, 0, st.out + line)
  {
    assert Newlines(0) == [];
  }

  /** Running lines whose first line steps to `s1`. */
  lemma {:induction false} RunFirst(req: Request, st: State, lines: seq<string>, s1: State)
    requires req.Valid() && lines != [] && Step(req, st, lines[0]) == s1
    ensures Run(req, st, lines) == Run(req, s1, lines[1..])
  {
  }

  lemma {:induction false} RunAppend(req: Request, st: State, a: seq<string>, b: seq<string>)
    requires req.Valid()
    decreases |a|
    ensures Run(req, st, a + b) == Run(req, Run(req, st, a), b)
  {
    if a != [] {
      assert (a + b)[0] == a[0] && (a + b)[1..] == a[1..] + b;
      RunAppend(req, Step(req, st, a[0]), a[1..], b);
    } else {
      assert a + b == b;
    }
  }

  /** Removing a section keeps every line outside it: the lines before
      its header and from the next section header on come out as they were
      (blank lines normalised), whatever the removed section held. */
  lemma {:induction false} RemoveSectionKeepsOtherLines(req: Request, pre: seq<string>, header: string, body: seq<string>, post: seq<string>)
    requires req.Valid() && req.mode == RemoveSection
    requires forall line <- pre :: !IsTargetHeader(SkipSpace(line), req.section)
    requires IsTargetHeader(SkipSpace(header), req.section)
    requires forall k :: 0 <= k < |body| ==> SkipSpace(body[k]) != [] && SkipSpace(body[k])[0] != '['
    requires post != [] ==> SkipSpace(post[0]) != [] && SkipSpace(post[0])[0] == '['
    requires post != [] && req.option.Some? ==> !IsOptionLine(SkipSpace(post[0]), req.MatchedName())
    requires forall line <- post :: !IsTargetHeader(SkipSpace(line), req.section)
    ensures Rewrite(req, pre + [header] + body + post) == (true, Text(pre) + Text(post))
  {
    var s0 := State(false, false, 0, []);
    RunAppend(req, s0, pre + [header] + body, post);
    RunAppend(req, s0, pre + [header], body);
    ThroughTargetHeader(req, pre, header);
    assert Text(pre) + [] == Text(pre);
    var s2 := State(true, false, 0, Text(pre));
    RunInRemovedSection(req, s2, body);
    RemovedSectionTail(req, Run(req, s2, body), post);
  }

  /** The lines before the target section, then its header: the lines
      come out as they were, the header too unless the section is being
      removed, and the section is open with nothing applied yet. */
  lemma {:induction false} ThroughTargetHeader(req: Request, pre: seq<string>, header: string)
    requires req.Valid()
    requires forall line <- pre :: !IsTargetHeader(SkipSpace(line), req.section)
    requires IsTargetHeader(SkipSpace(header), req.section)
    ensures Run(req, State(false, false, 0, []), pre + [header]) ==
      State(true, false, 0, Text(pre) + (if req.mode == RemoveSection then [] else header))
  {
    var s0 := State(false, false, 0, []);
    assert Newlines(0) == [];
    RunAppend(req, s0, pre, [header]);
    var r1 := Run(req, s0, pre);
    RunOutsideSection(req, s0, pre);
    assert r1.out + Newlines(r1.nrNewlines) == Text(pre);
    EnterSection(req, r1, header);
    assert Run(req, r1, [header]) == Run(req, Step(req, r1, header), []);
  }

  /** From the end of a removed section on: the rest of the file comes out
      as it was. */
  lemma {:induction false} RemovedSectionTail(req: Request, st: State, post: seq<string>)
    requires req.Valid() && req.mode == RemoveSection && st.inSection && st.nrNewlines == 0
    requires post != [] ==> SkipSpace(post[0]) != [] && SkipSpace(post[0])[0] == '['
    requires post != [] && req.option.Some? ==> !IsOptionLine(SkipSpace(post[0]), req.MatchedName())
    requires forall line <- post :: !IsTargetHeader(SkipSpace(line), req.section)
    ensures Finish(req, Run(req, st, post)) == (true, st.out + Text(post))
  {
    assert Newlines(0) == [];
    if post == [] {
      assert Run(req, st, post) == st && Text(post) == [];
      assert AddOption(req) == [];
      if !st.optApplied {
        assert Finish(req, st) == (true, st.out + "" + [] + Newlines(0));
        EmptyGlue(st.out, []);
      } else {
        assert Finish(req, st) == (true, st.out + Newlines(0));
      }
    } else {
      LeaveRemovedSection(req, st, post[0]);
      var s4 := State(false, true, 0, st.out + post[0]);
      assert Run(req, st, post) == Run(req, s4, post[1..]);
      AfterRemovedSection(req, st.out, post);
    }
  }

  lemma {:induction false} AfterRemovedSection(req: Request, out: string, post: seq<string>)
    requires req.Valid() && post != [] && SkipSpace(post[0]) != []
    requires forall line <- post :: !IsTargetHeader(SkipSpace(line), req.section)
    ensures Finish(req, Run(req, State(false, true, 0, out + post[0]), post[1..])) == (true, out + Text(post))
  {
    var s4 := State(false, true, 0, out + post[0]);
    RunOutsideSection(req, s4, post[1..]);
    var r5 := Run(req, s4, post[1..]);
    assert Finish(req, r5) == (true, r5.out + Newlines(r5.nrNewlines));
    assert Text(post) == post[0] + Text(post[1..]);
    AppendGlue(out, post[0], Text(post[1..]));
  }

  lemma AppendGlue(a: string, b: string, c: string)
    ensures a + b + Newlines(0) + c == a + (b + c)
  {
    assert Newlines(0) == [];
  }

  /** A target header met outside the section opens it; it is copied
      unless the section is being removed. */
  lemma EnterSection(req: Request, st: State, header: string)
    requires req.Valid() && !st.inSection && IsTargetHeader(SkipSpace(header), req.section)
    ensures Step(req, st, header) ==
      State(true, st.optApplied, 0, st.out + Newlines(st.nrNewlines) + (if req.mode == RemoveSection then [] else header))
  {
  }

  /** Setting an option that the section already holds replaces its line
      `line`; every other line comes out as it was.  `rest` holds the
      section's lines after the option's line, and `later` the rest of the
      file from the next section header on: those lines are copied whatever
      they set, since they lie outside the section. */
  lemma {:induction false} SetsExistingOption(req: Request, pre: seq<string>, header: string, body: seq<string>, line: string,
                           rest: seq<string>, later: seq<string>)
    requires req.Valid() && req.mode == RemoveNone
    requires forall l <- pre :: !IsTargetHeader(SkipSpace(l), req.section)
    requires IsTargetHeader(SkipSpace(header), req.section)
    requires forall k :: 0 <= k < |body| ==>
      SkipSpace(body[k]) != [] && SkipSpace(body[k])[0] != '[' && !IsOptionLine(SkipSpace(body[k]), req.MatchedName())
    requires SkipSpace(line) != [] && IsOptionLine(SkipSpace(line), req.MatchedName())
    requires forall l <- rest :: SkipSpace(l) != [] ==>
      SkipSpace(l)[0] != '[' && !IsOptionLine(SkipSpace(l), req.MatchedName())
    requires StartsOtherSection(req, later)
    requires forall l <- later :: !IsTargetHeader(SkipSpace(l), req.section)
    ensures Rewrite(req, pre + [header] + body + [line] + rest + later) ==
      (true, Text(pre) + header + Text(body) + AddOption(req) + Text(rest + later))
  {
    var s0 := State(false, false, 0, []);
    assert pre + [header] + body + [line] + rest + later == (pre + [header] + body) + ([line] + rest + later);
    RunAppend(req, s0, pre + [header] + body, [line] + rest + later);
    ThroughSectionBody(req, pre, header, body);
    var s3 := State(true, false, 0, Text(pre) + header + Text(body));
    OptionLineTail(req, s3, line, rest, later);
  }

  /** Setting `port` in [client] of a file whose [mysqld] section sets
      `port` too: only the [client] line changes. */
  lemma SetsOptionKeepsLaterSections(req: Request, lines: seq<string>)
    requires req == Request(Some("port"), Some("9"), "client", RemoveNone)
    requires lines == ["[client]\n", "port=1\n", "[mysqld]\n", "port=2\n"]
    ensures Rewrite(req, lines) == (true, "[client]\n" + "port=9\n" + ("[mysqld]\n" + "port=2\n"))
  {
    var h, line, m, p := "[client]\n", "port=1\n", "[mysqld]\n", "port=2\n";
    ClientSampleLines();
    SetsExistingOption(req, [], h, [], line, [], [m, p]);
    FourLines(h, line, m, p);
    ClientSampleText();
    assert Text([]) + h + Text([]) == h;
  }

  lemma FourLines<T>(a: T, b: T, c: T, d: T)
    ensures [] + [a] + [] + [b] + [] + [c, d] == [a, b, c, d]
  {
  }

  /** The lines of the [client]/[mysqld] example, with their blanks
      skipped. */
  lemma ClientSampleLines()
    ensures SkipSpace("[client]\n") == "[client]\n" && IsTargetHeader("[client]\n", "client")
    ensures SkipSpace("port=1\n") == "port=1\n" && IsOptionLine("port=1\n", "port")
    ensures SkipSpace("[mysqld]\n") == "[mysqld]\n" && !IsTargetHeader("[mysqld]\n", "client")
    ensures !IsOptionLine("[mysqld]\n", "port")
    ensures SkipSpace("port=2\n") == "port=2\n" && !IsTargetHeader("port=2\n", "client")
  {
    ClientHeader();
    MysqldHeader();
    PortLines();
  }

  lemma ClientHeader()
    ensures SkipSpace("[client]\n") == "[client]\n" && IsTargetHeader("[client]\n", "client")
  {
    var h := "[client]\n";
    assert h[1..7] == "client";
    assert h[7..] == "]\n" && SkipSpace("]\n") == "]\n";
  }

  lemma MysqldHeader()
    ensures SkipSpace("[mysqld]\n") == "[mysqld]\n" && !IsTargetHeader("[mysqld]\n", "client")
    ensures !IsOptionLine("[mysqld]\n", "port")
  {
    var m := "[mysqld]\n";
    assert m[1..7][0] == 'm' && "client"[0] == 'c';
    assert m[..4][0] == '[';
  }

  lemma PortLines()
    ensures SkipSpace("port=1\n") == "port=1\n" && IsOptionLine("port=1\n", "port")
    ensures SkipSpace("port=2\n") == "port=2\n" && !IsTargetHeader("port=2\n", "client")
  {
    var a := "port=1\n";
    assert a[..4] == "port" && a[4] == '=';
  }

  lemma ClientSampleText()
    ensures AddOption(Request(Some("port"), Some("9"), "client", RemoveNone)) == "port=9\n"
    ensures Text([]) == [] && Text([] + ["[mysqld]\n", "port=2\n"]) == "[mysqld]\n" + "port=2\n"
  {
    var m, p := "[mysqld]\n", "port=2\n";
    assert [] + [m, p] == [m, p];
    assert Text([m, p]) == m + Text([p]) by {
      assert Normalized(m) == m && [m, p][1..] == [p];
    }
    assert Text([p]) == p by {
      assert Normalized(p) == p && [p][1..] == [];
    }
  }

  /** From the option's line on: it is replaced, and every later line comes
      out as it was, those of later sections whatever they set. */
  lemma {:induction false} OptionLineTail(req: Request, st: State, line: string, rest: seq<string>, later: seq<string>)
    requires req.Valid() && req.mode == RemoveNone && st.inSection && !st.optApplied && st.nrNewlines == 0
    requires SkipSpace(line) != [] && IsOptionLine(SkipSpace(line), req.MatchedName())
    requires forall l <- rest :: SkipSpace(l) != [] ==>
      SkipSpace(l)[0] != '[' && !IsOptionLine(SkipSpace(l), req.MatchedName())
    requires StartsOtherSection(req, later)
    requires forall l <- later :: !IsTargetHeader(SkipSpace(l), req.section)
    ensures Finish(req, Run(req, st, [line] + rest + later)) == (true, st.out + AddOption(req) + Text(rest + later))
  {
    ReplaceOptionLine(req, st.out, line);
    var out := st.out + AddOption(req);
    assert ([line] + rest + later)[0] == line && ([line] + rest + later)[1..] == rest + later;
    assert Run(req, st, [line] + rest + later) == Run(req, State(true, true, 0, out), rest + later);
    AppliedTail(req, out, rest, later);
  }

  /** The end of the file once the option is applied inside the section:
      the section's remaining lines `rest`, which do not set the option
      again, and the later sections `later`, which do not reopen it, come
      out as they were, and the change is reported. */
  lemma {:induction false} AppliedTail(req: Request, out: string, rest: seq<string>, later: seq<string>)
    requires req.Valid() && req.mode == RemoveNone
    requires forall l <- rest :: SkipSpace(l) != [] ==>
      SkipSpace(l)[0] != '[' && !IsOptionLine(SkipSpace(l), req.MatchedName())
    requires StartsOtherSection(req, later)
    requires forall l <- later :: !IsTargetHeader(SkipSpace(l), req.section)
    ensures Finish(req, Run(req, State(true, true, 0, out), rest + later)) == (true, out + Text(rest + later))
  {
    var s4 := State(true, true, 0, out);
    RunAppend(req, s4, rest, later);
    SectionRestAfterApplied(req, out, rest);
    var r1 := Run(req, s4, rest);
    LaterSections(req, r1, later);
    TailGlue(out, r1.out + Newlines(r1.nrNewlines), rest, later);
  }

  /** The section's lines after the option's line, which do not set it
      again, are copied through, blank lines at most deferred. */
  lemma {:induction false} SectionRestAfterApplied(req: Request, out: string, rest: seq<string>)
    requires req.Valid() && req.mode == RemoveNone
    requires forall l <- rest :: SkipSpace(l) != [] ==>
      SkipSpace(l)[0] != '[' && !IsOptionLine(SkipSpace(l), req.MatchedName())
    ensures var r := Run(req, State(true, true, 0, out), rest);
      r.optApplied && r.out + Newlines(r.nrNewlines) == out + Text(rest)
  {
    assert forall l <- rest :: !IsTargetHeader(SkipSpace(l), req.section);
    RunAfterApplied(req, State(true, true, 0, out), rest);
    assert Newlines(0) == [];
  }

  lemma {:induction false} TailGlue(out: string, x: string, a: seq<string>, b: seq<string>)
    requires x == out + Text(a)
    ensures x + Text(b) == out + Text(a + b)
  {
    var ta, tb := Text(a), Text(b);
    TextAppend(a, b);
    AppendAssoc(out, ta, tb);
  }

  /** The first line of `later`, if any, is the header of a section other
      than the option's (and does not look like the option's line). */
  predicate StartsOtherSection(req: Request, later: seq<string>)
  {
    later != [] ==>
      SkipSpace(later[0]) != [] && SkipSpace(later[0])[0] == '[' && !IsOptionLine(SkipSpace(later[0]), req.MatchedName())
  }

  /** Once the option is applied, the sections that follow come out as
      they were, after the counted blank lines. */
  lemma {:induction false} LaterSections(req: Request, st: State, later: seq<string>)
    requires req.Valid() && req.mode == RemoveNone && st.optApplied
    requires StartsOtherSection(req, later)
    requires forall l <- later :: !IsTargetHeader(SkipSpace(l), req.section)
    ensures Finish(req, Run(req, st, later)) == (true, st.out + Newlines(st.nrNewlines) + Text(later))
  {
    var o := st.out + Newlines(st.nrNewlines);
    if later == [] {
      assert Run(req, st, later) == st;
      assert o + Text(later) == o;
    } else {
      LeaveAppliedSection(req, st, later[0]);
      assert Run(req, st, later) == Run(req, State(false, true, 0, o + later[0]), later[1..]);
      AfterRemovedSection(req, o, later);
    }
  }

  /** The header of another section, once the option is applied: the
      counted blank lines and the header are copied, and the section is
      left. */
  lemma LeaveAppliedSection(req: Request, st: State, line: string)
    requires req.Valid() && req.mode == RemoveNone && st.optApplied
    requires SkipSpace(line) != [] && SkipSpace(line)[0] == '[' && !IsTargetHeader(SkipSpace(line), req.section)
    requires !IsOptionLine(SkipSpace(line), req.MatchedName())
    ensures Step(req, st, line) == State(false, true, 0, st.out + Newlines(st.nrNewlines) + line)
  {
  }

  lemma {:induction false} TextAppend(a: seq<string>, b: seq<string>)
    ensures Text(a + b) == Text(a) + Text(b)
    decreases |a|
  {
    if a == [] {
      assert a + b == b;
    } else {
      assert (a + b)[0] == a[0] && (a + b)[1..] == a[1..] + b;
      TextAppend(a[1..], b);
    }
  }

  /** One line once the option is applied: a blank line is counted,
      any other line is copied after the counted blank lines. */
  lemma StepAfterApplied(req: Request, st: State, line: string)
    requires req.Valid() && req.mode == RemoveNone && st.optApplied
    requires !IsTargetHeader(SkipSpace(line), req.section)
    requires SkipSpace(line) != [] ==> !IsOptionLine(SkipSpace(line), req.MatchedName())
    ensures SkipSpace(line) == [] ==> Step(req, st, line) == st.(nrNewlines := st.nrNewlines + 1)
    ensures SkipSpace(line) != [] ==>
      Step(req, st, line) == State(Step(req, st, line).inSection, true, 0, st.out + Newlines(st.nrNewlines) + line)
  {
  }

  /** Once the option is applied, lines that neither set it nor open the
      section again are copied through; blank lines come out as
      newlines, at most deferred. */
  lemma {:induction false} RunAfterApplied(req: Request, st: State, lines: seq<string>)
    requires req.Valid() && req.mode == RemoveNone && st.optApplied
    requires forall line <- lines :: !IsTargetHeader(SkipSpace(line), req.section)
    requires forall line <- lines :: SkipSpace(line) != [] ==> !IsOptionLine(SkipSpace(line), req.MatchedName())
    decreases |lines|
    ensures var r := Run(req, st, lines);
      r.optApplied && r.out + Newlines(r.nrNewlines) == st.out + Newlines(st.nrNewlines) + Text(lines)
  {
    if lines != [] {
      var line, rest := lines[0], Text(lines[1..]);
      var s1 := Step(req, st, line);
      assert Run(req, st, lines) == Run(req, s1, lines[1..]);
      assert Text(lines) == Normalized(line) + rest;
      assert s1.optApplied &&
        s1.out + Newlines(s1.nrNewlines) + rest == st.out + Newlines(st.nrNewlines) + (Normalized(line) + rest) by {
        StepAfterApplied(req, st, line);
        OutsideGlue(st.out, st.nrNewlines, line, SkipSpace(line) == [], rest);
      }
      RunAfterApplied(req, s1, lines[1..]);
    }
  }

  /** Inside the section, the line of the option being set is replaced by
      the new one. */
  lemma ReplaceOptionLine(req: Request, out: string, line: string)
    requires req.Valid() && req.mode == RemoveNone
    requires SkipSpace(line) != [] && IsOptionLine(SkipSpace(line), req.MatchedName())
    ensures Step(req, State(true, false, 0, out), line) == State(true, true, 0, out + AddOption(req))
  {
    assert Newlines(0) == [];
  }

  /** Inside the section, the line of the option being removed is dropped
      and the removal counts as applied. */
  lemma RemoveOptionLine(req: Request, out: string, applied: bool, line: string)
    requires req.Valid() && req.mode == RemoveOption && req.option.Some?
    requires SkipSpace(line) != [] && IsOptionLine(SkipSpace(line), req.MatchedName())
    ensures Step(req, State(true, applied, 0, out), line) == State(true, true, 0, out)
  {
    assert AddOption(req) == [];
  }

  /** Inside the section, before the option is applied, a line that neither
      sets the option nor opens a section is copied through. */
  lemma {:induction false} RunInSectionWithoutOption(req: Request, st: State, body: seq<string>)
    requires req.Valid() && req.mode == RemoveNone && st.inSection && !st.optApplied && st.nrNewlines == 0
    requires PlainBody(req, body)
    decreases |body|
    ensures Run(req, st, body) == State(true, false, 0, st.out + Text(body))
  {
    if body == [] {
      assert st.out + Text(body) == st.out;
    } else {
      var line := body[0];
      var s1 := State(true, false, 0, st.out + line);
      CopyBodyLine(req, st, line);
      RunFirst(req, st, body, s1);
      RunInSectionWithoutOption(req, s1, body[1..]);
      assert Text(body) == line + Text(body[1..]);
      Regroup(st.out, line, Text(body[1..]), []);
    }
  }

  /** Lines that are neither blank, nor a header, nor the option's line. */
  predicate PlainBody(req: Request, body: seq<string>)
  {
    body != [] ==>
      SkipSpace(body[0]) != [] && SkipSpace(body[0])[0] != '[' && !IsOptionLine(SkipSpace(body[0]), req.MatchedName()) &&
      PlainBody(req, body[1..])
  }

  lemma {:induction false} PlainBodyOf(req: Request, body: seq<string>)
    requires forall k :: 0 <= k < |body| ==>
      SkipSpace(body[k]) != [] && SkipSpace(body[k])[0] != '[' && !IsOptionLine(SkipSpace(body[k]), req.MatchedName())
    ensures PlainBody(req, body)
    decreases |body|
  {
    if body != [] {
      assert forall k :: 0 <= k < |body| - 1 ==> body[1..][k] == body[k + 1];
      PlainBodyOf(req, body[1..]);
    }
  }

  /** One line of the section's body, before the option is applied, is
      copied through as it is. */
  lemma CopyBodyLine(req: Request, st: State, line: string)
    requires req.Valid() && req.mode == RemoveNone && st.inSection && !st.optApplied && st.nrNewlines == 0
    requires SkipSpace(line) != [] && SkipSpace(line)[0] != '[' && !IsOptionLine(SkipSpace(line), req.MatchedName())
    ensures Step(req, st, line) == State(true, false, 0, st.out + line)
  {
    assert Newlines(0) == [];
  }

  /** The header of the next section, with the option still pending: the
      option is written first, then the header, and the section is left. */
  lemma LeaveSectionAddsOption(req: Request, st: State, next: string)
    requires req.Valid() && req.mode == RemoveNone && st.inSection && !st.optApplied && st.nrNewlines == 0
    requires SkipSpace(next) != [] && SkipSpace(next)[0] == '[' && !IsTargetHeader(SkipSpace(next), req.section)
    requires !IsOptionLine(SkipSpace(next), req.MatchedName())
    ensures Step(req, st, next) == State(false, true, 0, st.out + AddOption(req) + next)
  {
    assert Newlines(0) == [];
  }

  /** An option the section lacks, when another section follows it, is
      added at the end of the section, right before the next header (the
      first line of `tail`); every other line comes out as it was. */
  lemma {:induction false} AddsOptionBeforeNextSection(req: Request, pre: seq<string>, header: string, body: seq<string>, tail: seq<string>)
    requires req.Valid() && req.mode == RemoveNone
    requires forall line <- pre :: !IsTargetHeader(SkipSpace(line), req.section)
    requires IsTargetHeader(SkipSpace(header), req.section)
    requires forall k :: 0 <= k < |body| ==>
      SkipSpace(body[k]) != [] && SkipSpace(body[k])[0] != '[' && !IsOptionLine(SkipSpace(body[k]), req.MatchedName())
    requires tail != [] && SkipSpace(tail[0]) != [] && SkipSpace(tail[0])[0] == '['
    requires !IsOptionLine(SkipSpace(tail[0]), req.MatchedName())
    requires forall line <- tail :: !IsTargetHeader(SkipSpace(line), req.section)
    ensures Rewrite(req, pre + [header] + body + tail) ==
      (true, Text(pre) + header + Text(body) + AddOption(req) + Text(tail))
  {
    var s0 := State(false, false, 0, []);
    RunAppend(req, s0, pre + [header] + body, tail);
    ThroughSectionBody(req, pre, header, body);
    var s3 := State(true, false, 0, Text(pre) + header + Text(body));
    NextSectionTail(req, s3, tail);
  }

  /** Up to the end of the target section's body, with the option still
      pending: every line so far comes out as it was. */
  lemma {:induction false} ThroughSectionBody(req: Request, pre: seq<string>, header: string, body: seq<string>)
    requires req.Valid() && req.mode == RemoveNone
    requires forall line <- pre :: !IsTargetHeader(SkipSpace(line), req.section)
    requires IsTargetHeader(SkipSpace(header), req.section)
    requires forall k :: 0 <= k < |body| ==>
      SkipSpace(body[k]) != [] && SkipSpace(body[k])[0] != '[' && !IsOptionLine(SkipSpace(body[k]), req.MatchedName())
    ensures Run(req, State(false, false, 0, []), pre + [header] + body) == State(true, false, 0, Text(pre) + header + Text(body))
  {
    var s0 := State(false, false, 0, []);
    RunAppend(req, s0, pre + [header], body);
    ThroughTargetHeader(req, pre, header);
    var s2 := State(true, false, 0, Text(pre) + header);
    PlainBodyOf(req, body);
    RunInSectionWithoutOption(req, s2, body);
  }

  /** From the next section's header on, with the option still pending. */
  lemma {:induction false} NextSectionTail(req: Request, st: State, tail: seq<string>)
    requires req.Valid() && req.mode == RemoveNone && st.inSection && !st.optApplied && st.nrNewlines == 0
    requires tail != [] && SkipSpace(tail[0]) != [] && SkipSpace(tail[0])[0] == '['
    requires !IsOptionLine(SkipSpace(tail[0]), req.MatchedName())
    requires forall line <- tail :: !IsTargetHeader(SkipSpace(line), req.section)
    ensures Finish(req, Run(req, st, tail)) == (true, st.out + AddOption(req) + Text(tail))
  {
    LeaveSectionAddsOption(req, st, tail[0]);
    var out := st.out + AddOption(req);
    assert Run(req, st, tail) == Run(req, State(false, true, 0, out + tail[0]), tail[1..]);
    AfterRemovedSection(req, out, tail);
  }

  /** The smallest case: the target header, then the next section's
      header; the option goes between them. */
  lemma AddsOptionBetweenHeaders(req: Request, header: string, next: string)
    requires req.Valid() && req.mode == RemoveNone
    requires IsTargetHeader(SkipSpace(header), req.section)
    requires SkipSpace(next) != [] && SkipSpace(next)[0] == '[' && !IsTargetHeader(SkipSpace(next), req.section)
    requires !IsOptionLine(SkipSpace(next), req.MatchedName())
    ensures Rewrite(req, [header, next]) == (true, header + AddOption(req) + next)
  {
    var s0 := State(false, false, 0, []);
    EnterSection(req, s0, header);
    assert Newlines(0) == [];
    var s1 := State(true, false, 0, header);
    var s2 := State(false, true, 0, header + AddOption(req) + next);
    LeaveSectionAddsOption(req, s1, next);
    assert s0.out + Newlines(0) + header == header;
    RunTwoLines(req, s0, header, next);
    FinishApplied(req, s2);
  }

  /** Once the change is applied and no blank lines are pending, the end of
      the file adds nothing. */
  lemma FinishApplied(req: Request, st: State)
    requires req.Valid() && st.optApplied && st.nrNewlines == 0
    ensures Finish(req, st) == (true, st.out)
  {
    assert st.out + Newlines(0) == st.out;
  }

  /** Running two lines is two steps. */
  lemma RunTwoLines(req: Request, st: State, a: string, b: string)
    requires req.Valid()
    ensures Run(req, st, [a, b]) == Step(req, Step(req, st, a), b)
  {
    var s1 := Step(req, st, a);
    assert [a, b][1..] == [b] && [b][1..] == [];
    assert Run(req, st, [a, b]) == Run(req, s1, [b]);
    assert Run(req, s1, [b]) == Run(req, Step(req, s1, b), []);
  }

  /** An option the section lacks, when that section ends the file, is
      added at its end, on a line of its own: after a newline when the
      last line has none.  Every other line comes out as it was. */
  lemma {:induction false} AppendsMissingOption(req: Request, pre: seq<string>, header: string, body: seq<string>)
    requires req.Valid() && req.mode == RemoveNone
    requires forall line <- pre :: !IsTargetHeader(SkipSpace(line), req.section)
    requires IsTargetHeader(SkipSpace(header), req.section)
    requires forall k :: 0 <= k < |body| ==>
      SkipSpace(body[k]) != [] && SkipSpace(body[k])[0] != '[' && !IsOptionLine(SkipSpace(body[k]), req.MatchedName())
    ensures var out := Text(pre) + header + Text(body);
      out != [] &&
      Rewrite(req, pre + [header] + body) == (true, out + (if out[|out| - 1] == '\n' then "" else "\n") + AddOption(req))
  {
    var out := Text(pre) + header + Text(body);
    var lines := pre + [header] + body;
    assert out != [] by {
      NonEmptyText(Text(pre), header, Text(body));
    }
    assert Run(req, State(false, false, 0, []), lines) == State(true, false, 0, out) by {
      ThroughSectionBody(req, pre, header, body);
    }
    EndInSection(req, lines, out);
  }

  /** A file whose loop ends inside the target section with the option
      still pending. */
  lemma {:induction false} EndInSection(req: Request, lines: seq<string>, out: string)
    requires req.Valid() && req.mode == RemoveNone && out != []
    requires Run(req, State(false, false, 0, []), lines) == State(true, false, 0, out)
    ensures Rewrite(req, lines) == (true, out + (if out[|out| - 1] == '\n' then "" else "\n") + AddOption(req))
  {
    FinishAtSectionEnd(req, out);
  }

  lemma NonEmptyText(a: string, header: string, b: string)
    requires SkipSpace(header) != []
    ensures a + header + b != []
  {
    assert |a + header + b| >= |header| >= |SkipSpace(header)| > 0;
  }

  /** At the end of a file that ends inside the target section, still
      without the option: a newline if the text lacks one, then the
      option. */
  lemma FinishAtSectionEnd(req: Request, out: string)
    requires req.Valid() && req.mode == RemoveNone && out != []
    ensures Finish(req, State(true, false, 0, out)) ==
      (true, out + (if out[|out| - 1] == '\n' then "" else "\n") + AddOption(req))
  {
    var nl: string := if out[|out| - 1] == '\n' then "" else "\n";
    assert Newlines(0) == [];
    assert out + nl + AddOption(req) + Newlines(0) == out + nl + AddOption(req);
  }

  // ---------------------------------------------------------------------
  // The loop of modify_defaults_file, statement by statement
  // ---------------------------------------------------------------------

  /** The whitespace-skipping loops: the first position from `from` on that
      is not a blank. */
  method SkipBlanks(line: string, from: nat) returns (pos: nat)
    requires from <= |line|
    ensures from <= pos <= |line| && line[pos..] == SkipSpace(line[from..])
  {
    pos := from;
    while pos < |line| && IsSpace(line[pos])
      invariant from <= pos <= |line|
      invariant SkipSpace(line[pos..]) == SkipSpace(line[from..])
    {
      assert line[pos..][1..] == line[pos + 1..];
      pos := pos + 1;
    }
  }

  /** `for (; nr_newlines; nr_newlines--)`: the counted blank lines written
      back as newlines. */
  method EmitNewlines(out: string, nrNewlines: nat) returns (r: string)
    ensures r == out + Newlines(nrNewlines)
  {
    r := out;
    var n: nat := nrNewlines;
    while n > 0
      invariant n <= nrNewlines && r == out + Newlines(nrNewlines - n)
    {
      NewlinesAdd(nrNewlines - n, 1);
      r := r + "\n";
      n := n - 1;
    }
  }

  /** One pass of the fgets loop. */
  method ProcessLine(req: Request, st: State, line: string) returns (r: State)
    requires req.Valid()
    ensures r == Step(req, st, line)
  {
    var pos := SkipBlanks(line, 0);
    assert line[0..] == line;
    if pos == |line| {
      return st.(nrNewlines := st.nrNewlines + 1);
    }
    var q := line[pos..];
    if req.option.Some? && st.inSection && IsOptionLine(q, req.MatchedName()) {
      return st.(optApplied := true, out := st.out + AddOption(req));
    }
    var inSection, optApplied, out := st.inSection, st.optApplied, st.out;
    if inSection && !optApplied && line[pos] == '[' {
      out := out + AddOption(req);
      optApplied := true;
    }
    out := EmitNewlines(out, st.nrNewlines);
    var target := line[pos] == '[' && IsTargetHeader(q, req.section);
    var copied := !inSection || req.mode != RemoveSection || (line[pos] == '[' && !target);
    if copied {
      out := out + line;
    }
    if line[pos] == '[' {
      if target {
        if req.mode == RemoveSection && copied {
          out := out[..|out| - |line|];
        }
        inSection := true;
      } else {
        inSection := false;
      }
    }
    r := State(inSection, optApplied, 0, out);
  }

  /** End of file: the pending option, then the counted blank lines. */
  method FinishFile(req: Request, st: State) returns (applied: bool, out: string)
    requires req.Valid()
    ensures (applied, out) == Finish(req, st)
  {
    applied, out := st.optApplied, st.out;
    if !applied && st.inSection && req.mode != RemoveOption {
      if req.mode == RemoveNone && out != [] && out[|out| - 1] != '\n' {
        out := out + "\n";
      } else {
        assert out + "" == out;
      }
      out := out + AddOption(req);
      applied := true;
    }
    out := EmitNewlines(out, st.nrNewlines);
  }

  /** The rewriting part of modify_defaults_file: every line in turn, then
      the end of the file. */
  method ModifyLines(req: Request, lines: seq<string>) returns (applied: bool, out: string)
    requires req.Valid()
    ensures (applied, out) == Rewrite(req, lines)
  {
    var st := State(false, false, 0, []);
    var i := 0;
    while i < |lines|
      invariant 0 <= i <= |lines|
      invariant Run(req, st, lines[i..]) == Run(req, State(false, false, 0, []), lines)
    {
      assert lines[i..][0] == lines[i] && lines[i..][1..] == lines[i + 1..];
      st := ProcessLine(req, st, lines[i]);
      i := i + 1;
    }
    applied, out := FinishFile(req, st);
  }

  // ---------------------------------------------------------------------
  // The copy of lines 164-166 and the rewind of line 186, as written
  // ---------------------------------------------------------------------

  /** file_buffer as written through dst_ptr: the characters stored at each
      position, and dst_ptr itself.  A position never written holds
      whatever malloc left there. */
  datatype Buffer = Buffer(cells: map<int, char>, dst: int)

  function WriteAt(cells: map<int, char>, at: int, s: string): map<int, char>
    decreases |s|
  {
    if s == [] then cells else WriteAt(cells[at := s[0]], at + 1, s[1..])
  }

  /** strcpy: `s` and its NUL stored at dst_ptr, which does not move. */
  function Strcpy(b: Buffer, s: string): Buffer
  {
    b.(cells := WriteAt(b.cells, b.dst, s + ['\0']))
  }

  /** strcpy followed by advancing dst_ptr past the copy. */
  function Append(b: Buffer, s: string): Buffer
  {
    Strcpy(b, s).(dst := b.dst + |s|)
  }

  /** add_option, which writes nothing when removing. */
  function AddOptionAt(req: Request, b: Buffer): Buffer
    requires req.Valid()
  {
    if req.mode == RemoveNone then Append(b, AddOption(req)) else b
  }

  function NewlinesAt(b: Buffer, n: nat): Buffer
  {
    if n == 0 then b else Append(b, Newlines(n))
  }

  datatype WState = WState(inSection: bool, optApplied: bool, nrNewlines: nat, buf: Buffer)

  /** One fgets line as the code stands: the strcpy of line 165 is guarded
      but the advance of line 166 is not, and line 186 takes the header's
      length back off dst_ptr. */
  function StepAsWritten(req: Request, st: WState, line: string): (r: WState)
    requires req.Valid()
    ensures var s := Step(req, State(st.inSection, st.optApplied, st.nrNewlines, []), line);
      r.inSection == s.inSection && r.optApplied == s.optApplied && r.nrNewlines == s.nrNewlines
    ensures r.buf.dst >= st.buf.dst
  {
    var q := SkipSpace(line);
    if q == [] then st.(nrNewlines := st.nrNewlines + 1)
    else if req.option.Some? && st.inSection && IsOptionLine(q, req.MatchedName()) then
      st.(optApplied := true, buf := AddOptionAt(req, st.buf))
    else
      var flush := st.inSection && !st.optApplied && q[0] == '[';
      var b1 := NewlinesAt(if flush then AddOptionAt(req, st.buf) else st.buf, st.nrNewlines);
      var b2 := if !st.inSection || req.mode != RemoveSection then Strcpy(b1, line) else b1;
      var b3 := b2.(dst := b2.dst + |line|);
      var applied := st.optApplied || flush;
      if q[0] == '[' && IsTargetHeader(q, req.section) then
        WState(true, applied, 0, if req.mode == RemoveSection then b3.(dst := b3.dst - |line|) else b3)
      else
        WState(if q[0] == '[' then false else st.inSection, applied, 0, b3)
  }

  /** The loop as written: the flags move exactly as in the corrected
      loop, and dst_ptr never moves back. */
  function RunAsWritten(req: Request, st: WState, lines: seq<string>): (r: WState)
    requires req.Valid()
    ensures var s := Run(req, State(st.inSection, st.optApplied, st.nrNewlines, []), lines);
      r.inSection == s.inSection && r.optApplied == s.optApplied && r.nrNewlines == s.nrNewlines
    ensures r.buf.dst >= st.buf.dst
    decreases |lines|
  {
    if lines == [] then st
    else
      var w1 := StepAsWritten(req, st, lines[0]);
      var s1 := Step(req, State(st.inSection, st.optApplied, st.nrNewlines, []), lines[0]);
      RunFlags(req, s1, [], lines[1..]);
      assert s1.(out := []) == State(w1.inSection, w1.optApplied, w1.nrNewlines, []);
      RunAsWritten(req, w1, lines[1..])
  }

  /** The flags the loop ends with do not depend on the text written. */
  lemma {:induction false} RunFlags(req: Request, st: State, out: string, lines: seq<string>)
    requires req.Valid()
    decreases |lines|
    ensures var a, b := Run(req, st, lines), Run(req, st.(out := out), lines);
      a.inSection == b.inSection && a.optApplied == b.optApplied && a.nrNewlines == b.nrNewlines
  {
    if lines != [] {
      var s1, t1 := Step(req, st, lines[0]), Step(req, st.(out := out), lines[0]);
      assert t1 == s1.(out := t1.out);
      RunFlags(req, s1, t1.out, lines[1..]);
    }
  }

  /** What ends up between file_buffer and dst_ptr; None marks a byte that
      was never written. */
  function Contents(b: Buffer): seq<Option<char>>
  {
    seq(if b.dst < 0 then 0 else b.dst, k => if k in b.cells then Some(b.cells[k]) else None)
  }

  /** The file as written, and whether a change was applied; that flag
      is the corrected rewrite's. */
  function RewriteAsWritten(req: Request, lines: seq<string>): (r: (bool, seq<Option<char>>))
    requires req.Valid()
    ensures r.0 == Rewrite(req, lines).0
  {
    var st := RunAsWritten(req, WState(false, false, 0, Buffer(map[], 0)), lines);
    if !st.optApplied && st.inSection && req.mode != RemoveOption then
      var b := st.buf;
      var nl := req.mode == RemoveNone && !(b.dst - 1 in b.cells && b.cells[b.dst - 1] == '\n');
      (true, Contents(NewlinesAt(AddOptionAt(req, if nl then Append(b, "\n") else b), st.nrNewlines)))
    else
      (st.optApplied, Contents(NewlinesAt(st.buf, st.nrNewlines)))
  }

  /** Removing section `s` from "[s]\na=1\n": as written, the option line is
      skipped over rather than dropped, so the header bytes the rewind left
      behind are written back; the intended result is an empty file. */
  lemma RemoveSectionAsWrittenKeepsHeader()
    ensures RewriteAsWritten(Request(None, None, "s", RemoveSection), ["[s]\n", "a=1\n"]) ==
      (true, [Some('['), Some('s'), Some(']'), Some('\n')])
  {
    var req := Request(None, None, "s", RemoveSection);
    var h, o := "[s]\n", "a=1\n";
    var cells := map[0 := '[', 1 := 's', 2 := ']', 3 := '\n', 4 := '\0'];
    var w0 := WState(false, false, 0, Buffer(map[], 0));
    var w1 := WState(true, false, 0, Buffer(cells, 0));
    var w2 := WState(true, false, 0, Buffer(cells, 4));
    AsWrittenCopiesHeader();
    AsWrittenRewindsOverOption(cells);
    assert RunAsWritten(req, w0, [h, o]) == RunAsWritten(req, w1, [o]);
    assert RunAsWritten(req, w1, [o]) == RunAsWritten(req, w2, []);
    assert Contents(Buffer(cells, 4)) == [Some('['), Some('s'), Some(']'), Some('\n')];
  }

  /** As written, the target header is copied out whole, NUL included. */
  lemma AsWrittenCopiesHeader()
    ensures StepAsWritten(Request(None, None, "s", RemoveSection), WState(false, false, 0, Buffer(map[], 0)), "[s]\n") ==
      WState(true, false, 0, Buffer(map[0 := '[', 1 := 's', 2 := ']', 3 := '\n', 4 := '\0'], 0))
  {
    var req := Request(None, None, "s", RemoveSection);
    var h := "[s]\n";
    assert SkipSpace(h) == h;
    assert h[2..] == "]\n" && SkipSpace("]\n") == "]\n";
    assert IsTargetHeader(h, "s");
    assert h + ['\0'] == "[s]\n\0";
    assert StepAsWritten(req, WState(false, false, 0, Buffer(map[], 0)), h) ==
      WState(true, false, 0, Buffer(WriteAt(map[], 0, "[s]\n\0"), 0));
    WriteHeaderLine();
  }

  /** The cells the strcpy of "[s]\n" at 0 sets. */
  lemma WriteHeaderLine()
    ensures WriteAt(map[], 0, "[s]\n\0") == map[0 := '[', 1 := 's', 2 := ']', 3 := '\n', 4 := '\0']
  {
    var z: map<int, char> := map[];
    assert WriteAt(z, 0, "[s]\n\0") == WriteAt(z[0 := '['], 1, "s]\n\0");
    assert WriteAt(z[0 := '['], 1, "s]\n\0") == WriteAt(z[0 := '['][1 := 's'], 2, "]\n\0");
    assert WriteAt(z[0 := '['][1 := 's'], 2, "]\n\0") == WriteAt(z[0 := '['][1 := 's'][2 := ']'], 3, "\n\0");
    assert WriteAt(z[0 := '['][1 := 's'][2 := ']'], 3, "\n\0") ==
      WriteAt(z[0 := '['][1 := 's'][2 := ']'][3 := '\n'], 4, "\0");
  }

  /** As written, an option line inside the removed section only moves the
      write position past the header. */
  lemma AsWrittenRewindsOverOption(cells: map<int, char>)
    ensures StepAsWritten(Request(None, None, "s", RemoveSection), WState(true, false, 0, Buffer(cells, 0)), "a=1\n") ==
      WState(true, false, 0, Buffer(cells, 4))
  {
    assert SkipSpace("a=1\n") == "a=1\n";
  }

  /** The corrected rewrite drops the whole section, header included. */
  lemma RemoveSectionDropsHeader()
    ensures Rewrite(Request(None, None, "s", RemoveSection), ["[s]\n", "a=1\n"]) == (true, [])
  {
    var req := Request(None, None, "s", RemoveSection);
    var h, o := "[s]\n", "a=1\n";
    assert SkipSpace(h) == h;
    assert h[2..] == "]\n" && SkipSpace("]\n") == "]\n";
    assert IsTargetHeader(h, "s");
    RemoveSectionDropsIt(req, h, [o]);
    assert [h] + [o] == [h, o];
  }

  /** As written, the header that ends the removed section is skipped over
      like the lines of the section, since the copy test of line 164 still
      sees the section as open. */
  lemma AsWrittenSkipsNextHeader(cells: map<int, char>, at: int)
    ensures StepAsWritten(Request(None, None, "s", RemoveSection), WState(true, false, 0, Buffer(cells, at)), "[t]\n") ==
      WState(false, true, 0, Buffer(cells, at + 4))
  {
    var h := "[t]\n";
    assert SkipSpace(h) == h;
    assert h[1..2] == "t";
    assert !IsTargetHeader(h, "s");
  }

  /** Removing section `s` from "[s]\n", "a=1\n", "[t]\n", "b=2\n": as
      written, "[t]\n" never reaches the buffer, so the section after the
      removed one loses its header (and the skipped bytes hold no text). */
  lemma RemoveSectionAsWrittenDropsNextHeader()
    ensures RewriteAsWritten(Request(None, None, "s", RemoveSection), ["[s]\n", "a=1\n", "[t]\n", "b=2\n"]) ==
      (true, [Some('['), Some('s'), Some(']'), Some('\n'), Some('\0'), None, None, None,
              Some('b'), Some('='), Some('2'), Some('\n')])
  {
    var req := Request(None, None, "s", RemoveSection);
    var h, o, t, b := "[s]\n", "a=1\n", "[t]\n", "b=2\n";
    var cells := map[0 := '[', 1 := 's', 2 := ']', 3 := '\n', 4 := '\0'];
    var w0 := WState(false, false, 0, Buffer(map[], 0));
    var w1 := WState(true, false, 0, Buffer(cells, 0));
    var w2 := WState(true, false, 0, Buffer(cells, 4));
    var w3 := WState(false, true, 0, Buffer(cells, 8));
    AsWrittenCopiesHeader();
    AsWrittenRewindsOverOption(cells);
    AsWrittenSkipsNextHeader(cells, 4);
    var cells2 := cells[8 := 'b'][9 := '='][10 := '2'][11 := '\n'][12 := '\0'];
    var w4 := WState(false, true, 0, Buffer(cells2, 12));
    AsWrittenCopiesOutside(cells);
    assert RunAsWritten(req, w0, [h, o, t, b]) == RunAsWritten(req, w1, [o, t, b]);
    assert RunAsWritten(req, w1, [o, t, b]) == RunAsWritten(req, w2, [t, b]);
    assert RunAsWritten(req, w2, [t, b]) == RunAsWritten(req, w3, [b]);
    assert RunAsWritten(req, w3, [b]) == RunAsWritten(req, w4, []);
    AsWrittenContents(cells2);
  }

  /** As written, a line outside the section is copied at dst_ptr, NUL
      included. */
  lemma AsWrittenCopiesOutside(cells: map<int, char>)
    ensures StepAsWritten(Request(None, None, "s", RemoveSection), WState(false, true, 0, Buffer(cells, 8)), "b=2\n") ==
      WState(false, true, 0, Buffer(cells[8 := 'b'][9 := '='][10 := '2'][11 := '\n'][12 := '\0'], 12))
  {
    var req := Request(None, None, "s", RemoveSection);
    var b := "b=2\n";
    assert SkipSpace(b) == b;
    assert b + ['\0'] == "b=2\n\0";
    assert StepAsWritten(req, WState(false, true, 0, Buffer(cells, 8)), b) ==
      WState(false, true, 0, Buffer(WriteAt(cells, 8, "b=2\n\0"), 12));
    WriteOutsideLine(cells);
  }

  /** The cells the strcpy of "b=2\n" at 8 sets. */
  lemma WriteOutsideLine(cells: map<int, char>)
    ensures WriteAt(cells, 8, "b=2\n\0") == cells[8 := 'b'][9 := '='][10 := '2'][11 := '\n'][12 := '\0']
  {
    assert WriteAt(cells, 8, "b=2\n\0") == WriteAt(cells[8 := 'b'], 9, "=2\n\0");
    assert WriteAt(cells[8 := 'b'], 9, "=2\n\0") == WriteAt(cells[8 := 'b'][9 := '='], 10, "2\n\0");
    assert WriteAt(cells[8 := 'b'][9 := '='], 10, "2\n\0") == WriteAt(cells[8 := 'b'][9 := '='][10 := '2'], 11, "\n\0");
    assert WriteAt(cells[8 := 'b'][9 := '='][10 := '2'], 11, "\n\0") ==
      WriteAt(cells[8 := 'b'][9 := '='][10 := '2'][11 := '\n'], 12, "\0");
  }

  lemma AsWrittenContents(cells: map<int, char>)
    requires cells == map[0 := '[', 1 := 's', 2 := ']', 3 := '\n', 4 := '\0'][8 := 'b'][9 := '='][10 := '2'][11 := '\n'][12 := '\0']
    ensures Contents(Buffer(cells, 12)) == [Some('['), Some('s'), Some(']'), Some('\n'), Some('\0'), None, None, None,
                                            Some('b'), Some('='), Some('2'), Some('\n')]
  {
    assert 5 !in cells && 6 !in cells && 7 !in cells;
  }

  /** The corrected rewrite keeps the next section whole. */
  lemma RemoveSectionKeepsNextSection()
    ensures Rewrite(Request(None, None, "s", RemoveSection), ["[s]\n", "a=1\n", "[t]\n", "b=2\n"]) == (true, "[t]\nb=2\n")
  {
    var req := Request(None, None, "s", RemoveSection);
    var h, o, t, b := "[s]\n", "a=1\n", "[t]\n", "b=2\n";
    SampleLines();
    var body, post := [o], [t, b];
    assert forall k :: 0 <= k < |body| ==> SkipSpace(body[k]) != [] && SkipSpace(body[k])[0] != '[';
    assert forall line <- post :: !IsTargetHeader(SkipSpace(line), req.section);
    RemoveSectionKeepsOtherLines(req, [], h, body, post);
    assert [] + [h] + body + post == [h, o, t, b];
    var r := Rewrite(req, [h, o, t, b]);
    assert r == (true, Text([]) + Text(post));
    SampleText();
    assert Text([]) + Text(post) == "[t]\nb=2\n";
  }

  lemma SampleText()
    ensures Text([]) == [] && Text(["[t]\n", "b=2\n"]) == "[t]\nb=2\n"
  {
    var t, b := "[t]\n", "b=2\n";
    SampleLines();
    assert Text([t, b]) == t + Text([b]) by {
      assert Normalized(t) == t && [t, b][1..] == [b];
    }
    assert Text([b]) == b by {
      assert Normalized(b) == b && [b][1..] == [];
    }
  }

  /** The four lines of the example, with their blanks skipped. */
  lemma SampleLines()
    ensures SkipSpace("[s]\n") == "[s]\n" && IsTargetHeader("[s]\n", "s")
    ensures SkipSpace("a=1\n") == "a=1\n"
    ensures SkipSpace("[t]\n") == "[t]\n" && !IsTargetHeader("[t]\n", "s")
    ensures SkipSpace("b=2\n") == "b=2\n" && !IsTargetHeader("b=2\n", "s")
  {
    var h, t := "[s]\n", "[t]\n";
    assert h[2..] == "]\n" && SkipSpace("]\n") == "]\n";
    assert t[1..2] == "t";
  }

  // ---------------------------------------------------------------------
  // modify_defaults_file: allocation, the write-back and the status
  // ---------------------------------------------------------------------

  /** size_t is 64 bits wide. */
  const SIZE_MAX: nat := 0xFFFF_FFFF_FFFF_FFFF

  /** RESERVE: the slack allocated beyond the file and the new option. */
  const RESERVE: nat := 1024

  /** reserve_extended: room for "option=value\n" (the lengths count only
      when both are given) and RESERVE more. */
  function ReserveExtended(req: Request): nat
  {
    var (o, v) := if req.option.Some? && req.value.Some? then (|req.option.value|, |req.value.value|) else (0, 0);
    o + 1 + v + 1 + RESERVE
  }

  /** The malloc request of lines 99 and 105-106 as written: both `max`es
      against SIZE_MAX, the sum wrapping at 2^64. */
  function BufferRequestAsWritten(fileSize: nat, reserveExtended: nat): (r: nat)
    ensures r == SIZE_MAX
  {
    var bufferSize := Max(fileSize + 1, SIZE_MAX);
    Max((bufferSize + reserveExtended) % (SIZE_MAX + 1), SIZE_MAX)
  }

  /** As written, the request is SIZE_MAX whatever the file, so malloc
      fails on any machine with less memory than that. */
  lemma BufferRequestAsWrittenIsSizeMax(fileSize: nat, reserveExtended: nat, memory: nat)
    requires memory < SIZE_MAX
    ensures BufferRequestAsWritten(fileSize, reserveExtended) == SIZE_MAX
    ensures BufferRequestAsWritten(fileSize, reserveExtended) > memory
  {
  }

  /** The request as intended: the file, its NUL and the reserve, with the
      file size clamped to what size_t can hold. */
  function BufferRequest(fileSize: nat, reserveExtended: nat): (r: nat)
    ensures fileSize < SIZE_MAX ==> r == fileSize + 1 + reserveExtended
    ensures r >= reserveExtended + 1
  {
    Min(fileSize + 1, SIZE_MAX) + reserveExtended
  }

  /** The bytes of the file: the fgets pieces back to back. */
  function FileSize(lines: seq<string>): nat
  {
    if lines == [] then 0 else |lines[0]| + FileSize(lines[1..])
  }

  /** fwrite's return value: the count of bytes written.  A device either
      takes the whole buffer or nothing. */
  function WriteCount(len: nat, writeOk: bool): nat
  {
    if writeOk then len else 0
  }

  /** The error test of lines 215-217 as written: any nonzero fwrite
      count is taken for a failure. */
  predicate WriteFailsAsWritten(truncOk: bool, seekOk: bool, count: nat)
    ensures count > 0 ==> WriteFailsAsWritten(truncOk, seekOk, count)
    ensures count == 0 ==> (WriteFailsAsWritten(truncOk, seekOk, count) <==> !truncOk || !seekOk)
  {
    !truncOk || !seekOk || count != 0
  }

  /** As written, every successful write of a non-empty file is reported
      as an error. */
  lemma WriteSucceedsReportedAsError(len: nat)
    requires len > 0
    ensures WriteFailsAsWritten(true, true, WriteCount(len, true))
    ensures !WriteFails(true, true, WriteCount(len, true), len)
  {
  }

  /** The error test as intended: a short write is a failure. */
  predicate WriteFails(truncOk: bool, seekOk: bool, count: nat, len: nat)
    ensures count == WriteCount(len, true) ==> (WriteFails(truncOk, seekOk, count, len) <==> !truncOk || !seekOk)
    ensures len > 0 && count == WriteCount(len, false) ==> WriteFails(truncOk, seekOk, count, len)
  {
    !truncOk || !seekOk || count != len
  }

  /** The outcomes of the calls modify_defaults_file makes: the file as
      fopen finds it (None when it cannot be opened), then whether fstat,
      ftruncate, fseeko, fwrite and fclose succeed, and how much memory
      malloc can hand out. */
  datatype Env = Env(file: Option<seq<string>>, fstatOk: bool, memory: nat,
                     truncOk: bool, seekOk: bool, writeOk: bool, closeOk: bool)

  /** The whole of modify_defaults_file: status 2 when the file cannot be
      opened, 1 on any other failure, 0 otherwise; `written` says whether
      the rewritten `text` replaced the file's contents. */
  method ModifyDefaultsFile(req: Request, env: Env) returns (status: int, written: bool, text: string)
    requires req.Valid()
    ensures status == 2 <==> env.file.None?
    ensures status == 0 || status == 1 || status == 2
    ensures var ready := env.file.Some? && env.fstatOk &&
        BufferRequest(FileSize(env.file.value), ReserveExtended(req)) <= env.memory;
      var r := if env.file.Some? then Rewrite(req, env.file.value) else (false, []);
      (written <==> ready && r.0 && env.truncOk && env.seekOk && (env.writeOk || r.1 == [])) &&
      (written ==> text == r.1) &&
      (status == 0 <==> ready && (r.0 ==> env.truncOk && env.seekOk && (env.writeOk || r.1 == [])) && env.closeOk)
  {
    written, text := false, [];
    if env.file.None? {
      return 2, written, text;
    }
    var lines := env.file.value;
    if !env.fstatOk || BufferRequest(FileSize(lines), ReserveExtended(req)) > env.memory {
      return 1, written, text;
    }
    var applied, out := ModifyLines(req, lines);
    if applied {
      if WriteFails(env.truncOk, env.seekOk, WriteCount(|out|, env.writeOk), |out|) {
        return 1, written, text;
      }
      written, text := true, out;
    }
    status := if env.closeOk then 0 else 1;
  }
}
