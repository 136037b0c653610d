/**
 The Structured Text optimizer (st_optimizer_src/st_optimizer.cpp): it merges IF statements
 with the same header line. This module has the two line tests, the optimizer with its
 reopened input stream, and the function on lists of lines that the optimizer computes.
 */
module StOptimizer {

  // ---------- line tests ----------

  /** `Throws` is the exception of `string::at` past the end of the line. */
  datatype Test = Yes | No | Throws

  function Trimmed(line: string): string {
    if line != "" && line[0] == ' ' then Trimmed(line[1..]) else line
  }

  /** Compare character by character, reading past the end when `text` runs out first. */
  function Match(text: string, pattern: string): Test {
    if pattern <= text then Yes else if text <= pattern then Throws else No
  }

  function IsIf(line: string): Test {
    if |line| >= 3 && Trimmed(line) != "" then Match(Trimmed(line), "IF ") else No
  }

  function IsEndIf(line: string): Test {
    if |line| >= 7 then Match(Trimmed(line), "END_IF;") else No
  }

  method SkipSpaces(line: string) returns (i: nat)
    ensures i <= |line| && line[i..] == Trimmed(line)
  {
    i := 0;
    while i < |line|
      invariant i <= |line| && Trimmed(line[i..]) == Trimmed(line)
    {
      if line[i] != ' ' { break; }
      assert line[i..][1..] == line[i + 1..];
      i := i + 1;
    }
  }

  /** The chain of comparisons behind `&&`, one `at` per character of the pattern. */
  method MatchAt(line: string, i: nat, pattern: string) returns (t: Test)
    requires i <= |line|
    ensures t == Match(line[i..], pattern)
  {
    var k := 0;
    while k < |pattern|
      invariant k <= |pattern| && i + k <= |line| && line[i..i + k] == pattern[..k]
    {
      if i + k == |line| {
        assert line[i..] == line[i..i + k];
        return Throws;
      }
      if line[i + k] != pattern[k] {
        assert line[i..][k] != pattern[k];
        return No;
      }
      assert line[i..i + (k + 1)] == line[i..i + k] + [line[i + k]];
      assert pattern[..k + 1] == pattern[..k] + [pattern[k]];
      k := k + 1;
    }
    assert line[i..i + k] == line[i..][..k];
    return Yes;
  }

  /** is_IF_statement */
  method IsIfStatement(line: string) returns (t: Test)
    ensures t == IsIf(line)
  {
    var i := SkipSpaces(line);
    if |line| >= 3 && i < |line| {
      t := MatchAt(line, i, "IF ");
    } else {
      t := No;
    }
  }

  /** is_END_IF_statement */
  method IsEndIfStatement(line: string) returns (t: Test)
    ensures t == IsEndIf(line)
  {
    var i := SkipSpaces(line);
    if |line| >= 7 {
      t := MatchAt(line, i, "END_IF;");
    } else {
      t := No;
    }
  }

  /** The line begins with `n` spaces and no more. */
  predicate LeadingSpaces(line: string, n: nat) {
    n <= |line| && (forall k :: 0 <= k < n ==> line[k] == ' ') && (n < |line| ==> line[n] != ' ')
  }

  lemma {:induction false} TrimmedIsBehind(line: string, n: nat)
    requires LeadingSpaces(line, n)
    ensures Trimmed(line) == line[n..]
  {
    if n > 0 {
      assert line[1..][n - 1..] == line[n..];
      TrimmedIsBehind(line[1..], n - 1);
    }
  }

  /** By its characters, a line is an IF line, and the test throws on a line that stops inside `IF `. */
  lemma IfLine(line: string, n: nat)
    requires LeadingSpaces(line, n)
    ensures IsIf(line) == Yes <==> n + 3 <= |line| && line[n] == 'I' && line[n + 1] == 'F' && line[n + 2] == ' '
    ensures IsIf(line) == Throws <==> |line| >= 3 && (line[n..] == "I" || line[n..] == "IF")
  {
    TrimmedIsBehind(line, n);
    var t := line[n..];
    assert "IF "[..1] == "I" && "IF "[..2] == "IF";
    if n + 3 <= |line| { assert t[..3] == [line[n], line[n + 1], line[n + 2]]; }
    if t <= "IF " { assert t == "IF "[..|t|]; }
  }

  /** The same for `END_IF;`, with no exception for a blank line: on seven spaces the test throws. */
  lemma EndIfLine(line: string, n: nat)
    requires LeadingSpaces(line, n)
    ensures IsEndIf(line) == Yes <==> n + 7 <= |line| && line[n..n + 7] == "END_IF;"
    ensures IsEndIf(line) == Throws <==>
      |line| >= 7 && line[n..] in {"", "E", "EN", "END", "END_", "END_I", "END_IF"}
  {
    TrimmedIsBehind(line, n);
    var t := line[n..];
    assert "END_IF;"[..1] == "E" && "END_IF;"[..2] == "EN" && "END_IF;"[..3] == "END";
    assert "END_IF;"[..4] == "END_" && "END_IF;"[..5] == "END_I" && "END_IF;"[..6] == "END_IF";
    if n + 7 <= |line| { assert t[..7] == line[n..n + 7]; }
    if t <= "END_IF;" { assert t == "END_IF;"[..|t|]; }
  }

  /** An END_IF line is never an IF line, nor does the first test throw on it. */
  lemma EndIfIsNotIf(line: string)
    requires IsEndIf(line) == Yes
    ensures IsIf(line) == No
  {
    var t := Trimmed(line);
    assert t[0] == "END_IF;"[0];
    assert "IF "[0] == 'I';
  }

  // ---------- scanning ----------

  datatype Scan = Threw | Scanned(body: seq<string>, end: string, rest: seq<string>)

  function Depth(line: string, depth: nat): nat
    requires depth >= 1
  {
    if IsIf(line) == Yes then depth + 1 else if IsEndIf(line) == Yes then depth - 1 else depth
  }

  /** The tests made on a line inside a block. */
  predicate Throwing(line: string) {
    IsIf(line) == Throws || (IsIf(line) == No && IsEndIf(line) == Throws)
  }

  /** Copy lines until the block closes; a missing terminator reads as an empty line. */
  function ScanBlock(lines: seq<string>, depth: nat): (scan: Scan)
    requires depth >= 1
    ensures scan.Scanned? ==> |scan.body| + |scan.rest| <= |lines|
    ensures scan.Scanned? ==> scan.rest == lines[|lines| - |scan.rest|..]
  {
    if lines == [] then Scanned([], "", [])
    else if Throwing(lines[0]) then Threw
    else
      var d := Depth(lines[0], depth);
      if d == 0 then Scanned([], lines[0], lines[1..])
      else
        var inner := ScanBlock(lines[1..], d);
        if inner.Threw? then Threw else inner.(body := [lines[0]] + inner.body)
  }

  // ---------- the rewriting ----------

  datatype Outcome = Aborted | Program(lines: seq<string>)
  {
    function Behind(front: seq<string>): Outcome {
      if Aborted? then this else Program(front + lines)
    }
  }

  /** All bodies that follow a line equal to `header`. */
  function Gather(lines: seq<string>, header: string): Outcome
    decreases |lines|
  {
    if lines == [] then Program([])
    else if lines[0] != header then Gather(lines[1..], header)
    else
      var scan := ScanBlock(lines[1..], 1);
      if scan.Threw? then Aborted else Gather(scan.rest, header).Behind(scan.body)
  }

  datatype Merge = Failed | Merged(text: seq<string>, rest: seq<string>)

  /** A header met for the first time, followed by `tail`: what is written and where reading goes on. */
  function MergeAll(header: string, tail: seq<string>): (merge: Merge)
    ensures merge.Merged? ==> |merge.rest| <= |tail|
  {
    var scan := ScanBlock(tail, 1);
    if scan.Threw? then Failed
    else
      var gathered := Gather(scan.rest, header);
      if gathered.Aborted? then Failed
      else Merged([header] + scan.body + gathered.lines + [scan.end], scan.rest)
  }

  /** What the optimizer writes for `lines` when it has already met the headers in `seen`. */
  function Rewrite(lines: seq<string>, seen: seq<string>): Outcome
    decreases |lines|
  {
    if lines == [] then Program([])
    else if IsIf(lines[0]) == Throws then Aborted
    else if IsIf(lines[0]) == No then Rewrite(lines[1..], seen).Behind([lines[0]])
    else if lines[0] in seen then
      var scan := ScanBlock(lines[1..], 1);
      if scan.Threw? then Aborted else Rewrite(scan.rest, seen)
    else
      var merge := MergeAll(lines[0], lines[1..]);
      if merge.Failed? then Aborted else Rewrite(merge.rest, seen + [lines[0]]).Behind(merge.text)
  }

  // ---------- loop invariants of the optimizer ----------

  /** The lines not yet dealt with, after a call of getline. */
  function Left(more: bool, line: string, tail: seq<string>): seq<string> {
    if more then [line] + tail else []
  }

  /** `full` is the scan of which `body` has been read and `left` is still to come. */
  ghost predicate Scanning(full: Scan, body: seq<string>, left: seq<string>, depth: nat) {
    depth >= 1 &&
    var ahead := ScanBlock(left, depth);
    && full.Threw? == ahead.Threw?
    && (ahead.Scanned? ==> full == ahead.(body := body + ahead.body))
  }

  lemma ScanStart(left: seq<string>)
    ensures Scanning(ScanBlock(left, 1), [], left, 1)
  {
    var scan := ScanBlock(left, 1);
    if scan.Scanned? { assert [] + scan.body == scan.body; }
  }

  lemma ScanStep(full: Scan, body: seq<string>, line: string, tail: seq<string>, depth: nat)
    requires Scanning(full, body, Left(true, line, tail), depth)
    ensures Throwing(line) ==> full.Threw?
    ensures !Throwing(line) && Depth(line, depth) == 0 ==> full == Scanned(body, line, tail)
    ensures !Throwing(line) && Depth(line, depth) > 0 ==> Scanning(full, body + [line], tail, Depth(line, depth))
  {
    assert Left(true, line, tail)[1..] == tail;
    if !Throwing(line) {
      if Depth(line, depth) == 0 {
        assert body + [] == body;
      } else {
        var inner := ScanBlock(tail, Depth(line, depth));
        if inner.Scanned? {
          assert body + ([line] + inner.body) == (body + [line]) + inner.body;
        }
      }
    }
  }

  lemma ScanEnd(full: Scan, body: seq<string>, line: string, tail: seq<string>, depth: nat)
    requires Scanning(full, body, Left(false, line, tail), depth)
    ensures full == Scanned(body, "", [])
  {
    assert body + [] == body;
  }

  ghost predicate Gathering(full: Outcome, done: seq<string>, left: seq<string>, header: string) {
    full == Gather(left, header).Behind(done)
  }

  lemma GatherStart(left: seq<string>, header: string)
    ensures Gathering(Gather(left, header), [], left, header)
  {
    var o := Gather(left, header);
    if o.Program? { assert [] + o.lines == o.lines; }
  }

  lemma GatherStep(full: Outcome, done: seq<string>, line: string, tail: seq<string>, header: string)
    requires Gathering(full, done, Left(true, line, tail), header)
    ensures line != header ==> Gathering(full, done, tail, header)
    ensures line == header ==>
      match ScanBlock(tail, 1)
      case Threw => full.Aborted?
      case Scanned(body, _, rest) => Gathering(full, done + body, rest, header)
  {
    assert Left(true, line, tail)[1..] == tail;
    var scan := ScanBlock(tail, 1);
    if line == header && scan.Scanned? {
      BehindTwice(Gather(scan.rest, header), done, scan.body);
    }
  }

  lemma GatherEnd(full: Outcome, done: seq<string>, line: string, tail: seq<string>, header: string)
    requires Gathering(full, done, Left(false, line, tail), header)
    ensures full == Program(done)
  {
    assert done + [] == done;
  }

  ghost predicate Rewriting(full: Outcome, done: seq<string>, left: seq<string>, seen: seq<string>) {
    full == Rewrite(left, seen).Behind(done)
  }

  lemma RewriteStart(file: seq<string>)
    ensures Rewriting(Rewrite(file, []), [], file, [])
  {
    var o := Rewrite(file, []);
    if o.Program? { assert [] + o.lines == o.lines; }
  }

  lemma RewriteStep(full: Outcome, done: seq<string>, line: string, tail: seq<string>, seen: seq<string>)
    requires Rewriting(full, done, Left(true, line, tail), seen)
    ensures IsIf(line) == Throws ==> full.Aborted?
    ensures IsIf(line) == No ==> Rewriting(full, done + [line], tail, seen)
    ensures IsIf(line) == Yes && line in seen ==>
      match ScanBlock(tail, 1)
      case Threw => full.Aborted?
      case Scanned(_, _, rest) => Rewriting(full, done, rest, seen)
    ensures IsIf(line) == Yes && line !in seen ==>
      match MergeAll(line, tail)
      case Failed => full.Aborted?
      case Merged(text, rest) => Rewriting(full, done + text, rest, seen + [line])
  {
    assert Left(true, line, tail)[1..] == tail;
    if IsIf(line) == No {
      BehindTwice(Rewrite(tail, seen), done, [line]);
    } else if IsIf(line) == Yes && line !in seen {
      var merge := MergeAll(line, tail);
      if merge.Merged? {
        BehindTwice(Rewrite(merge.rest, seen + [line]), done, merge.text);
      }
    }
  }

  lemma RewriteEnd(full: Outcome, done: seq<string>, line: string, tail: seq<string>, seen: seq<string>)
    requires Rewriting(full, done, Left(false, line, tail), seen)
    ensures full == Program(done)
  {
    assert done + [] == done;
  }

  lemma BehindTwice(o: Outcome, front: seq<string>, middle: seq<string>)
    ensures o.Behind(middle).Behind(front) == o.Behind(front + middle)
  {
    if o.Program? { assert front + (middle + o.lines) == (front + middle) + o.lines; }
  }

  class Optimizer {
    const file: seq<string>
    var next: nat
    var finalProgram: seq<string>
    var listOfIfs: seq<string>
    var currentLine: nat

    constructor (file: seq<string>)
      ensures this.file == file && next == currentLine == 0 && finalProgram == [] && listOfIfs == []
    {
      this.file := file;
      next, currentLine, finalProgram, listOfIfs := 0, 0, [], [];
    }

    method GetLine() returns (more: bool, line: string)
      requires next <= |file|
      modifies this`next
      ensures more == (old(next) < |file|) && (!more ==> line == "")
      ensures next == old(next) + (if more then 1 else 0)
      ensures Left(more, line, file[next..]) == file[old(next)..]
    {
      more := next < |file|;
      line := "";
      if more {
        line := file[next];
        next := next + 1;
      }
    }

    /** The inner loop that reads to the matching END_IF; `copy` and `count` say which variant. */
    method ReadBlock(copy: bool, count: bool) returns (threw: bool, line: string)
      requires next <= |file|
      modifies this`next, this`finalProgram, this`currentLine
      ensures old(next) <= next <= |file|
      ensures currentLine == old(currentLine) + (if count then next - old(next) else 0)
      ensures threw == ScanBlock(file[old(next)..], 1).Threw?
      ensures !threw ==>
        match ScanBlock(file[old(next)..], 1)
        case Scanned(body, end, rest) =>
          line == end && file[next..] == rest && finalProgram == old(finalProgram) + (if copy then body else [])
    {
      hide ScanBlock, Scanning, IsIf, IsEndIf, Left;
      ghost var full, body: seq<string> := ScanBlock(file[next..], 1), [];
      ScanStart(file[next..]);
      var countForBreak := 1;
      var more;
      more, line := GetLine();
      if count && more { currentLine := currentLine + 1; }
      while more
        invariant old(next) <= next <= |file| && (!more ==> next == |file| && line == "")
        invariant Scanning(full, body, Left(more, line, file[next..]), countForBreak) && countForBreak >= 1
        invariant finalProgram == old(finalProgram) + (if copy then body else [])
        invariant currentLine == old(currentLine) + (if count then next - old(next) else 0)
        decreases |file| - next, more
      {
        ScanStep(full, body, line, file[next..], countForBreak);
        var isIf := IsIfStatement(line);
        if isIf == Throws { return true, line; }
        if isIf == Yes {
          countForBreak := countForBreak + 1;
        } else {
          var isEndIf := IsEndIfStatement(line);
          if isEndIf == Throws { return true, line; }
          if isEndIf == Yes { countForBreak := countForBreak - 1; }
        }
        if countForBreak == 0 { return false, line; }
        if copy { finalProgram := finalProgram + [line]; }
        body := body + [line];
        more, line := GetLine();
        if count && more { currentLine := currentLine + 1; }
      }
      ScanEnd(full, body, line, file[next..], countForBreak);
      threw := false;
    }

    /** Append the body of every later statement whose header is `header`. */
    method Concatenate(header: string) returns (threw: bool)
      requires next <= |file|
      modifies this`next, this`finalProgram, this`currentLine
      ensures next <= |file| && currentLine == old(currentLine)
      ensures match Gather(file[old(next)..], header)
        case Aborted => threw
        case Program(lines) => !threw && finalProgram == old(finalProgram) + lines
    {
      hide *;
      ghost var full, done: seq<string> := Gather(file[next..], header), [];
      GatherStart(file[next..], header);
      var more, line := GetLine();
      while more
        invariant next <= |file|
        invariant Gathering(full, done, Left(more, line, file[next..]), header)
        invariant finalProgram == old(finalProgram) + done && currentLine == old(currentLine)
        decreases |file| - next, more
      {
        GatherStep(full, done, line, file[next..], header);
        if line == header {
          ghost var scan := ScanBlock(file[next..], 1);
          threw, line := ReadBlock(true, false);
          if threw { return; }
          done := done + scan.body;
        }
        more, line := GetLine();
      }
      GatherEnd(full, done, line, file[next..], header);
      threw := false;
    }

    /** Open the file again and read up to the line after the first block. */
    method Reopen(position: nat)
      requires position <= |file|
      modifies this`next
      ensures next == position
    {
      next := 0;
      for i := 0 to position
        invariant next == i
      {
        var _, _ := GetLine();
      }
    }

    /** A header met for the first time: write it, its body, the later bodies and its terminator. */
    method MergeBlock(ifStatement: string) returns (threw: bool)
      requires next == currentLine <= |file|
      modifies this`next, this`finalProgram, this`currentLine
      ensures next == currentLine <= |file| || threw
      ensures match MergeAll(ifStatement, file[old(next)..])
        case Failed => threw
        case Merged(text, rest) => !threw && file[next..] == rest && finalProgram == old(finalProgram) + text
    {
      hide ScanBlock, Gather;
      ghost var before := finalProgram;
      finalProgram := finalProgram + [ifStatement];
      var line;
      threw, line := ReadBlock(true, true);
      if threw { return; }
      var endIf := line;
      var currentPosition := currentLine;
      threw := Concatenate(ifStatement);
      if threw { return; }
      Reopen(currentPosition);
      finalProgram := finalProgram + [endIf];
      assert finalProgram == before + MergeAll(ifStatement, file[old(next)..]).text;
    }

    /** main: the whole scan */
    method Run() returns (outcome: Outcome)
      requires next == currentLine == 0 && finalProgram == [] && listOfIfs == []
      modifies this
      ensures outcome == Rewrite(file, [])
    {
      hide *;
      ghost var full := Rewrite(file, []);
      RewriteStart(file);
      assert file[0..] == file;
      var more, line := GetLine();
      if more { currentLine := currentLine + 1; }
      while more
        invariant next == currentLine <= |file|
        invariant Rewriting(full, finalProgram, Left(more, line, file[next..]), listOfIfs)
        decreases |file| - next, more
      {
        RewriteStep(full, finalProgram, line, file[next..], listOfIfs);
        var isIf := IsIfStatement(line);
        if isIf == Throws { return Aborted; }
        if isIf == Yes {
          var isDuplicate := line in listOfIfs;
          var threw;
          if !isDuplicate {
            listOfIfs := listOfIfs + [line];
            threw := MergeBlock(line);
          } else {
            ghost var before := finalProgram;
            threw, line := ReadBlock(false, true);
            assert before + [] == before;
          }
          if threw { return Aborted; }
        } else {
          finalProgram := finalProgram + [line];
        }
        more, line := GetLine();
        if more { currentLine := currentLine + 1; }
      }
      RewriteEnd(full, finalProgram, line, file[next..], listOfIfs);
      return Program(finalProgram);
    }
  }

  // ---------- when the optimizer aborts ----------

  /** An IF block holding a line of seven or more spaces stops the optimizer with an exception. */
  lemma {:induction false} BlankLineAborts(header: string, blank: string, rest: seq<string>, seen: seq<string>)
    requires IsIf(header) == Yes
    requires |blank| >= 7 && forall k :: 0 <= k < |blank| ==> blank[k] == ' '
    ensures Rewrite([header, blank] + rest, seen) == Aborted
  {
    TrimmedBlank(blank);
    assert "" <= "END_IF;";
    var lines := [header, blank] + rest;
    assert lines[1..] == [blank] + rest;
    assert ScanBlock([blank] + rest, 1) == Threw;
    assert MergeAll(header, [blank] + rest) == Failed;
  }

  lemma {:induction false} TrimmedBlank(blank: string)
    requires forall k :: 0 <= k < |blank| ==> blank[k] == ' '
    ensures Trimmed(blank) == ""
  {
    if blank != "" { TrimmedBlank(blank[1..]); }
  }

  /**
   No test reads past the end of its line: at depth 0, outside every IF, a line is given to the
   first test only; deeper it is given to both, and IF and END_IF lines move the depth.
   */
  predicate Testable(lines: seq<string>, depth: nat) {
    lines == [] ||
      if depth == 0 then IsIf(lines[0]) != Throws && Testable(lines[1..], if IsIf(lines[0]) == Yes then 1 else 0)
      else !Throwing(lines[0]) && Testable(lines[1..], Depth(lines[0], depth))
  }

  /** A block scanned inside testable text is read to its end. */
  lemma {:induction false} ScanTestable(lines: seq<string>, c: nat, k: nat)
    requires c >= 1 && Testable(lines, c + k)
    ensures ScanBlock(lines, c).Scanned? && Testable(ScanBlock(lines, c).rest, k)
  {
    if lines != [] && Depth(lines[0], c) > 0 { ScanTestable(lines[1..], Depth(lines[0], c), k); }
  }

  lemma {:induction false} ScanUntestable(lines: seq<string>, c: nat)
    requires c >= 1 && !Testable(lines, c)
    ensures ScanBlock(lines, c).Scanned? ==> !Testable(ScanBlock(lines, c).rest, 0)
  {
    if !Throwing(lines[0]) && Depth(lines[0], c) > 0 { ScanUntestable(lines[1..], Depth(lines[0], c)); }
  }

  /** The search for a header, which may start blocks at any depth, meets no other lines. */
  lemma {:induction false} GatherTestable(lines: seq<string>, depth: nat, header: string)
    requires Testable(lines, depth) && IsIf(header) == Yes
    ensures Gather(lines, header).Program?
    decreases |lines|
  {
    if lines == [] {
    } else if lines[0] == header {
      ScanTestable(lines[1..], 1, depth);
      GatherTestable(ScanBlock(lines[1..], 1).rest, depth, header);
    } else if depth == 0 {
      GatherTestable(lines[1..], if IsIf(lines[0]) == Yes then 1 else 0, header);
    } else {
      GatherTestable(lines[1..], Depth(lines[0], depth), header);
    }
  }

  /** On every program, nested well or not, the optimizer finishes exactly when it is testable. */
  lemma {:induction false} FinishesIff(lines: seq<string>, seen: seq<string>)
    ensures Rewrite(lines, seen).Program? <==> Testable(lines, 0)
    decreases |lines|
  {
    if lines == [] || IsIf(lines[0]) == Throws {
    } else if IsIf(lines[0]) == No {
      FinishesIff(lines[1..], seen);
    } else {
      var scan := ScanBlock(lines[1..], 1);
      if Testable(lines[1..], 1) {
        ScanTestable(lines[1..], 1, 0);
        GatherTestable(scan.rest, 0, lines[0]);
      } else {
        ScanUntestable(lines[1..], 1);
      }
      if scan.Scanned? {
        FinishesIff(scan.rest, seen);
        FinishesIff(scan.rest, seen + [lines[0]]);
      }
    }
  }

  predicate Readable(lines: seq<string>) {
    forall k :: 0 <= k < |lines| ==> !Throwing(lines[k])
  }

  lemma {:induction false} ReadableIsTestable(lines: seq<string>, depth: nat)
    requires Readable(lines)
    ensures Testable(lines, depth)
  {
    if lines != [] {
      ReadableIsTestable(lines[1..], if depth > 0 then Depth(lines[0], depth) else if IsIf(lines[0]) == Yes then 1 else 0);
    }
  }

  /** A program no line of which could throw is finished. */
  lemma ReadableIsRewritten(lines: seq<string>, seen: seq<string>)
    requires Readable(lines)
    ensures Rewrite(lines, seen).Program?
  {
    ReadableIsTestable(lines, 0);
    FinishesIff(lines, seen);
  }
}
