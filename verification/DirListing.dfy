// The directory listing that the namespace helper prints (apollo/main_nsexec.go)
// and FilePull reads back (apollo/container_mercury.go).
module DirListing {
  import opened Wrappers
  import opened Decimal
  import opened Text

  // ------------------------------------------------------------------- lines

  predicate OneLine(s: string) { '\n' !in s }

  predicate NulFree(s: string) { '\0' !in s }

  function Lines(ls: seq<string>): string {
    if ls == [] then "" else Lines(ls[..|ls| - 1]) + ls[|ls| - 1] + "\n"
  }

  // strings.TrimRight(s, "\n")
  function TrimRight(s: string): string {
    if s != "" && s[|s| - 1] == '\n' then TrimRight(s[..|s| - 1]) else s
  }

  lemma {:induction false} LinesAreJoined(front: seq<string>, last: string)
    ensures Lines(front) + last == Join(front + [last], '\n')
  {
    var ls := front + [last];
    assert ls[..|ls| - 1] == front;
    if front != [] {
      var n := |front| - 1;
      LinesAreJoined(front[..n], front[n]);
      assert front[..n] + [front[n]] == front;
      assert Lines(front) == Join(front, '\n') + "\n";
    } else {
      assert Lines(front) + last == last;
    }
  }

  lemma TrimOne(s: string)
    requires s != "" && s[|s| - 1] != '\n'
    ensures TrimRight(s + "\n") == s
  {
  }

  lemma LinesOneMore(ls: seq<string>, l: string)
    ensures Lines(ls + [l]) == Lines(ls) + l + "\n"
  {
  }

  // With the last line not empty, the trailing newlines are just its own.
  lemma TrimLines(front: seq<string>, last: string)
    requires OneLine(last) && last != ""
    ensures TrimRight(Lines(front + [last])) == Lines(front) + last
  {
    var s := Lines(front) + last;
    LinesOneMore(front, last);
    assert s[|s| - 1] == last[|last| - 1] && last[|last| - 1] in last;
    TrimOne(s);
  }

  lemma TrimSplit(front: seq<string>, last: string)
    requires forall i :: 0 <= i < |front| ==> OneLine(front[i])
    requires OneLine(last) && last != ""
    ensures Split(TrimRight(Lines(front + [last])), '\n') == front + [last]
  {
    var ls := front + [last];
    TrimLines(front, last);
    LinesAreJoined(front, last);
    forall i | 0 <= i < |ls| ensures '\n' !in ls[i] {
      assert OneLine(if i < |front| then front[i] else last);
    }
    SplitJoin(ls, '\n');
  }

  // ---------------------------------------------------------------- swapping

  function Swap(s: string, from: char, to: char): (r: string)
    ensures |r| == |s|
    ensures forall i :: 0 <= i < |s| ==> r[i] == if s[i] == from then to else s[i]
  {
    seq(|s|, i requires 0 <= i < |s| => if s[i] == from then to else s[i])
  }

  lemma SwapRoundTrip(name: string)
    ensures OneLine(Swap(name, '\n', '\0'))
    ensures Swap(Swap(name, '\n', '\0'), '\0', '\n') == name <==> NulFree(name)
  {
  }

  // ---------------------------------------------------------------- printing

  datatype Stat = Stat(uid: nat, gid: nat, mode: nat)

  predicate Printable(st: Stat) { st.uid < 0x1_0000_0000 && st.gid < 0x1_0000_0000 && st.mode < 512 }

  function Header(st: Stat, ftype: string): seq<string> {
    ["uid: " + Itoa(st.uid), "gid: " + Itoa(st.gid), "mode: " + Itoa(st.mode), "type: " + ftype]
  }

  function EntryLine(name: string): string { "entry: " + Swap(name, '\n', '\0') }

  predicate IsDots(name: string) { name == "." || name == ".." }

  // The names listed: all but "." and "..", in the order of readdir.
  function Listed(names: seq<string>): seq<string> {
    if names == [] then []
    else
      var front, last := Listed(names[..|names| - 1]), names[|names| - 1];
      if IsDots(last) then front else front + [last]
  }

  function EntryLines(names: seq<string>): (ls: seq<string>)
    ensures |ls| == |names|
    ensures forall i :: 0 <= i < |names| ==> ls[i] == EntryLine(names[i])
  {
    seq(|names|, i requires 0 <= i < |names| => EntryLine(names[i]))
  }

  // One entry, written character by character.
  method PrintEntry(before: string, dName: string) returns (out: string)
    ensures out == before + EntryLine(dName) + "\n"
  {
    out := before + "entry: ";
    for i := 0 to |dName|
      invariant out == before + "entry: " + Swap(dName, '\n', '\0')[..i]
    {
      if dName[i] == '\n' {
        out := out + ['\0'];
      } else {
        out := out + [dName[i]];
      }
    }
    assert Swap(dName, '\n', '\0')[..|dName|] == Swap(dName, '\n', '\0');
    assert out == before + EntryLine(dName);
    out := out + "\n";
  }

  method PrintHeader(st: Stat, ftype: string) returns (out: string)
    ensures out == Lines(Header(st, ftype))
  {
    out := "";
    var header := Header(st, ftype);
    for n := 0 to |header|
      invariant out == Lines(header[..n])
    {
      LinesOneMore(header[..n], header[n]);
      assert header[..n] + [header[n]] == header[..n + 1];
      out := out + header[n] + "\n";
    }
    assert header[..|header|] == header;
  }

  // Just the two dots are not listed.
  lemma {:induction false} ListedExactly(names: seq<string>, name: string)
    ensures name in Listed(names) <==> name in names && name != "." && name != ".."
  {
    if names != [] {
      var front, last := names[..|names| - 1], names[|names| - 1];
      ListedExactly(front, name);
      assert names == front + [last];
    }
  }

  lemma ListedOneMore(names: seq<string>, n: nat)
    requires n < |names|
    ensures Listed(names[..n + 1]) == if IsDots(names[n]) then Listed(names[..n]) else Listed(names[..n]) + [names[n]]
  {
    assert names[..n + 1][..n] == names[..n];
  }

  lemma EntryLinesOneMore(header: seq<string>, names: seq<string>, name: string)
    ensures Lines(header + EntryLines(names + [name])) == Lines(header + EntryLines(names)) + EntryLine(name) + "\n"
  {
    LinesOneMore(header + EntryLines(names), EntryLine(name));
    assert header + EntryLines(names + [name]) == header + EntryLines(names) + [EntryLine(name)];
  }

  // The helper's output for a directory.
  method PrintDirectory(st: Stat, names: seq<string>) returns (out: string)
    ensures out == Lines(Header(st, "directory") + EntryLines(Listed(names)))
  {
    ghost var header := Header(st, "directory");
    out := PrintHeader(st, "directory");
    assert header + EntryLines(Listed(names[..0])) == header;
    for n := 0 to |names|
      invariant out == Lines(header + EntryLines(Listed(names[..n])))
    {
      var dName := names[n];
      ListedOneMore(names, n);
      if dName == "." || dName == ".." {
        continue;
      }
      EntryLinesOneMore(header, Listed(names[..n]), dName);
      out := PrintEntry(out, dName);
    }
    assert names[..|names|] == names;
  }

  // ----------------------------------------------------------------- parsing

  // The variables of FilePull's loop, or how it returned. `failed` says that err
  // is set: at first by the command, but every number that is read assigns to it.
  datatype Pull =
    | Pull(uid: int, gid: int, mode: int, ftype: string, entries: seq<string>, error: string, failed: bool)
    | NotExist
    | Failure(message: string)
    | BadNumber
    | CommandFailed

  function Begin(failed: bool): Pull { Pull(-1, -1, -1, "unknown", [], "", failed) }

  function Turn(p: Pull, line: string): Pull {
    if !p.Pull? || line == "" then p
    else if "error: " <= line then p.(error := line[7..])
    else if "errno: " <= line then (if line[7..] == "2" then NotExist else Failure(p.error))
    else if "uid: " <= line then
      (match ParseInt(line[5..]) case Some(n) => p.(uid := n, failed := false) case None => BadNumber)
    else if "gid: " <= line then
      (match ParseInt(line[5..]) case Some(n) => p.(gid := n, failed := false) case None => BadNumber)
    else if "mode: " <= line then
      (match ParseInt(line[6..]) case Some(n) => p.(mode := n, failed := false) case None => BadNumber)
    else if "type: " <= line then p.(ftype := line[6..])
    else if "entry: " <= line then p.(entries := p.entries + [Swap(line[7..], '\0', '\n')])
    else p
  }

  function Turns(p: Pull, lines: seq<string>): Pull {
    if lines == [] then p else Turn(Turns(p, lines[..|lines| - 1]), lines[|lines| - 1])
  }

  lemma {:induction false} StopsForGood(p: Pull, a: seq<string>, b: seq<string>)
    requires !Turns(p, a).Pull?
    ensures Turns(p, a + b) == Turns(p, a)
  {
    var lines := a + b;
    if b == [] {
      assert lines == a;
    } else {
      StopsForGood(p, a, b[..|b| - 1]);
      assert lines[..|lines| - 1] == a + b[..|b| - 1];
    }
  }

  // err is tested after the loop.
  function Outcome(p: Pull): Pull { if p.Pull? && p.failed then CommandFailed else p }

  function Listing(out: string, failed: bool): Pull {
    Outcome(Turns(Begin(failed), Split(TrimRight(out), '\n')))
  }

  lemma TurnsOneMore(p: Pull, lines: seq<string>, n: nat)
    requires n < |lines|
    ensures Turns(p, lines[..n + 1]) == Turn(Turns(p, lines[..n]), lines[n])
    ensures !Turns(p, lines[..n + 1]).Pull? ==> Turns(p, lines) == Turns(p, lines[..n + 1])
  {
    assert lines[..n + 1][..n] == lines[..n];
    if !Turns(p, lines[..n + 1]).Pull? {
      StopsForGood(p, lines[..n + 1], lines[n + 1..]);
      assert lines[..n + 1] + lines[n + 1..] == lines;
    }
  }

  // The loop over the lines of the output of a command that failed or not.
  method ParseListing(out: string, commandFailed: bool) returns (r: Pull)
    ensures r == Listing(out, commandFailed)
  {
    var lines := Split(TrimRight(out), '\n');
    var uid, gid, mode, ftype, entries, error, err := -1, -1, -1, "unknown", [], "", commandFailed;
    for n := 0 to |lines|
      invariant Pull(uid, gid, mode, ftype, entries, error, err) == Turns(Begin(commandFailed), lines[..n])
    {
      var line := lines[n];
      TurnsOneMore(Begin(commandFailed), lines, n);
      if line == "" {
        continue;
      }
      if "error: " <= line {
        error := line[7..];
        continue;
      }
      if "errno: " <= line {
        return if line[7..] == "2" then NotExist else Failure(error);
      }
      if "uid: " <= line {
        var number := ParseInt(line[5..]);
        if number.None? {
          return BadNumber;
        }
        uid, err := number.value, false;
        continue;
      }
      if "gid: " <= line {
        var number := ParseInt(line[5..]);
        if number.None? {
          return BadNumber;
        }
        gid, err := number.value, false;
        continue;
      }
      if "mode: " <= line {
        var number := ParseInt(line[6..]);
        if number.None? {
          return BadNumber;
        }
        mode, err := number.value, false;
        continue;
      }
      if "type: " <= line {
        ftype := line[6..];
        continue;
      }
      if "entry: " <= line {
        entries := entries + [Swap(line[7..], '\0', '\n')];
      }
    }
    assert lines[..|lines|] == lines;
    return if err then CommandFailed else Pull(uid, gid, mode, ftype, entries, error, err);
  }

  // ----------------------------------------------------------- what errors become

  lemma TurnsTwoMore(p: Pull, lines: seq<string>, a: string, b: string)
    ensures Turns(p, lines + [a, b]) == Turn(Turn(Turns(p, lines), a), b)
  {
    var all := lines + [a, b];
    assert all[..|all| - 1] == lines + [a] && all[|all| - 1] == b;
    assert (lines + [a])[..|lines|] == lines && (lines + [a])[|lines|] == a;
    assert Turns(p, lines + [a]) == Turn(Turns(p, lines), a);
  }

  // The helper's error message and number, after whatever else could be read: number
  // 2 is a file that does not exist, any other fails with the message.
  lemma ErrorIsRead(p: Pull, lines: seq<string>, message: string, number: string, more: seq<string>)
    requires Turns(p, lines).Pull?
    ensures Turns(p, lines + ["error: " + message, "errno: " + number] + more) ==
              if number == "2" then NotExist else Failure(message)
  {
    var a, b := "error: " + message, "errno: " + number;
    TurnsTwoMore(p, lines, a, b);
    assert a[7..] == message && b[7..] == number;
    assert b[3] == 'n' && a[3] == 'o';
    StopsForGood(p, lines + [a, b], more);
  }

  lemma EndsAt(p: Pull, lines: seq<string>, line: string, more: seq<string>)
    requires !Turn(Turns(p, lines), line).Pull?
    ensures Turns(p, lines + [line] + more) == Turn(Turns(p, lines), line)
  {
    assert (lines + [line])[..|lines|] == lines && (lines + [line])[|lines|] == line;
    assert Turns(p, lines + [line]) == Turn(Turns(p, lines), line);
    StopsForGood(p, lines + [line], more);
  }

  // A number that cannot be read ends it with that error.
  lemma BadNumberIsRead(p: Pull, lines: seq<string>, number: string, more: seq<string>)
    requires Turns(p, lines).Pull?
    requires ParseInt(number).None?
    ensures Turns(p, lines + ["uid: " + number] + more) == BadNumber
    ensures Turns(p, lines + ["gid: " + number] + more) == BadNumber
    ensures Turns(p, lines + ["mode: " + number] + more) == BadNumber
  {
    var q := Turns(p, lines);
    assert ("uid: " + number)[5..] == number && ("uid: " + number)[0] == 'u';
    EndsAt(p, lines, "uid: " + number, more);
    assert ("gid: " + number)[5..] == number && ("gid: " + number)[0] == 'g';
    EndsAt(p, lines, "gid: " + number, more);
    assert ("mode: " + number)[6..] == number && ("mode: " + number)[0] == 'm';
    EndsAt(p, lines, "mode: " + number, more);
  }

  // Without any output there is only what the command itself said.
  lemma NothingIsRead(failed: bool)
    ensures Listing("", failed) == if failed then CommandFailed else Pull(-1, -1, -1, "unknown", [], "", false)
  {
    assert Split("", '\n') == [""];
    assert Turns(Begin(failed), [""]) == Turn(Turns(Begin(failed), []), "");
  }

  // ------------------------------------------------------------ a failing helper

  // The number on a line, if it is one of those lines.
  function Number(line: string): Option<string> {
    if "uid: " <= line then Some(line[5..])
    else if "gid: " <= line then Some(line[5..])
    else if "mode: " <= line then Some(line[6..])
    else None
  }

  predicate ReadsNumber(line: string) { Number(line).Some? && ParseInt(Number(line).value).Some? }

  // FilePull returns at such a line.
  predicate Stops(line: string) { "errno: " <= line || (Number(line).Some? && !ReadsNumber(line)) }

  lemma TurnStopsExactly(p: Pull, line: string)
    requires p.Pull?
    ensures Turn(p, line).Pull? <==> !Stops(line)
    ensures Turn(p, line).Pull? ==> (Turn(p, line).failed <==> p.failed && !ReadsNumber(line))
  {
    if line != "" && ("error: " <= line || "errno: " <= line) {
      assert line[0] == 'e';
    }
    if "error: " <= line {
      assert line[3] == 'o';
    }
  }

  predicate NoneStops(lines: seq<string>) {
    lines == [] || (NoneStops(lines[..|lines| - 1]) && !Stops(lines[|lines| - 1]))
  }

  predicate SomeNumber(lines: seq<string>) {
    lines != [] && (SomeNumber(lines[..|lines| - 1]) || ReadsNumber(lines[|lines| - 1]))
  }

  lemma {:induction false} TurnsStopExactly(p: Pull, lines: seq<string>)
    requires p.Pull?
    ensures Turns(p, lines).Pull? <==> NoneStops(lines)
    ensures Turns(p, lines).Pull? ==> (Turns(p, lines).failed <==> p.failed && !SomeNumber(lines))
  {
    if lines != [] {
      var n := |lines| - 1;
      TurnsStopExactly(p, lines[..n]);
      if Turns(p, lines[..n]).Pull? { TurnStopsExactly(Turns(p, lines[..n]), lines[n]); }
    }
  }

  // A helper that failed is taken for one that succeeded, exactly when it printed
  // one of the numbers, and no error number and no number that cannot be read.
  lemma FailurePassesExactly(out: string)
    ensures Listing(out, true).Pull? <==>
              NoneStops(Split(TrimRight(out), '\n')) && SomeNumber(Split(TrimRight(out), '\n'))
  {
    TurnsStopExactly(Begin(true), Split(TrimRight(out), '\n'));
  }

  // -------------------------------------------------------------- round trip

  function SwappedBack(names: seq<string>): (r: seq<string>)
    ensures |r| == |names|
    ensures forall i :: 0 <= i < |names| ==> r[i] == Swap(Swap(names[i], '\n', '\0'), '\0', '\n')
  {
    seq(|names|, i requires 0 <= i < |names| => Swap(Swap(names[i], '\n', '\0'), '\0', '\n'))
  }

  lemma UidTurn(p: Pull, n: nat)
    requires p.Pull? && n <= MAX_INT
    ensures Turn(p, "uid: " + Itoa(n)) == p.(uid := n, failed := false)
  {
    ParseReadsPrint(n);
    assert ("uid: " + Itoa(n))[0] == 'u';
  }

  lemma GidTurn(p: Pull, n: nat)
    requires p.Pull? && n <= MAX_INT
    ensures Turn(p, "gid: " + Itoa(n)) == p.(gid := n, failed := false)
  {
    ParseReadsPrint(n);
    assert ("gid: " + Itoa(n))[0] == 'g';
  }

  lemma ModeTurn(p: Pull, n: nat)
    requires p.Pull? && n <= MAX_INT
    ensures Turn(p, "mode: " + Itoa(n)) == p.(mode := n, failed := false)
  {
    ParseReadsPrint(n);
    assert ("mode: " + Itoa(n))[0] == 'm';
  }

  lemma TypeTurn(p: Pull, ftype: string)
    requires p.Pull?
    ensures Turn(p, "type: " + ftype) == p.(ftype := ftype)
  {
    assert ("type: " + ftype)[0] == 't';
  }

  lemma EntryTurn(p: Pull, name: string)
    requires p.Pull?
    ensures Turn(p, EntryLine(name)) == p.(entries := p.entries + [Swap(Swap(name, '\n', '\0'), '\0', '\n')])
  {
    assert EntryLine(name)[0] == 'e' && EntryLine(name)[1] == 'n';
  }

  lemma TurnAfter(p: Pull, lines: seq<string>, line: string)
    ensures Turns(p, lines + [line]) == Turn(Turns(p, lines), line)
  {
  }

  lemma HeaderTurns(failed: bool, st: Stat, ftype: string)
    requires Printable(st)
    ensures Turns(Begin(failed), Header(st, ftype)) == Pull(st.uid, st.gid, st.mode, ftype, [], "", false)
  {
    var h, p := Header(st, ftype), Begin(failed);
    TurnAfter(p, [], h[0]);
    TurnAfter(p, [h[0]], h[1]);
    TurnAfter(p, [h[0], h[1]], h[2]);
    TurnAfter(p, [h[0], h[1], h[2]], h[3]);
    assert [] + [h[0]] == [h[0]] && [h[0]] + [h[1]] == [h[0], h[1]];
    assert [h[0], h[1]] + [h[2]] == [h[0], h[1], h[2]] && [h[0], h[1], h[2]] + [h[3]] == h;
    UidTurn(p, st.uid);
    GidTurn(p.(uid := st.uid, failed := false), st.gid);
    ModeTurn(p.(uid := st.uid, gid := st.gid, failed := false), st.mode);
    TypeTurn(p.(uid := st.uid, gid := st.gid, mode := st.mode, failed := false), ftype);
  }

  lemma SwappedBackOneMore(names: seq<string>, name: string)
    ensures SwappedBack(names + [name]) == SwappedBack(names) + [Swap(Swap(name, '\n', '\0'), '\0', '\n')]
  {
  }

  lemma {:induction false} EntriesTurn(begin: Pull, header: seq<string>, p: Pull, names: seq<string>)
    requires p.Pull? && p.entries == [] && Turns(begin, header) == p
    ensures Turns(begin, header + EntryLines(names)) == p.(entries := SwappedBack(names))
  {
    if names == [] {
      assert header + EntryLines(names) == header;
    } else {
      var front, last := names[..|names| - 1], names[|names| - 1];
      assert names == front + [last];
      EntriesTurn(begin, header, p, front);
      TurnAfter(begin, header + EntryLines(front), EntryLine(last));
      EntryTurn(p.(entries := SwappedBack(front)), last);
      SwappedBackOneMore(front, last);
      assert header + EntryLines(front) + [EntryLine(last)] == header + EntryLines(names);
    }
  }

  lemma DigitsAreOneLine(n: int)
    ensures OneLine(Itoa(n))
  {
    DigitsRoundTrip(if n < 0 then -n else n);
    var ds := Digits(if n < 0 then -n else n);
    assert forall i :: 0 <= i < |ds| ==> IsDigit(ds[i]);
  }

  lemma ListingLines(st: Stat, names: seq<string>)
    ensures var ls := Header(st, "directory") + EntryLines(names);
            ls[|ls| - 1] != "" && forall i :: 0 <= i < |ls| ==> OneLine(ls[i])
  {
    var h := Header(st, "directory");
    var ls := h + EntryLines(names);
    DigitsAreOneLine(st.uid);
    DigitsAreOneLine(st.gid);
    DigitsAreOneLine(st.mode);
    forall i | 0 <= i < |ls| ensures OneLine(ls[i]) && ls[i] != "" {
      if i < 4 {
        assert ls[i] == h[i];
      } else {
        assert ls[i] == EntryLine(names[i - 4]);
        SwapRoundTrip(names[i - 4]);
      }
    }
  }

  // Entries printed under a header are read, whether the helper failed or not.
  lemma PrintedIsRead(failed: bool, st: Stat, names: seq<string>)
    requires Printable(st)
    ensures Listing(Lines(Header(st, "directory") + EntryLines(names)), failed)
            == Pull(st.uid, st.gid, st.mode, "directory", SwappedBack(names), "", false)
  {
    ListingLines(st, names);
    var ls := Header(st, "directory") + EntryLines(names);
    assert ls[..|ls| - 1] + [ls[|ls| - 1]] == ls;
    TrimSplit(ls[..|ls| - 1], ls[|ls| - 1]);
    HeaderTurns(failed, st, "directory");
    EntriesTurn(Begin(failed), Header(st, "directory"), Turns(Begin(failed), Header(st, "directory")), names);
  }

  // What was printed for a directory is read back, with every name in its place,
  // exactly when no listed name has a NUL; newlines anywhere in a name do no harm.
  lemma ListingRoundTripExactly(st: Stat, names: seq<string>)
    requires Printable(st)
    ensures Listing(Lines(Header(st, "directory") + EntryLines(Listed(names))), false)
            == Pull(st.uid, st.gid, st.mode, "directory", SwappedBack(Listed(names)), "", false)
    ensures SwappedBack(Listed(names)) == Listed(names) <==> forall i :: 0 <= i < |Listed(names)| ==>
              NulFree(Listed(names)[i])
  {
    var listed := Listed(names);
    PrintedIsRead(false, st, listed);
    forall i | 0 <= i < |listed| ensures SwappedBack(listed)[i] == listed[i] <==> NulFree(listed[i]) {
      SwapRoundTrip(listed[i]);
    }
  }

  // A helper that dies after k of the entries passes for one that listed a
  // directory with only these.
  lemma PartialListingPasses(st: Stat, names: seq<string>, k: nat)
    requires Printable(st)
    requires k <= |Listed(names)|
    ensures Listing(Lines(Header(st, "directory") + EntryLines(Listed(names)[..k])), true)
            == Pull(st.uid, st.gid, st.mode, "directory", SwappedBack(Listed(names)[..k]), "", false)
  {
    PrintedIsRead(true, st, Listed(names)[..k]);
  }
}
