/** The record loop of `main` (src/main.rs:207-249): the history lines are
    taken most recent first, parsed, filtered and checked against the last
    segment of the log; the survivors are appended under one `#> user`
    header, and an echo of what was written is built beside them. The log
    file, standard input and the environment are given as values. */
module Recorder {
  import opened Bytes
  import opened Outcomes
  import opened IgnoreFilter
  import opened Dedup
  import opened Segments

  /** What `out_info` writes when the log file is created. */
  const PREAMBLE: bytes := [
    0x23, 0x21, 0x2F, 0x62, 0x69, 0x6E, 0x2F, 0x62, 0x61, 0x73, 0x68, 0x0A,
    0x23, 0x20, 0x54, 0x68, 0x69, 0x73, 0x20, 0x66, 0x69, 0x6C, 0x65, 0x20,
    0x69, 0x73, 0x20, 0x67, 0x65, 0x6E, 0x65, 0x72, 0x61, 0x74, 0x65, 0x64,
    0x20, 0x62, 0x79, 0x20, 0x68, 0x68, 0x2C, 0x20, 0x73, 0x65, 0x65, 0x20,
    0x77, 0x77, 0x77, 0x2E, 0x20, 0x66, 0x6F, 0x72, 0x20, 0x64, 0x65, 0x74,
    0x61, 0x69, 0x6C, 0x73, 0x2E, 0x0A]

  /** The settings of one run, read once from the command line and the
      environment: the user, the ignore set, the token index where commands
      start (`parse_hist_format() + 1`), the count, the `-i` index and `-s`. */
  datatype Config = Config(
    user: bytes,
    skip: set<bytes>,
    cmdIndex: nat,
    validN: nat,
    validI: nat,
    noSmart: bool)

  /** One parsed history line: the command and the date and time tokens. */
  datatype Entry = Entry(cmd: seq<bytes>, date: bytes, time: bytes)

  /** What the run leaves behind: the bytes appended to the log and the echo,
      or, when `is_dup_cmd` panics, the bytes the buffered writer had taken
      so far, which it flushes while the panic unwinds. */
  datatype Recorded = Done(appended: bytes, echo: bytes) | Aborted(appended: bytes)

  /** The segment header, `writeln!(w, "#> {}", user)`. */
  function Header(user: bytes): (h: bytes)
    ensures |h| >= 2 && h[0] == HASH && h[1] == GT
  {
    [HASH, GT, SPACE] + user + [NEWLINE]
  }

  /** A written line: the command text, then `" # {date} {time}\n"`. */
  function FormatLine(e: Entry): bytes {
    CommandText(e.cmd) + [SPACE, HASH, SPACE] + e.date + [SPACE] + e.time + [NEWLINE]
  }

  /** The echo of a written line: the command text and a line feed. */
  function EchoLine(e: Entry): bytes {
    CommandText(e.cmd) + [NEWLINE]
  }

  function Body(es: seq<Entry>): bytes {
    if es == [] then [] else Body(es[..|es| - 1]) + FormatLine(es[|es| - 1])
  }

  function Echo(es: seq<Entry>): bytes {
    if es == [] then [] else Echo(es[..|es| - 1]) + EchoLine(es[|es| - 1])
  }

  /** What is appended for the written entries: nothing, or one header and
      their lines. */
  function Emit(user: bytes, es: seq<Entry>): bytes {
    if es == [] then [] else Header(user) + Body(es)
  }

  /** `input.split('\n').rev().skip(1)`: the lines, most recent first, without
      the piece after the last line feed. */
  function HistoryLines(input: bytes): (lines: seq<bytes>)
    ensures forall k :: 0 <= k < |lines| ==> NEWLINE !in lines[k]
  {
    var ps := SplitOn(input, NEWLINE);
    seq(|ps| - 1, k requires 0 <= k < |ps| - 1 => ps[|ps| - 2 - k])
  }

  function Reversed(ls: seq<bytes>): (r: seq<bytes>)
    ensures |r| == |ls|
  {
    seq(|ls|, k requires 0 <= k < |ls| => ls[|ls| - 1 - k])
  }

  /** Nothing of the input is lost but its order: the lines put back in input
      order, followed by the piece after the last line feed and joined with
      line feeds, give back the input. */
  lemma HistoryLinesJoin(input: bytes)
    ensures var ps := SplitOn(input, NEWLINE);
            JoinWith(Reversed(HistoryLines(input)) + [ps[|ps| - 1]], NEWLINE) == input
  {
    var ps := SplitOn(input, NEWLINE);
    var lines := HistoryLines(input);
    assert Reversed(lines) + [ps[|ps| - 1]] == ps by {
      forall k | 0 <= k < |ps| ensures (Reversed(lines) + [ps[|ps| - 1]])[k] == ps[k] {
        if k < |ps| - 1 {
          assert Reversed(lines)[k] == lines[|lines| - 1 - k];
        }
      }
    }
    JoinSplitOn(input, NEWLINE);
  }

  /** A line with more than `cmdIndex` tokens gives an entry: the tokens from
      `cmdIndex` on, and tokens 1 and 2 as date and time. Shorter lines are
      skipped. */
  function ParseLine(line: bytes, cmdIndex: nat): (r: Option<Entry>)
    requires cmdIndex >= 2
    ensures r.Some? ==> |r.value.cmd| > 0
  {
    var toks := SplitAsciiWhitespace(line);
    if |toks| <= cmdIndex then None else Some(Entry(toks[cmdIndex..], toks[1], toks[2]))
  }

  /** The entry passes the filter (or the filter is off). */
  predicate Passes(e: Entry, cfg: Config) {
    |e.cmd| > 0 && (cfg.noSmart || !Ignore(e.cmd, cfg.skip))
  }

  /** The entries that count toward the limit, in the order they are met. */
  function Candidates(lines: seq<bytes>, cfg: Config): (r: seq<Entry>)
    requires cfg.cmdIndex >= 2
    ensures |r| <= |lines|
    ensures forall k :: 0 <= k < |r| ==>
              Passes(r[k], cfg) &&
              exists j :: 0 <= j < |lines| && ParseLine(lines[j], cfg.cmdIndex) == Some(r[k])
  {
    if lines == [] then []
    else
      var prev := Candidates(lines[..|lines| - 1], cfg);
      match ParseLine(lines[|lines| - 1], cfg.cmdIndex)
      case Some(e) => if Passes(e, cfg) then prev + [e] else prev
      case None => prev
  }

  /** How many candidates the loop looks at. With `-i 1` only the first; with
      `-i 2` or more none, because the counter never leaves 0; otherwise
      `validN`, where 0 acts as 1 since the count test follows the increment. */
  function Limit(cfg: Config): (k: nat)
    ensures k == 0 <==> cfg.validI >= 2
    ensures k <= if cfg.validN == 0 then 1 else cfg.validN
  {
    if cfg.validI >= 2 then 0
    else if cfg.validI == 1 || cfg.validN == 0 then 1
    else cfg.validN
  }

  function Take(es: seq<Entry>, k: nat): (r: seq<Entry>)
    ensures |r| == if |es| <= k then |es| else k
    ensures r == es[..|r|]
  {
    if |es| <= k then es else es[..k]
  }

  /** The duplicate check over the looked-at candidates, in order: duplicates
      are dropped (and still counted), and a panic stops everything. */
  datatype Decision = Decision(written: seq<Entry>, aborted: bool)

  function Decide(es: seq<Entry>, buf: bytes, offsets: seq<nat>): Decision
    requires forall k :: 0 <= k < |offsets| ==> offsets[k] <= |buf|
  {
    if es == [] then Decision([], false)
    else
      var d := Decide(es[..|es| - 1], buf, offsets);
      if d.aborted then d
      else
        match DupAny(buf, offsets, es[|es| - 1].cmd)
        case Panic(_) => Decision(d.written, true)
        case Ok(true) => d
        case Ok(false) => Decision(d.written + [es[|es| - 1]], false)
  }

  /** What the record loop does, stated on the whole input at once. */
  function RecordSpec(input: bytes, prefix: bytes, buf: bytes, offsets: seq<nat>, cfg: Config): Recorded
    requires cfg.cmdIndex >= 2
    requires forall k :: 0 <= k < |offsets| ==> offsets[k] <= |buf|
  {
    RecordOn(HistoryLines(input), prefix, buf, offsets, cfg)
  }

  /** What the record loop does over the lines of the input. */
  function RecordOn(lines: seq<bytes>, prefix: bytes, buf: bytes, offsets: seq<nat>, cfg: Config): Recorded
    requires cfg.cmdIndex >= 2
    requires forall k :: 0 <= k < |offsets| ==> offsets[k] <= |buf|
  {
    var d := Decide(Take(Candidates(lines, cfg), Limit(cfg)), buf, offsets);
    if d.aborted then Aborted(prefix + Emit(cfg.user, d.written))
    else Done(prefix + Emit(cfg.user, d.written), Echo(d.written))
  }

  // ---------------------------------------------------------------------------
  // The loop

  /** The `for opt in cmds` loop: each token but `&` and `nohup`, followed by
      a space. */
  method WriteTokens(cmd: seq<bytes>) returns (text: bytes)
    ensures text == CommandText(cmd)
  {
    text := [];
    for k := 0 to |cmd|
      invariant text == CommandText(cmd[..k])
    {
      CommandTextSnoc(cmd[..k + 1]);
      assert cmd[..k + 1][..k] == cmd[..k];
      if !IsTransparent(cmd[k]) {
        text := text + cmd[k] + [SPACE];
      }
    }
    assert cmd[..|cmd|] == cmd;
  }

  lemma {:induction false} CommandTextSnoc(cmd: seq<bytes>)
    requires cmd != []
    ensures CommandText(cmd) ==
              CommandText(cmd[..|cmd| - 1]) +
              (if IsTransparent(cmd[|cmd| - 1]) then [] else cmd[|cmd| - 1] + [SPACE])
  {
    if |cmd| > 1 {
      CommandTextSnoc(cmd[1..]);
      assert cmd[1..][..|cmd[1..]| - 1] == cmd[..|cmd| - 1][1..];
    }
  }

  /** What holds after the loop has gone through `lines[..j]` without
      panicking: `seen` are the candidates so far, `n` of them were looked
      at, `written` of those were written, and `out` and `log` hold what was
      written for them. */
  ghost predicate Progress(lines: seq<bytes>, cfg: Config, buf: bytes, offsets: seq<nat>, prefix: bytes,
                           j: nat, seen: seq<Entry>, n: nat, written: seq<Entry>,
                           out: bytes, log: bytes, outSep: bool)
    requires cfg.cmdIndex >= 2
    requires forall k :: 0 <= k < |offsets| ==> offsets[k] <= |buf|
  {
    && j <= |lines|
    && seen == Candidates(lines[..j], cfg)
    && n == |Take(seen, Limit(cfg))|
    && Decide(Take(seen, Limit(cfg)), buf, offsets) == Decision(written, false)
    && out == prefix + Emit(cfg.user, written)
    && log == Echo(written)
    && outSep == (written != [])
  }

  /** The loop at src/main.rs:207-249, with `is_dup_cmd` against the given
      line starts of the last segment of `buf`; `prefix` is what the buffered
      writer already holds. */
  method RecordCommands(input: bytes, prefix: bytes, buf: bytes, offsets: seq<nat>, cfg: Config)
    returns (r: Recorded)
    requires cfg.cmdIndex >= 2
    requires forall k :: 0 <= k < |offsets| ==> offsets[k] <= |buf|
    ensures r == RecordSpec(input, prefix, buf, offsets, cfg)
  {
    r := RecordLines(HistoryLines(input), prefix, buf, offsets, cfg);
  }

  /** The loop itself, over the lines `input.split('\n').rev().skip(1)`
      yields. */
  method RecordLines(lines: seq<bytes>, prefix: bytes, buf: bytes, offsets: seq<nat>, cfg: Config)
    returns (r: Recorded)
    requires cfg.cmdIndex >= 2
    requires forall k :: 0 <= k < |offsets| ==> offsets[k] <= |buf|
    ensures r == RecordOn(lines, prefix, buf, offsets, cfg)
  {
    var out := prefix;
    var n: nat := 0;
    var outSep := false;
    var log := [];
    ghost var seen: seq<Entry> := [];
    ghost var written: seq<Entry> := [];
    var j := 0;
    assert lines[..0] == [];
    while j < |lines|
      invariant Progress(lines, cfg, buf, offsets, prefix, j, seen, n, written, out, log, outSep)
      invariant cfg.validI == 0 ==> n < Limit(cfg)
    {
      var stop;
      stop, n, out, log, outSep, seen, written :=
        VisitLine(lines, cfg, buf, offsets, prefix, j, seen, n, written, out, log, outSep);
      if stop.Some? {
        return stop.value;
      }
      j := j + 1;
    }
    TakeSettles(lines, j, cfg);
    DoneSpec(lines, prefix, buf, offsets, cfg, written);
    return Done(out, log);
  }

  /** One pass of the loop body over line `j`: it ends the run (a panic, or
      the count reached) with the result the whole run has, or it leaves the
      loop state right for the next line. */
  method VisitLine(lines: seq<bytes>, cfg: Config, buf: bytes, offsets: seq<nat>, prefix: bytes,
                   j: nat, ghost seen: seq<Entry>, n: nat, ghost written: seq<Entry>,
                   out: bytes, log: bytes, outSep: bool)
    returns (stop: Option<Recorded>, n': nat, out': bytes, log': bytes, outSep': bool,
             ghost seen': seq<Entry>, ghost written': seq<Entry>)
    requires cfg.cmdIndex >= 2 && j < |lines|
    requires forall k :: 0 <= k < |offsets| ==> offsets[k] <= |buf|
    requires Progress(lines, cfg, buf, offsets, prefix, j, seen, n, written, out, log, outSep)
    requires cfg.validI == 0 ==> n < Limit(cfg)
    ensures stop.Some? ==> stop.value == RecordOn(lines, prefix, buf, offsets, cfg)
    ensures stop.None? ==>
              && Progress(lines, cfg, buf, offsets, prefix, j + 1, seen', n', written', out', log', outSep')
              && (cfg.validI == 0 ==> n' < Limit(cfg))
  {
    var picked: Option<Entry> := None;
    if !(cfg.validI > 0 && n != cfg.validI - 1) {
      picked := PickEntry(lines[j], cfg);
    }
    if picked == None {
      seen' := SkipStep(lines, cfg, buf, offsets, prefix, j, seen, n, written, out, log, outSep);
      return None, n, out, log, outSep, seen', written;
    }
    var dup;
    dup, out', log', outSep', seen', written' :=
      ConsiderStep(lines, cfg, buf, offsets, prefix, j, seen, n, written, out, log, outSep, picked.value);
    n' := n + 1;
    if dup.Panic? {
      AbortedSpec(lines, prefix, buf, offsets, cfg, j + 1, written');
      return Some(Aborted(out')), n', out', log', outSep', seen', written';
    }
    if n' >= cfg.validN {
      CountStop(lines, cfg, buf, offsets, prefix, j + 1, seen', n', written', out', log', outSep');
      return Some(Done(out', log')), n', out', log', outSep', seen', written';
    }
    stop := None;
  }

  /** Once `-n` commands were looked at, the rest of the input changes
      nothing: the run is done with what it holds. */
  lemma CountStop(lines: seq<bytes>, cfg: Config, buf: bytes, offsets: seq<nat>, prefix: bytes,
                  j: nat, seen: seq<Entry>, n: nat, written: seq<Entry>,
                  out: bytes, log: bytes, outSep: bool)
    requires cfg.cmdIndex >= 2
    requires forall k :: 0 <= k < |offsets| ==> offsets[k] <= |buf|
    requires Progress(lines, cfg, buf, offsets, prefix, j, seen, n, written, out, log, outSep)
    requires 1 <= n && cfg.validN <= n
    ensures RecordOn(lines, prefix, buf, offsets, cfg) == Done(out, log)
  {
    TakeSettles(lines, j, cfg);
    DoneSpec(lines, prefix, buf, offsets, cfg, written);
  }

  /** The part of the loop body that reads one line: split it, skip it when it
      has no command after the format fields, bind date, time and command, and
      skip it when smart mode ignores the command. */
  method PickEntry(line: bytes, cfg: Config) returns (picked: Option<Entry>)
    requires cfg.cmdIndex >= 2
    ensures picked.Some? <==> ParseLine(line, cfg.cmdIndex).Some? && Passes(ParseLine(line, cfg.cmdIndex).value, cfg)
    ensures picked.Some? ==> picked == ParseLine(line, cfg.cmdIndex)
  {
    var cmds := SplitAsciiWhitespace(line);
    if |cmds| <= cfg.cmdIndex {
      return None;
    }
    var date, time := cmds[1], cmds[2];
    var cmd := cmds[cfg.cmdIndex..];
    if cfg.noSmart || !Ignore(cmd, cfg.skip) {
      return Some(Entry(cmd, date, time));
    }
    return None;
  }

  /** A line the loop passes over (`-i` points elsewhere, too few tokens, or
      ignored) leaves everything but the candidates as it was. */
  lemma SkipStep(lines: seq<bytes>, cfg: Config, buf: bytes, offsets: seq<nat>, prefix: bytes,
                 j: nat, seen: seq<Entry>, n: nat, written: seq<Entry>,
                 out: bytes, log: bytes, outSep: bool)
    returns (seen': seq<Entry>)
    requires cfg.cmdIndex >= 2 && j < |lines|
    requires forall k :: 0 <= k < |offsets| ==> offsets[k] <= |buf|
    requires Progress(lines, cfg, buf, offsets, prefix, j, seen, n, written, out, log, outSep)
    requires || (cfg.validI > 0 && n != cfg.validI - 1)
             || ParseLine(lines[j], cfg.cmdIndex).None?
             || !Passes(ParseLine(lines[j], cfg.cmdIndex).value, cfg)
    ensures Progress(lines, cfg, buf, offsets, prefix, j + 1, seen', n, written, out, log, outSep)
  {
    seen' := CandidatesStep(lines, j, cfg, seen);
    if cfg.validI > 0 && n != cfg.validI - 1 {
      TakeFull(seen, seen', Limit(cfg));
    }
  }

  /** A line that parses and passes the filter, met while fewer than the
      limit were looked at, is looked at: the duplicate check, and the write. */
  method ConsiderStep(lines: seq<bytes>, cfg: Config, buf: bytes, offsets: seq<nat>, prefix: bytes,
                      j: nat, ghost seen: seq<Entry>, n: nat, ghost written: seq<Entry>,
                      out: bytes, log: bytes, outSep: bool, e: Entry)
    returns (dup: Outcome<bool>, out': bytes, log': bytes, outSep': bool,
             ghost seen': seq<Entry>, ghost written': seq<Entry>)
    requires cfg.cmdIndex >= 2 && j < |lines|
    requires forall k :: 0 <= k < |offsets| ==> offsets[k] <= |buf|
    requires Progress(lines, cfg, buf, offsets, prefix, j, seen, n, written, out, log, outSep)
    requires cfg.validI == 0 ==> n < Limit(cfg)
    requires !(cfg.validI > 0 && n != cfg.validI - 1)
    requires ParseLine(lines[j], cfg.cmdIndex) == Some(e) && Passes(e, cfg)
    ensures dup.Panic? ==>
              && Decide(Take(Candidates(lines[..j + 1], cfg), Limit(cfg)), buf, offsets) == Decision(written', true)
              && out' == prefix + Emit(cfg.user, written')
    ensures !dup.Panic? ==>
              Progress(lines, cfg, buf, offsets, prefix, j + 1, seen', n + 1, written', out', log', outSep')
  {
    assert n < Limit(cfg);
    seen' := ConsideredStep(lines, j, cfg, seen, n, e);
    dup, out', log', outSep', written' :=
      WriteIfNew(buf, offsets, cfg.user, prefix, seen, written, e, out, log, outSep);
  }

  /** One looked-at entry: the duplicate check, and when it finds nothing the
      header (first time only), the command line and its echo. `looked` are
      the entries looked at before it and `written` those of them written. */
  method WriteIfNew(buf: bytes, offsets: seq<nat>, user: bytes, prefix: bytes,
                    ghost looked: seq<Entry>, ghost written: seq<Entry>,
                    e: Entry, out: bytes, log: bytes, outSep: bool)
    returns (dup: Outcome<bool>, out': bytes, log': bytes, outSep': bool, ghost written': seq<Entry>)
    requires forall k :: 0 <= k < |offsets| ==> offsets[k] <= |buf|
    requires Decide(looked, buf, offsets) == Decision(written, false)
    requires out == prefix + Emit(user, written) && log == Echo(written) && outSep == (written != [])
    ensures Decide(looked + [e], buf, offsets) == Decision(written', dup.Panic?)
    ensures out' == prefix + Emit(user, written') && log' == Echo(written') && outSep' == (written' != [])
  {
    DecideSnoc(looked, e, buf, offsets);
    dup := IsDuplicate(buf, offsets, e.cmd);
    if dup == Ok(false) {
      out', log', outSep' := AppendEntry(user, e, out, log, outSep);
      written' := written + [e];
      EmitStep(user, prefix, written, e, out, outSep);
    } else {
      out', log', outSep', written' := out, log, outSep, written;
    }
  }

  /** Writes one entry: the header the first time, then its line and echo. */
  method AppendEntry(user: bytes, e: Entry, out: bytes, log: bytes, outSep: bool)
    returns (out': bytes, log': bytes, outSep': bool)
    ensures out' == out + (if outSep then [] else Header(user)) + FormatLine(e)
    ensures log' == log + EchoLine(e) && outSep'
  {
    out' := out;
    if !outSep {
      out' := out' + Header(user);
    }
    outSep' := true;
    var text := WriteTokens(e.cmd);
    var line := text + [SPACE, HASH, SPACE] + e.date + [SPACE] + e.time + [NEWLINE];
    assert line == FormatLine(e);
    out' := out' + line;
    log' := log + (text + [NEWLINE]);
  }

  lemma {:induction false} EmitStep(user: bytes, prefix: bytes, written: seq<Entry>, e: Entry, out: bytes, outSep: bool)
    requires out == prefix + Emit(user, written) && outSep == (written != [])
    ensures out + (if outSep then [] else Header(user)) + FormatLine(e) == prefix + Emit(user, written + [e])
  {
    EmitSnoc(user, written, e);
    Assoc(prefix, Emit(user, written), if outSep then [] else Header(user), FormatLine(e));
  }

  lemma Assoc(a: bytes, b: bytes, c: bytes, d: bytes)
    ensures a + b + c + d == a + (b + c + d)
  {
  }

  /** A line that parses and passes the filter, met while fewer than the
      limit were looked at, is looked at next. */
  lemma ConsideredStep(lines: seq<bytes>, j: nat, cfg: Config, seen: seq<Entry>, n: nat, e: Entry)
    returns (seen': seq<Entry>)
    requires cfg.cmdIndex >= 2 && j < |lines|
    requires seen == Candidates(lines[..j], cfg)
    requires n == |Take(seen, Limit(cfg))| && n < Limit(cfg)
    requires ParseLine(lines[j], cfg.cmdIndex) == Some(e) && Passes(e, cfg)
    ensures seen' == Candidates(lines[..j + 1], cfg)
    ensures Take(seen, Limit(cfg)) == seen
    ensures Take(seen', Limit(cfg)) == seen + [e] && |seen'| == n + 1
  {
    seen' := CandidatesStep(lines, j, cfg, seen);
  }

  lemma DoneSpec(lines: seq<bytes>, prefix: bytes, buf: bytes, offsets: seq<nat>, cfg: Config, written: seq<Entry>)
    requires cfg.cmdIndex >= 2
    requires forall k :: 0 <= k < |offsets| ==> offsets[k] <= |buf|
    requires Decide(Take(Candidates(lines, cfg), Limit(cfg)), buf, offsets) == Decision(written, false)
    ensures RecordOn(lines, prefix, buf, offsets, cfg) ==
              Done(prefix + Emit(cfg.user, written), Echo(written))
  {
  }

  /** A panic while looking at the first `j` lines is the end of the run. */
  lemma AbortedSpec(lines: seq<bytes>, prefix: bytes, buf: bytes, offsets: seq<nat>, cfg: Config, j: nat, written: seq<Entry>)
    requires cfg.cmdIndex >= 2 && j <= |lines|
    requires forall k :: 0 <= k < |offsets| ==> offsets[k] <= |buf|
    requires Decide(Take(Candidates(lines[..j], cfg), Limit(cfg)), buf, offsets) == Decision(written, true)
    ensures RecordOn(lines, prefix, buf, offsets, cfg) ==
              Aborted(prefix + Emit(cfg.user, written))
  {
    CandidatesPrefix(lines, j, cfg);
    var a := Take(Candidates(lines[..j], cfg), Limit(cfg));
    var c := Take(Candidates(lines, cfg), Limit(cfg));
    assert c[..|a|] == a;
    DecideKeepsAbort(a, c, buf, offsets);
  }

  /** Once the duplicate check has panicked, more candidates change nothing. */
  lemma {:induction false} DecideKeepsAbort(a: seq<Entry>, c: seq<Entry>, buf: bytes, offsets: seq<nat>)
    requires forall k :: 0 <= k < |offsets| ==> offsets[k] <= |buf|
    requires |a| <= |c| && c[..|a|] == a
    requires Decide(a, buf, offsets).aborted
    ensures Decide(c, buf, offsets) == Decide(a, buf, offsets)
    decreases |c|
  {
    if |c| > |a| {
      var c' := c[..|c| - 1];
      assert c'[..|a|] == a;
      DecideKeepsAbort(a, c', buf, offsets);
    } else {
      assert c == a;
    }
  }

  lemma TakeFull(seen: seq<Entry>, seen': seq<Entry>, lim: nat)
    requires |seen| >= lim
    requires seen' == seen || (|seen'| == |seen| + 1 && seen'[..|seen|] == seen)
    ensures Take(seen', lim) == Take(seen, lim)
  {
    assert seen'[..|seen|][..lim] == seen'[..lim];
  }

  /** The candidates after one more line: one more exactly when the line
      parses and passes the filter. */
  lemma CandidatesStep(lines: seq<bytes>, j: nat, cfg: Config, seen: seq<Entry>) returns (seen': seq<Entry>)
    requires cfg.cmdIndex >= 2 && j < |lines|
    requires seen == Candidates(lines[..j], cfg)
    ensures seen' == Candidates(lines[..j + 1], cfg)
    ensures match ParseLine(lines[j], cfg.cmdIndex)
            case Some(e) => seen' == if Passes(e, cfg) then seen + [e] else seen
            case None => seen' == seen
  {
    assert lines[..j + 1][..j] == lines[..j];
    seen' := Candidates(lines[..j + 1], cfg);
  }

  lemma DecideSnoc(es: seq<Entry>, e: Entry, buf: bytes, offsets: seq<nat>)
    requires forall k :: 0 <= k < |offsets| ==> offsets[k] <= |buf|
    requires !Decide(es, buf, offsets).aborted
    ensures Decide(es + [e], buf, offsets) ==
              match DupAny(buf, offsets, e.cmd)
              case Panic(_) => Decision(Decide(es, buf, offsets).written, true)
              case Ok(true) => Decide(es, buf, offsets)
              case Ok(false) => Decision(Decide(es, buf, offsets).written + [e], false)
  {
    assert (es + [e])[..|es|] == es;
  }

  lemma EmitSnoc(user: bytes, es: seq<Entry>, e: Entry)
    ensures Emit(user, es + [e]) ==
              Emit(user, es) + (if es == [] then Header(user) else []) + FormatLine(e)
    ensures Echo(es + [e]) == Echo(es) + EchoLine(e)
  {
    assert (es + [e])[..|es + [e]| - 1] == es;
    if es == [] {
      assert Body([e]) == FormatLine(e);
      assert Echo([e]) == EchoLine(e);
    }
  }

  /** The candidates of a prefix of the lines are a prefix of the candidates. */
  lemma {:induction false} CandidatesPrefix(lines: seq<bytes>, j: nat, cfg: Config)
    requires cfg.cmdIndex >= 2 && j <= |lines|
    ensures |Candidates(lines[..j], cfg)| <= |Candidates(lines, cfg)|
    ensures Candidates(lines, cfg)[..|Candidates(lines[..j], cfg)|] == Candidates(lines[..j], cfg)
    decreases |lines| - j
  {
    if j == |lines| {
      assert lines[..j] == lines;
    } else {
      CandidatesPrefix(lines, j + 1, cfg);
      assert lines[..j + 1][..j] == lines[..j];
      var a, b := Candidates(lines[..j], cfg), Candidates(lines[..j + 1], cfg);
      assert b == a || b[..|b| - 1] == a;
      var c := Candidates(lines, cfg);
      assert c[..|a|] == c[..|b|][..|a|];
    }
  }

  /** Once `lim` candidates are met, or all lines are seen, later lines
      change nothing. */
  lemma TakeSettles(lines: seq<bytes>, j: nat, cfg: Config)
    requires cfg.cmdIndex >= 2 && j <= |lines|
    requires j == |lines| || |Candidates(lines[..j], cfg)| >= Limit(cfg)
    ensures Take(Candidates(lines, cfg), Limit(cfg)) == Take(Candidates(lines[..j], cfg), Limit(cfg))
  {
    if j == |lines| {
      assert lines[..j] == lines;
    } else {
      CandidatesPrefix(lines, j, cfg);
    }
  }
}
