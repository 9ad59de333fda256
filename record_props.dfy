/** What the record loop promises, stated on its specification: what gets
    written, how many lines at most, what the `-i` and count options do, that
    the echo is empty exactly when nothing was written, that a written line is
    recognised as a duplicate on the next run, and that `-r` takes a run back. */
module RecordFacts {
  import opened Bytes
  import opened Outcomes
  import opened Dedup
  import opened Segments
  import opened Recorder

  // ---------------------------------------------------------------------------
  // The duplicate check over the looked-at entries

  /** The run aborts exactly when the duplicate check panics for one of the
      looked-at entries. */
  lemma {:induction false} DecideAbortsOnPanic(es: seq<Entry>, buf: bytes, offsets: seq<nat>)
    requires forall k :: 0 <= k < |offsets| ==> offsets[k] <= |buf|
    ensures Decide(es, buf, offsets).aborted <==>
              exists k :: 0 <= k < |es| && DupAny(buf, offsets, es[k].cmd).Panic?
  {
    if es != [] {
      var init, last := es[..|es| - 1], es[|es| - 1];
      DecideAbortsOnPanic(init, buf, offsets);
      assert es == init + [last];
      AbortStep(init, last, buf, offsets);
    }
  }

  lemma AbortStep(init: seq<Entry>, last: Entry, buf: bytes, offsets: seq<nat>)
    requires forall k :: 0 <= k < |offsets| ==> offsets[k] <= |buf|
    requires Decide(init, buf, offsets).aborted <==>
               exists k :: 0 <= k < |init| && DupAny(buf, offsets, init[k].cmd).Panic?
    ensures Decide(init + [last], buf, offsets).aborted <==>
              exists k :: 0 <= k < |init + [last]| && DupAny(buf, offsets, (init + [last])[k].cmd).Panic?
  {
    var es := init + [last];
    assert es[..|init|] == init;
    if Decide(init, buf, offsets).aborted {
      var k :| 0 <= k < |init| && DupAny(buf, offsets, init[k].cmd).Panic?;
      assert es[k] == init[k];
    } else if DupAny(buf, offsets, last.cmd).Panic? {
      assert es[|init|] == last;
    } else {
      DecideSnoc(init, last, buf, offsets);
      forall k | 0 <= k < |es| ensures !DupAny(buf, offsets, es[k].cmd).Panic? {
        if k < |init| {
          assert es[k] == init[k];
        }
      }
    }
  }

  /** Without a panic, an entry is written exactly when it is one of the
      looked-at entries and no line of the last segment matches it; and no
      more entries are written than were looked at. */
  lemma {:induction false} DecideWritesFresh(es: seq<Entry>, buf: bytes, offsets: seq<nat>)
    requires forall k :: 0 <= k < |offsets| ==> offsets[k] <= |buf|
    requires !Decide(es, buf, offsets).aborted
    ensures |Decide(es, buf, offsets).written| <= |es|
    ensures forall e :: e in Decide(es, buf, offsets).written <==>
              e in es && DupAny(buf, offsets, e.cmd) == Ok(false)
  {
    if es != [] {
      var init, last := es[..|es| - 1], es[|es| - 1];
      assert !Decide(init, buf, offsets).aborted;
      DecideWritesFresh(init, buf, offsets);
      assert es == init + [last];
      FreshStep(init, last, buf, offsets);
    }
  }

  lemma FreshStep(init: seq<Entry>, last: Entry, buf: bytes, offsets: seq<nat>)
    requires forall k :: 0 <= k < |offsets| ==> offsets[k] <= |buf|
    requires !Decide(init, buf, offsets).aborted && !Decide(init + [last], buf, offsets).aborted
    requires |Decide(init, buf, offsets).written| <= |init|
    requires forall e :: e in Decide(init, buf, offsets).written <==>
               e in init && DupAny(buf, offsets, e.cmd) == Ok(false)
    ensures |Decide(init + [last], buf, offsets).written| <= |init + [last]|
    ensures forall e :: e in Decide(init + [last], buf, offsets).written <==>
              e in init + [last] && DupAny(buf, offsets, e.cmd) == Ok(false)
  {
    DecideSnoc(init, last, buf, offsets);
    forall e ensures e in init + [last] <==> e in init || e == last {
    }
  }

  /** Also when the run aborts, what was written is among the looked-at
      entries and had no match. */
  lemma {:induction false} DecideWritesOnly(es: seq<Entry>, buf: bytes, offsets: seq<nat>)
    requires forall k :: 0 <= k < |offsets| ==> offsets[k] <= |buf|
    ensures |Decide(es, buf, offsets).written| <= |es|
    ensures forall e :: e in Decide(es, buf, offsets).written ==>
              e in es && DupAny(buf, offsets, e.cmd) == Ok(false)
  {
    if es != [] {
      var init, last := es[..|es| - 1], es[|es| - 1];
      assert es == init + [last];
      DecideWritesOnly(init, buf, offsets);
    }
  }
}

module RecordRuns {
  import opened Bytes
  import opened Outcomes
  import opened Dedup
  import opened Segments
  import opened Recorder
  import opened RecordFacts

  /** The entries the loop looks at. */
  ghost function Looked(input: bytes, cfg: Config): seq<Entry>
    requires cfg.cmdIndex >= 2
  {
    Take(Candidates(HistoryLines(input), cfg), Limit(cfg))
  }

  /** The candidates depend on the format, the filter and `-s` only, not on
      the count or `-i`. */
  lemma {:induction false} CandidatesIgnoreCounts(lines: seq<bytes>, cfg: Config, cfg': Config)
    requires cfg.cmdIndex >= 2
    requires cfg'.cmdIndex == cfg.cmdIndex && cfg'.skip == cfg.skip && cfg'.noSmart == cfg.noSmart
    ensures Candidates(lines, cfg) == Candidates(lines, cfg')
  {
    if lines != [] {
      CandidatesIgnoreCounts(lines[..|lines| - 1], cfg, cfg');
    }
  }

  /** A run writes at most `Limit(cfg)` entries, each a candidate for which no
      line of the last segment matched, under one header after `prefix`. */
  lemma RecordWritesFew(input: bytes, prefix: bytes, buf: bytes, offsets: seq<nat>, cfg: Config)
    requires cfg.cmdIndex >= 2
    requires forall k :: 0 <= k < |offsets| ==> offsets[k] <= |buf|
    ensures var d := Decide(Looked(input, cfg), buf, offsets);
            && |d.written| <= Limit(cfg)
            && (forall e :: e in d.written ==>
                  e in Candidates(HistoryLines(input), cfg) && DupAny(buf, offsets, e.cmd) == Ok(false))
            && RecordSpec(input, prefix, buf, offsets, cfg).appended == prefix + Emit(cfg.user, d.written)
  {
    var cs := Candidates(HistoryLines(input), cfg);
    DecideWritesOnly(Looked(input, cfg), buf, offsets);
    forall e | e in Looked(input, cfg) ensures e in cs {
      var k :| 0 <= k < |Looked(input, cfg)| && Looked(input, cfg)[k] == e;
      assert cs[k] == e;
    }
  }

  /** With `-i` 2 or more nothing is written, whatever the input. */
  lemma IndexPastFirstRecordsNothing(input: bytes, prefix: bytes, buf: bytes, offsets: seq<nat>, cfg: Config)
    requires cfg.cmdIndex >= 2 && cfg.validI >= 2
    requires forall k :: 0 <= k < |offsets| ==> offsets[k] <= |buf|
    ensures RecordSpec(input, prefix, buf, offsets, cfg) == Done(prefix, [])
  {
    assert Looked(input, cfg) == [];
  }

  /** `-i 1` records what a count of 1 records. */
  lemma IndexOneIsCountOne(input: bytes, prefix: bytes, buf: bytes, offsets: seq<nat>, cfg: Config)
    requires cfg.cmdIndex >= 2 && cfg.validI == 1
    requires forall k :: 0 <= k < |offsets| ==> offsets[k] <= |buf|
    ensures RecordSpec(input, prefix, buf, offsets, cfg) ==
            RecordSpec(input, prefix, buf, offsets, cfg.(validN := 1, validI := 0))
  {
    CandidatesIgnoreCounts(HistoryLines(input), cfg, cfg.(validN := 1, validI := 0));
  }

  /** A count of 0 records what a count of 1 records: the loop tests the
      count only after looking at an entry. */
  lemma ZeroCountActsAsOne(input: bytes, prefix: bytes, buf: bytes, offsets: seq<nat>, cfg: Config)
    requires cfg.cmdIndex >= 2 && cfg.validN == 0
    requires forall k :: 0 <= k < |offsets| ==> offsets[k] <= |buf|
    ensures RecordSpec(input, prefix, buf, offsets, cfg) ==
            RecordSpec(input, prefix, buf, offsets, cfg.(validN := 1))
  {
    CandidatesIgnoreCounts(HistoryLines(input), cfg, cfg.(validN := 1));
  }

  /** The echo is printed only when something was written: it is empty
      exactly when nothing was appended after `prefix`. */
  lemma EchoEmptyIffNothingWritten(input: bytes, prefix: bytes, buf: bytes, offsets: seq<nat>, cfg: Config)
    requires cfg.cmdIndex >= 2
    requires forall k :: 0 <= k < |offsets| ==> offsets[k] <= |buf|
    requires RecordSpec(input, prefix, buf, offsets, cfg).Done?
    ensures RecordSpec(input, prefix, buf, offsets, cfg).echo == [] <==>
            RecordSpec(input, prefix, buf, offsets, cfg).appended == prefix
  {
    var w := Decide(Looked(input, cfg), buf, offsets).written;
    if w != [] {
      assert |Emit(cfg.user, w)| > 0;
      assert |Echo(w)| > 0;
    }
  }

  /** A written line is found again: on the next run, `is_dup_cmd` from the
      start of that line says the same command is a duplicate, whatever
      follows the line, as long as the command has a written token and every
      written token is findable. */
  lemma WrittenLineIsDuplicate(e: Entry, rest: bytes)
    requires Visible(e.cmd) != []
    requires forall k :: 0 <= k < |e.cmd| && !IsTransparent(e.cmd[k]) ==> Findable(e.cmd[k])
    ensures IsDup(FormatLine(e) + rest, e.cmd) == Ok(true)
  {
    var s := FormatLine(e) + rest;
    var ct := CommandText(e.cmd);
    CommandTextEmpty(e.cmd);
    assert s == ct + ([SPACE, HASH, SPACE] + e.date + [SPACE] + e.time + [NEWLINE] + rest);
    assert s[|ct|] == SPACE && s[|ct| + 1] == HASH;
    assert TokenAt(s, ct, 0) by {
      forall m | 0 <= m < |ct| ensures s[m] == ct[m] {}
    }
    WalkOverText(s, e.cmd, 0);
  }

  // ---------------------------------------------------------------------------
  // `-r` after a run

  /** No segment header can start inside `s`. */
  predicate NoSentinel(s: bytes) {
    !HasPair(s, HASH, GT)
  }

  /** The written fields of an entry hold no `#>`. */
  predicate CleanEntry(e: Entry) {
    && (forall k :: 0 <= k < |e.cmd| ==> NoSentinel(e.cmd[k]))
    && NoSentinel(e.date) && NoSentinel(e.time)
  }

  lemma {:induction false} CommandTextClean(cmd: seq<bytes>)
    requires forall k :: 0 <= k < |cmd| ==> NoSentinel(cmd[k])
    ensures NoSentinel(CommandText(cmd))
    ensures CommandText(cmd) == [] || CommandText(cmd)[|CommandText(cmd)| - 1] == SPACE
  {
    if cmd != [] {
      assert forall k :: 0 <= k < |cmd[1..]| ==> cmd[1..][k] == cmd[k + 1];
      CommandTextClean(cmd[1..]);
      if !IsTransparent(cmd[0]) {
        var rest := CommandText(cmd[1..]);
        NoPairConcat(cmd[0], [SPACE], HASH, GT);
        NoPairConcat(cmd[0] + [SPACE], rest, HASH, GT);
        assert CommandText(cmd) == cmd[0] + [SPACE] + rest;
      }
    }
  }

  lemma FormatLineClean(e: Entry)
    requires CleanEntry(e)
    ensures NoSentinel(FormatLine(e))
    ensures FormatLine(e)[|FormatLine(e)| - 1] == NEWLINE
  {
    var ct := CommandText(e.cmd);
    CommandTextClean(e.cmd);
    var a := ct + [SPACE, HASH, SPACE];
    NoPairConcat(ct, [SPACE, HASH, SPACE], HASH, GT);
    var b := a + e.date;
    NoPairConcat(a, e.date, HASH, GT);
    var c := b + [SPACE];
    NoPairConcat(b, [SPACE], HASH, GT);
    var d := c + e.time;
    NoPairConcat(c, e.time, HASH, GT);
    NoPairConcat(d, [NEWLINE], HASH, GT);
    assert FormatLine(e) == d + [NEWLINE];
  }

  lemma {:induction false} BodyClean(es: seq<Entry>)
    requires forall k :: 0 <= k < |es| ==> CleanEntry(es[k])
    ensures NoSentinel(Body(es))
    ensures Body(es) == [] || Body(es)[|Body(es)| - 1] == NEWLINE
  {
    if es != [] {
      var init := es[..|es| - 1];
      assert forall k :: 0 <= k < |init| ==> init[k] == es[k];
      BodyClean(init);
      FormatLineClean(es[|es| - 1]);
      NoPairConcat(Body(init), FormatLine(es[|es| - 1]), HASH, GT);
    }
  }

  /** What a run appends starts with the header's `#>` and holds no other. */
  lemma EmitHeaderOnly(user: bytes, es: seq<Entry>)
    requires es != [] && NoSentinel(user)
    requires forall k :: 0 <= k < |es| ==> CleanEntry(es[k])
    ensures |Emit(user, es)| >= 2 && Emit(user, es)[0] == HASH && Emit(user, es)[1] == GT
    ensures NoSentinel(Emit(user, es)[1..])
  {
    var tail := [GT, SPACE] + user + [NEWLINE] + Body(es);
    EmitShape(user, es);
    TailClean(user, es);
    DropFirst(HASH, tail);
  }

  lemma EmitShape(user: bytes, es: seq<Entry>)
    requires es != []
    ensures Emit(user, es) == [HASH] + ([GT, SPACE] + user + [NEWLINE] + Body(es))
  {
  }

  lemma TailClean(user: bytes, es: seq<Entry>)
    requires NoSentinel(user)
    requires forall k :: 0 <= k < |es| ==> CleanEntry(es[k])
    ensures NoSentinel([GT, SPACE] + user + [NEWLINE] + Body(es))
  {
    BodyClean(es);
    HeaderTailClean(user, Body(es));
  }

  lemma HeaderTailClean(user: bytes, body: bytes)
    requires NoSentinel(user) && NoSentinel(body)
    ensures NoSentinel([GT, SPACE] + user + [NEWLINE] + body)
  {
    var a := [GT, SPACE] + user;
    NoPairConcat([GT, SPACE], user, HASH, GT);
    NoPairConcat(a, [NEWLINE], HASH, GT);
    NoPairConcat(a + [NEWLINE], body, HASH, GT);
  }

  lemma DropFirst(x: byte, t: bytes)
    ensures ([x] + t)[1..] == t
  {
  }

  /** `hh -r` after a run that wrote something cuts the log back to what it
      was before the run (the log is never empty by then: a new log holds the
      preamble) exactly when no `#>` follows the run's own header. By
      `EmitHeaderOnly` that is so when the user name and the written fields
      hold no `#>`. */
  lemma ResetUndoesRun(base: bytes, user: bytes, es: seq<Entry>)
    requires base != [] && es != []
    ensures Reset(base + Emit(user, es)) == Ok(base) <==> NoSentinel(Emit(user, es)[1..])
  {
    var e := Emit(user, es);
    var buf := base + e;
    EmitShape(user, es);
    assert e[0] == HASH && e[1] == GT;
    assert SentinelAt(buf, |base|) by {
      assert buf[|base|] == e[0] && buf[|base| + 1] == e[1];
    }
    if NoSentinel(e[1..]) {
      NoLaterSentinel(base, e);
      var r := Reset(buf).value;
      assert r != buf;
      LastSentinelUnique(buf, |r|, |base|);
      assert buf[..|base|] == base;
    } else {
      var i :| 0 <= i < |e[1..]| - 1 && e[1..][i] == HASH && e[1..][i + 1] == GT;
      assert SentinelAt(buf, |base| + 1 + i) by {
        assert buf[|base| + 1 + i] == e[1..][i] && buf[|base| + 1 + i + 1] == e[1..][i + 1];
      }
    }
  }

  lemma NoLaterSentinel(base: bytes, e: bytes)
    requires e != [] && NoSentinel(e[1..])
    ensures forall q :: q > |base| ==> !SentinelAt(base + e, q)
  {
    var buf := base + e;
    forall q | q > |base| ensures !SentinelAt(buf, q) {
      if q + 1 < |buf| {
        var i := q - |base| - 1;
        assert !PairAt(e[1..], i, HASH, GT);
        assert buf[q] == e[1..][i] && buf[q + 1] == e[1..][i + 1];
      }
    }
  }
}
