/** What the next run sees of a segment this run wrote: `read_last_cmd`
    finds exactly one line start per written entry, at the start of that
    entry's line, so `is_dup_cmd` meets every written command again and the
    next run does not write it a second time. The scan is first described
    over plain lines (`Lines`), then tied to the bytes `Emit` writes. */
module NextRun {
  import opened Bytes
  import opened Outcomes
  import opened Dedup
  import opened Segments
  import opened Recorder
  import opened RecordFacts
  import opened RecordRuns

  /** No field of the entry holds a line feed. Tokens of a history line never
      do, since `split_ascii_whitespace` splits at line feeds. */
  predicate LineFree(e: Entry) {
    (forall k :: 0 <= k < |e.cmd| ==> NEWLINE !in e.cmd[k]) && NEWLINE !in e.date && NEWLINE !in e.time
  }

  /** One line: a single line feed, at its end. */
  predicate OneLine(l: bytes) {
    |l| >= 1 && l[|l| - 1] == NEWLINE && NEWLINE !in l[..|l| - 1]
  }

  /** Lines laid end to end, the last one written last. */
  function Lines(ls: seq<bytes>): bytes {
    if ls == [] then [] else Lines(ls[..|ls| - 1]) + ls[|ls| - 1]
  }

  /** The lines a body is made of. */
  function FormatLines(es: seq<Entry>): seq<bytes> {
    seq(|es|, k requires 0 <= k < |es| => FormatLine(es[k]))
  }

  /** Where lines laid after offset `at` start, the last line first. */
  function LineOffsets(p: bytes, ls: seq<bytes>): seq<nat> {
    if ls == [] then [] else [|p + Lines(ls[..|ls| - 1])| as nat] + LineOffsets(p, ls[..|ls| - 1])
  }

  // ---------------------------------------------------------------------------
  // Lines

  lemma {:induction false} LineOffsetsAt(p: bytes, ls: seq<bytes>)
    ensures |LineOffsets(p, ls)| == |ls|
    ensures forall k :: 0 <= k < |ls| ==> LineOffsets(p, ls)[k] == |p| + |Lines(ls[..|ls| - 1 - k])|
  {
    if ls != [] {
      var init := ls[..|ls| - 1];
      LineOffsetsAt(p, init);
      forall k | 0 < k < |ls|
        ensures LineOffsets(p, ls)[k] == |p| + |Lines(ls[..|ls| - 1 - k])|
      {
        assert LineOffsets(p, ls)[k] == LineOffsets(p, init)[k - 1];
        assert init[..|init| - 1 - (k - 1)] == ls[..|ls| - 1 - k];
      }
    }
  }

  lemma {:induction false} LinesAppend(a: seq<bytes>, b: seq<bytes>)
    ensures Lines(a + b) == Lines(a) + Lines(b)
    decreases |b|
  {
    if b == [] {
      assert a + b == a;
    } else {
      var init := b[..|b| - 1];
      assert (a + b)[..|a + b| - 1] == a + init;
      LinesAppend(a, init);
    }
  }

  lemma SplitAt(ls: seq<bytes>, j: nat)
    requires j < |ls|
    ensures ls == ls[..j] + ([ls[j]] + ls[j + 1..])
  {
    assert ls[j..] == [ls[j]] + ls[j + 1..];
    assert ls == ls[..j] + ls[j..];
  }

  lemma LinesOne(l: bytes)
    ensures Lines([l]) == l
  {
    assert [l][..0] == [];
  }

  /** Line `j` sits between the lines before it and the lines after it. */
  lemma LinesSplit(ls: seq<bytes>, j: nat)
    requires j < |ls|
    ensures Lines(ls) == Lines(ls[..j]) + (ls[j] + Lines(ls[j + 1..]))
  {
    var a, x, r := ls[..j], ls[j], ls[j + 1..];
    SplitAt(ls, j);
    LinesAppend(a, [x] + r);
    LinesAppend([x], r);
    LinesOne(x);
  }

  lemma LinesEnd(p: bytes, ls: seq<bytes>)
    requires p != [] && p[|p| - 1] == NEWLINE
    requires forall k :: 0 <= k < |ls| ==> OneLine(ls[k])
    ensures var q := p + Lines(ls); |q| >= |p| && q[|q| - 1] == NEWLINE
  {
    if ls != [] {
      assert p + Lines(ls) == (p + Lines(ls[..|ls| - 1])) + ls[|ls| - 1];
    }
  }

  /** One more line after a line feed adds exactly its own start. */
  lemma LineStep(p: bytes, l: bytes, b: bytes, lo: nat)
    requires 1 <= lo <= |p| && p[|p| - 1] == NEWLINE
    requires OneLine(l) && b == p + l
    ensures StartsDown(b, |b| - 1, lo) == [|p| as nat] + StartsDown(p, |p| - 1, lo)
  {
    forall i | |p| <= i < |b| - 1 ensures b[i] != NEWLINE {
      assert b[i] == l[..|l| - 1][i - |p|];
    }
    StartsDownSkip(b, |b| - 1, |p|, lo);
    assert b[|p| - 1] == NEWLINE;
    assert b[..|p|] == p;
    StartsDownFrame(p, b, |p| - 1, lo);
  }

  /** The backward scan over lines laid after a line feed finds the start of
      each of them, and nothing else, once the scan finds nothing before. */
  lemma {:induction false} LinesStarts(p: bytes, ls: seq<bytes>, b: bytes, lo: nat)
    requires 1 <= lo <= |p| && p[|p| - 1] == NEWLINE
    requires StartsDown(p, |p| - 1, lo) == []
    requires forall k :: 0 <= k < |ls| ==> OneLine(ls[k])
    requires b == p + Lines(ls)
    ensures StartsDown(b, |b| - 1, lo) == LineOffsets(p, ls)
    decreases |ls|
  {
    if ls == [] {
      assert b == p;
    } else {
      var init, l := ls[..|ls| - 1], ls[|ls| - 1];
      var q := p + Lines(init);
      LinesStarts(p, init, q, lo);
      LinesStep(p, ls, init, l, q, b, lo);
    }
  }

  /** The inductive step of `LinesStarts`. */
  lemma LinesStep(p: bytes, ls: seq<bytes>, init: seq<bytes>, l: bytes, q: bytes, b: bytes, lo: nat)
    requires 1 <= lo <= |p| && p[|p| - 1] == NEWLINE
    requires forall k :: 0 <= k < |ls| ==> OneLine(ls[k])
    requires ls != [] && init == ls[..|ls| - 1] && l == ls[|ls| - 1]
    requires q == p + Lines(init) && b == p + Lines(ls)
    requires StartsDown(q, |q| - 1, lo) == LineOffsets(p, init)
    ensures StartsDown(b, |b| - 1, lo) == LineOffsets(p, ls)
  {
    LinesSnoc(p, ls, init, l, q, b);
    LinesEnd(p, init);
    LineStep(q, l, b, lo);
  }

  /** One step of `LinesStarts`: the last line comes after the others. */
  lemma LinesSnoc(p: bytes, ls: seq<bytes>, init: seq<bytes>, l: bytes, q: bytes, b: bytes)
    requires ls != [] && init == ls[..|ls| - 1] && l == ls[|ls| - 1]
    requires q == p + Lines(init) && b == p + Lines(ls)
    ensures b == q + l
    ensures LineOffsets(p, ls) == [|q| as nat] + LineOffsets(p, init)
  {
    Concat3(p, Lines(init), l, Lines(ls));
  }

  /** A segment appended after a non-empty log, starting with `#>` and holding
      no other, is where the next scan starts. */
  lemma ScanFromSegment(base: bytes, e: bytes, buf: bytes)
    requires base != [] && |e| >= 2 && e[0] == HASH && e[1] == GT && NoSentinel(e[1..])
    requires buf == base + e
    ensures LineStarts(buf) == StartsDown(buf, |buf| - 1, |base| + 2)
  {
    SegmentSentinel(base, e, buf);
    LineStartsFrom(buf, base);
  }

  /** The `#>` a segment starts with is the last one of the log. */
  lemma SegmentSentinel(base: bytes, e: bytes, buf: bytes)
    requires base != [] && |e| >= 2 && e[0] == HASH && e[1] == GT && NoSentinel(e[1..])
    requires buf == base + e
    ensures LastSentinel(buf) == |base| && |base| + 2 <= |buf|
  {
    NoLaterSentinel(base, e);
    assert SentinelAt(buf, |base|) by {
      assert buf[|base|] == e[0] && buf[|base| + 1] == e[1];
    }
    LastSentinelUnique(buf, LastSentinel(buf), |base|);
  }

  lemma LineStartsFrom(buf: bytes, base: bytes)
    requires buf != [] && LastSentinel(buf) == |base| && |base| + 2 <= |buf|
    ensures LineStarts(buf) == StartsDown(buf, |buf| - 1, |base| + 2)
  {
  }

  /** The scan from just past a header's `#` finds nothing inside the
      header. */
  lemma HeaderClear(base: bytes, h: bytes)
    requires base != [] && |h| >= 2 && OneLine(h[1..])
    ensures var p := base + h; p[|p| - 1] == NEWLINE && StartsDown(p, |p| - 1, |base| + 2) == []
  {
    var p := base + h;
    forall i | |base| + 1 <= i < |p| - 1 ensures p[i] != NEWLINE {
      assert p[i] == h[1..][..|h| - 2][i - |base| - 1];
    }
    assert p[|p| - 1] == h[1..][|h| - 2];
    StartsDownSkip(p, |p| - 1, |base| + 1, |base| + 2);
  }

  /** Past a one-line header, the scan finds the start of every line after
      it, the last one first. */
  lemma ScanLines(base: bytes, h: bytes, ls: seq<bytes>, e: bytes, buf: bytes)
    requires base != [] && |h| >= 2 && OneLine(h[1..])
    requires forall k :: 0 <= k < |ls| ==> OneLine(ls[k])
    requires e == h + Lines(ls) && buf == base + e
    ensures StartsDown(buf, |buf| - 1, |base| + 2) == LineOffsets(base + h, ls)
  {
    Concat3(base, h, Lines(ls), e);
    HeaderClear(base, h);
    LinesStarts(base + h, ls, buf, |base| + 2);
  }

  /** The next scan over a log that ends in a segment (a one-line header
      starting with `#>`, then lines, and no other `#>`) finds the start of
      every line after the header, the last one first. */
  lemma SegmentOfLines(base: bytes, h: bytes, ls: seq<bytes>, e: bytes, buf: bytes)
    requires base != [] && |h| >= 2 && OneLine(h[1..])
    requires forall k :: 0 <= k < |ls| ==> OneLine(ls[k])
    requires e == h + Lines(ls) && buf == base + e
    requires |e| >= 2 && e[0] == HASH && e[1] == GT && NoSentinel(e[1..])
    ensures LineStarts(buf) == LineOffsets(base + h, ls)
  {
    ScanLines(base, h, ls, e, buf);
    ScanFromSegment(base, e, buf);
  }

  lemma Concat3(x: bytes, y: bytes, z: bytes, yz: bytes)
    requires yz == y + z
    ensures x + yz == x + y + z
  {
  }

  lemma SuffixAt(x: bytes, h: bytes, a: bytes, l: bytes, r: bytes, buf: bytes, off: nat)
    requires buf == x + (h + (a + (l + r))) && off == |x| + |h| + |a|
    ensures off <= |buf| && buf[off..] == l + r
  {
    assert buf == (x + h + a) + (l + r);
  }

  // ---------------------------------------------------------------------------
  // The lines `Emit` writes

  lemma {:induction false} BodyLines(es: seq<Entry>)
    ensures Body(es) == Lines(FormatLines(es))
    decreases |es|
  {
    if es != [] {
      var init := es[..|es| - 1];
      BodyLines(init);
      assert FormatLines(es)[..|es| - 1] == FormatLines(init);
    }
  }

  lemma BodyLength(es: seq<Entry>, m: nat)
    requires m <= |es|
    ensures |Body(es[..m])| == |Lines(FormatLines(es)[..m])|
  {
    BodyLines(es[..m]);
    assert FormatLines(es[..m]) == FormatLines(es)[..m];
  }

  lemma {:induction false} CommandTextLineFree(cmd: seq<bytes>)
    requires forall k :: 0 <= k < |cmd| ==> NEWLINE !in cmd[k]
    ensures NEWLINE !in CommandText(cmd)
  {
    if cmd != [] {
      assert forall k :: 0 <= k < |cmd[1..]| ==> cmd[1..][k] == cmd[k + 1];
      CommandTextLineFree(cmd[1..]);
    }
  }

  /** A written line holds one line feed, at its end. */
  lemma FormatLineOneLine(e: Entry)
    requires LineFree(e)
    ensures OneLine(FormatLine(e))
  {
    CommandTextLineFree(e.cmd);
    var l := FormatLine(e);
    assert l[..|l| - 1] == CommandText(e.cmd) + [SPACE, HASH, SPACE] + e.date + [SPACE] + e.time;
  }

  /** A header line, past its `#`, is one line when the user name holds no
      line feed. */
  lemma HeaderOneLine(user: bytes)
    requires NEWLINE !in user
    ensures OneLine(Header(user)[1..])
  {
    var t := Header(user)[1..];
    assert t == [GT, SPACE] + user + [NEWLINE];
    assert t[..|t| - 1] == [GT, SPACE] + user;
  }

  /** `Emit` as a header line and the lines of the entries, each one line. */
  lemma EmitLines(user: bytes, es: seq<Entry>)
    requires es != [] && NEWLINE !in user
    requires forall k :: 0 <= k < |es| ==> LineFree(es[k])
    ensures Emit(user, es) == Header(user) + Lines(FormatLines(es))
    ensures OneLine(Header(user)[1..])
    ensures forall k :: 0 <= k < |es| ==> OneLine(FormatLines(es)[k])
  {
    BodyLines(es);
    HeaderOneLine(user);
    forall k | 0 <= k < |es| ensures OneLine(FormatLines(es)[k]) {
      FormatLineOneLine(es[k]);
    }
  }

  /** The next scan over the log a run appended `Emit(user, es)` to finds
      the line starts `LineOffsets` of the written lines. */
  lemma EmitScan(base: bytes, user: bytes, es: seq<Entry>)
    requires base != [] && es != []
    requires NoSentinel(user) && NEWLINE !in user
    requires forall k :: 0 <= k < |es| ==> CleanEntry(es[k]) && LineFree(es[k])
    ensures LineStarts(base + Emit(user, es)) == LineOffsets(base + Header(user), FormatLines(es))
  {
    var e := Emit(user, es);
    EmitHeaderOnly(user, es);
    EmitLines(user, es);
    SegmentOfLines(base, Header(user), FormatLines(es), e, base + e);
  }

  /** Round trip through the scanner: after a run appended `Emit(user, es)`
      to a non-empty log, `read_last_cmd` finds one offset per written entry,
      the `k`-th at the start of the line of `es[|es| - 1 - k]`. */
  lemma SegmentLineStarts(base: bytes, user: bytes, es: seq<Entry>)
    requires base != [] && es != []
    requires NoSentinel(user) && NEWLINE !in user
    requires forall k :: 0 <= k < |es| ==> CleanEntry(es[k]) && LineFree(es[k])
    ensures var offsets := LineStarts(base + Emit(user, es));
            && |offsets| == |es|
            && forall k :: 0 <= k < |es| ==>
                 offsets[k] == |base| + |Header(user)| + |Body(es[..|es| - 1 - k])|
  {
    var ls := FormatLines(es);
    EmitScan(base, user, es);
    LineOffsetsAt(base + Header(user), ls);
    forall m | 0 <= m < |es| ensures |Body(es[..m])| == |Lines(ls[..m])| {
      BodyLength(es, m);
    }
  }

  /** Entry `j`'s line, and the lines after it, follow the offset
      `SegmentLineStarts` names for it. */
  lemma LineOfEntry(base: bytes, user: bytes, es: seq<Entry>, j: nat, buf: bytes, off: nat)
    requires j < |es| && NEWLINE !in user
    requires forall k :: 0 <= k < |es| ==> LineFree(es[k])
    requires buf == base + Emit(user, es) && off == |base| + |Header(user)| + |Body(es[..j])|
    ensures off <= |buf| && buf[off..] == FormatLine(es[j]) + Lines(FormatLines(es)[j + 1..])
  {
    var ls := FormatLines(es);
    EmitLines(user, es);
    BodyLength(es, j);
    LinesSplit(ls, j);
    SuffixAt(base, Header(user), Lines(ls[..j]), ls[j], Lines(ls[j + 1..]), buf, off);
  }

  /** Entry `j`'s line starts right after a line feed, past the header. */
  lemma EntryAfterNewline(base: bytes, user: bytes, es: seq<Entry>, j: nat, buf: bytes, off: nat)
    requires base != [] && j < |es| && NEWLINE !in user
    requires forall k :: 0 <= k < |es| ==> LineFree(es[k])
    requires buf == base + Emit(user, es) && off == |base| + |Header(user)| + |Body(es[..j])|
    ensures |base| + 2 <= off < |buf| && buf[off - 1] == NEWLINE
  {
    EmitLines(user, es);
    BodyLength(es, j);
    AfterLines(base, Header(user), FormatLines(es), j, buf, off);
  }

  /** Past a one-line header, line `j` starts right after a line feed. */
  lemma AfterLines(base: bytes, h: bytes, ls: seq<bytes>, j: nat, buf: bytes, off: nat)
    requires base != [] && |h| >= 2 && OneLine(h[1..])
    requires forall k :: 0 <= k < |ls| ==> OneLine(ls[k])
    requires j < |ls| && buf == base + (h + Lines(ls)) && off == |base| + |h| + |Lines(ls[..j])|
    ensures |base| + |h| <= off < |buf| && buf[off - 1] == NEWLINE
  {
    LinesSplit(ls, j);
    EndsLine(base, h);
    PrefixLines(ls, j);
    LinesEnd(base + h, ls[..j]);
    PrefixEnd(base, h, Lines(ls[..j]), ls[j], Lines(ls[j + 1..]), buf, off);
  }

  lemma EndsLine(base: bytes, h: bytes)
    requires |h| >= 2 && OneLine(h[1..])
    ensures var p := base + h; p != [] && p[|p| - 1] == NEWLINE
  {
    assert (base + h)[|base + h| - 1] == h[1..][|h| - 2];
  }

  lemma PrefixLines(ls: seq<bytes>, j: nat)
    requires j <= |ls| && forall k :: 0 <= k < |ls| ==> OneLine(ls[k])
    ensures forall k :: 0 <= k < |ls[..j]| ==> OneLine(ls[..j][k])
  {
  }

  lemma PrefixEnd(x: bytes, h: bytes, a: bytes, l: bytes, r: bytes, buf: bytes, off: nat)
    requires buf == x + (h + (a + (l + r))) && off == |x| + |h| + |a|
    requires x + h + a != [] && l != []
    ensures 1 <= off < |buf| && buf[off - 1] == (x + h + a)[|x + h + a| - 1]
  {
    var q := x + h + a;
    assert buf == q + (l + r);
  }

  lemma EntryLineIsDup(buf: bytes, off: nat, e: Entry, rest: bytes)
    requires off <= |buf| && buf[off..] == FormatLine(e) + rest
    requires Visible(e.cmd) != []
    requires forall k :: 0 <= k < |e.cmd| && !IsTransparent(e.cmd[k]) ==> Findable(e.cmd[k])
    ensures IsDup(buf[off..], e.cmd) == Ok(true)
  {
    WrittenLineIsDuplicate(e, rest);
  }

  /** The `#>` that starts a written segment is the one the next run finds. */
  lemma EmitSentinel(base: bytes, user: bytes, es: seq<Entry>)
    requires base != [] && es != [] && NoSentinel(user)
    requires forall k :: 0 <= k < |es| ==> CleanEntry(es[k])
    ensures LastSentinel(base + Emit(user, es)) == |base|
  {
    var e := Emit(user, es);
    EmitHeaderOnly(user, es);
    SegmentSentinel(base, e, base + e);
  }

  lemma DupAt(buf: bytes, offsets: seq<nat>, off: nat, cmd: seq<bytes>)
    requires forall i :: 0 <= i < |offsets| ==> offsets[i] <= |buf|
    requires off in offsets && off <= |buf| && IsDup(buf[off..], cmd) == Ok(true)
    ensures DupAny(buf, offsets, cmd) != Ok(false)
  {
    var k :| 0 <= k < |offsets| && offsets[k] == off;
    assert IsDup(buf[offsets[k]..], cmd) == Ok(true);
  }

  /** On the next run every written command with a findable token is met
      again: the duplicate test over the segment's line starts is not a clean
      "no" but a match or a panic. Its own line is one of the lines scanned, but the
      scan runs from the last line up, so the match can come from a line
      written after it, and the panic from a line scanned before it. */
  lemma NextRunFindsWritten(base: bytes, user: bytes, es: seq<Entry>, j: nat)
    requires base != [] && j < |es|
    requires NoSentinel(user) && NEWLINE !in user
    requires forall k :: 0 <= k < |es| ==> CleanEntry(es[k]) && LineFree(es[k])
    requires Visible(es[j].cmd) != []
    requires forall k :: 0 <= k < |es[j].cmd| && !IsTransparent(es[j].cmd[k]) ==> Findable(es[j].cmd[k])
    ensures var buf := base + Emit(user, es);
            DupAny(buf, LineStarts(buf), es[j].cmd) != Ok(false)
  {
    var buf := base + Emit(user, es);
    var off := |base| + |Header(user)| + |Body(es[..j])|;
    var rest := Lines(FormatLines(es)[j + 1..]);
    LineOfEntry(base, user, es, j, buf, off);
    EntryLineIsDup(buf, off, es[j], rest);
    EntryAfterNewline(base, user, es, j, buf, off);
    EmitSentinel(base, user, es);
    assert off in LineStarts(buf);
    DupAt(buf, LineStarts(buf), off, es[j].cmd);
  }

  /** So a second run over a log holding this segment writes none of those
      commands again, whatever it looks at. */
  lemma NextRunSkipsWritten(base: bytes, user: bytes, es: seq<Entry>, j: nat, looked: seq<Entry>)
    requires base != [] && j < |es|
    requires NoSentinel(user) && NEWLINE !in user
    requires forall k :: 0 <= k < |es| ==> CleanEntry(es[k]) && LineFree(es[k])
    requires Visible(es[j].cmd) != []
    requires forall k :: 0 <= k < |es[j].cmd| && !IsTransparent(es[j].cmd[k]) ==> Findable(es[j].cmd[k])
    ensures var buf := base + Emit(user, es);
            forall e :: e in Decide(looked, buf, LineStarts(buf)).written ==> e.cmd != es[j].cmd
  {
    var buf := base + Emit(user, es);
    NextRunFindsWritten(base, user, es, j);
    DecideWritesOnly(looked, buf, LineStarts(buf));
  }
}
