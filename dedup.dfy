/** Duplicate detection (src/main.rs, `is_dup_cmd` and the `any` over the line
    starts of the last segment at its call site). A candidate command is
    matched byte by byte against the log from a line start: `&` and `nohup`
    are skipped, each other token must appear verbatim at the cursor, and after
    each token the cursor skips bytes that `char::is_whitespace` accepts. */
module Dedup {
  import opened Bytes
  import opened Outcomes

  /** Where the cursor of `is_dup_cmd` ends up. */
  datatype Walk =
    | Mismatch    // a token byte differed, or the log ended inside a token
    | Overrun     // the whitespace skip ran off the end: `cmd1[i]` is out of bounds
    | At(i: nat)  // every token matched; the cursor stopped at `i`

  /** `t` appears in `cmd1` at offset `i`. */
  predicate TokenAt(cmd1: bytes, t: bytes, i: nat) {
    i + |t| <= |cmd1| && forall m :: 0 <= m < |t| ==> cmd1[i + m] == t[m]
  }

  /** The whitespace loop of `is_dup_cmd`, from offset `i`. It reads `cmd1[i]`
      without a bounds check, so reaching the end is an overrun. */
  function SkipWhitespace(cmd1: bytes, i: nat): (w: Walk)
    requires i <= |cmd1|
    ensures w != Mismatch
    ensures w.At? ==> i <= w.i < |cmd1| && !IsCharWhitespace(cmd1[w.i])
    ensures w.At? ==> forall k :: i <= k < w.i ==> IsCharWhitespace(cmd1[k])
    ensures w == Overrun <==> forall k :: i <= k < |cmd1| ==> IsCharWhitespace(cmd1[k])
    decreases |cmd1| - i
  {
    if i == |cmd1| then Overrun
    else if IsCharWhitespace(cmd1[i]) then SkipWhitespace(cmd1, i + 1)
    else At(i)
  }

  /** The token loop of `is_dup_cmd`, with the cursor at `i`. */
  function WalkTokens(cmd1: bytes, cmd2: seq<bytes>, i: nat): (w: Walk)
    requires i <= |cmd1|
    ensures w.At? ==> i <= w.i <= |cmd1|
    decreases |cmd2|
  {
    if cmd2 == [] then At(i)
    else if IsTransparent(cmd2[0]) then WalkTokens(cmd1, cmd2[1..], i)
    else if !TokenAt(cmd1, cmd2[0], i) then Mismatch
    else
      match SkipWhitespace(cmd1, i + |cmd2[0]|)
      case At(j) => WalkTokens(cmd1, cmd2[1..], j)
      case Overrun => Overrun
      case Mismatch => Mismatch
  }

  /** What `is_dup_cmd(cmd1, cmd2)` returns: false at the first mismatch, a
      panic on an overrun, and otherwise true exactly when the cursor is at the
      end or on a `#`. */
  function IsDup(cmd1: bytes, cmd2: seq<bytes>): Outcome<bool> {
    match WalkTokens(cmd1, cmd2, 0)
    case Mismatch => Ok(false)
    case Overrun => Panic(IndexOutOfBounds)
    case At(i) => Ok(i >= |cmd1| || cmd1[i] == HASH)
  }

  /** The byte loop of `is_dup_cmd` for one token, from cursor `i`. */
  method MatchToken(cmd1: bytes, t: bytes, i: nat) returns (ok: bool)
    requires i <= |cmd1|
    ensures ok <==> TokenAt(cmd1, t, i)
  {
    var j := i;
    for m := 0 to |t|
      invariant j == i + m <= |cmd1|
      invariant forall n :: 0 <= n < m ==> cmd1[i + n] == t[n]
    {
      if j < |cmd1| && t[m] == cmd1[j] {
        j := j + 1;
      } else {
        return false;
      }
    }
    return true;
  }

  /** The whitespace loop of `is_dup_cmd`, from cursor `i`. */
  method SkipSpaces(cmd1: bytes, i: nat) returns (w: Walk)
    requires i <= |cmd1|
    ensures w == SkipWhitespace(cmd1, i)
  {
    var j := i;
    while true
      invariant i <= j <= |cmd1|
      invariant SkipWhitespace(cmd1, i) == SkipWhitespace(cmd1, j)
      decreases |cmd1| - j
    {
      if j == |cmd1| {
        return Overrun;
      }
      if !IsCharWhitespace(cmd1[j]) {
        return At(j);
      }
      j := j + 1;
    }
  }

  /** `is_dup_cmd`. */
  method IsDupCmd(cmd1: bytes, cmd2: seq<bytes>) returns (r: Outcome<bool>)
    ensures r == IsDup(cmd1, cmd2)
  {
    var i: nat := 0;
    for k := 0 to |cmd2|
      invariant i <= |cmd1|
      invariant WalkTokens(cmd1, cmd2, 0) == WalkTokens(cmd1, cmd2[k..], i)
    {
      var t := cmd2[k];
      ghost var rest := cmd2[k..];
      assert rest[0] == t && rest[1..] == cmd2[k + 1..];
      if IsTransparent(t) {
        assert WalkTokens(cmd1, rest, i) == WalkTokens(cmd1, cmd2[k + 1..], i);
        continue;
      }
      var ok := MatchToken(cmd1, t, i);
      if !ok {
        return Ok(false);
      }
      var w := SkipSpaces(cmd1, i + |t|);
      if w == Overrun {
        return Panic(IndexOutOfBounds);
      }
      WalkMatched(cmd1, rest, i, w.i);
      i := w.i;
    }
    assert cmd2[|cmd2|..] == [];
    return Ok(i >= |cmd1| || cmd1[i] == HASH);
  }

  /** One matched token moves the walk past it and the whitespace after it. */
  lemma WalkMatched(cmd1: bytes, ts: seq<bytes>, i: nat, j: nat)
    requires i <= |cmd1| && ts != [] && !IsTransparent(ts[0]) && TokenAt(cmd1, ts[0], i)
    requires SkipWhitespace(cmd1, i + |ts[0]|) == At(j)
    ensures j <= |cmd1| && WalkTokens(cmd1, ts, i) == WalkTokens(cmd1, ts[1..], j)
  {
  }

  /** The candidate is a duplicate of one of the lines starting at `offsets`:
      the offsets are tried in order and the search stops at the first match
      (or the first panic). */
  function DupAny(buf: bytes, offsets: seq<nat>, cmd: seq<bytes>): (r: Outcome<bool>)
    requires forall k :: 0 <= k < |offsets| ==> offsets[k] <= |buf|
    ensures r == Ok(true) ==> exists k :: 0 <= k < |offsets| && IsDup(buf[offsets[k]..], cmd) == Ok(true)
    ensures r == Ok(false) <==> forall k :: 0 <= k < |offsets| ==> IsDup(buf[offsets[k]..], cmd) == Ok(false)
  {
    if offsets == [] then Ok(false)
    else
      match IsDup(buf[offsets[0]..], cmd)
      case Panic(c) => Panic(c)
      case Ok(true) => Ok(true)
      case Ok(false) =>
        var r := DupAny(buf, offsets[1..], cmd);
        assert forall k :: 1 <= k < |offsets| ==> offsets[1..][k - 1] == offsets[k];
        r
  }

  /** The `any` follows the order of the offsets: any answer but a clean
      "no" is the answer of the first offset whose check is not a clean "no",
      every earlier check saying a clean "no". */
  lemma {:induction false} DupAnyFirst(buf: bytes, offsets: seq<nat>, cmd: seq<bytes>)
    requires forall k :: 0 <= k < |offsets| ==> offsets[k] <= |buf|
    ensures var r := DupAny(buf, offsets, cmd);
            r != Ok(false) ==>
              exists k :: 0 <= k < |offsets| && r == IsDup(buf[offsets[k]..], cmd) &&
                          forall j :: 0 <= j < k ==> IsDup(buf[offsets[j]..], cmd) == Ok(false)
  {
    if offsets != [] && IsDup(buf[offsets[0]..], cmd) == Ok(false) {
      var rest := offsets[1..];
      DupAnyFirst(buf, rest, cmd);
      if DupAny(buf, rest, cmd) != Ok(false) {
        var k :| 0 <= k < |rest| && DupAny(buf, rest, cmd) == IsDup(buf[rest[k]..], cmd) &&
                 forall j :: 0 <= j < k ==> IsDup(buf[rest[j]..], cmd) == Ok(false);
        assert rest[k] == offsets[k + 1];
        forall j | 0 <= j < k + 1 ensures IsDup(buf[offsets[j]..], cmd) == Ok(false) {
          if j > 0 {
            assert offsets[j] == rest[j - 1];
          }
        }
      }
    }
  }

  /** `last_cmds.1.iter().any(|x| is_dup_cmd(&last_cmds.0[*x..], cmds))`. */
  method IsDuplicate(buf: bytes, offsets: seq<nat>, cmd: seq<bytes>) returns (r: Outcome<bool>)
    requires forall k :: 0 <= k < |offsets| ==> offsets[k] <= |buf|
    ensures r == DupAny(buf, offsets, cmd)
  {
    for k := 0 to |offsets|
      invariant DupAny(buf, offsets, cmd) == DupAny(buf, offsets[k..], cmd)
    {
      assert offsets[k..][1..] == offsets[k + 1..];
      var d := IsDupCmd(buf[offsets[k]..], cmd);
      if d != Ok(false) {
        return d;
      }
    }
    return Ok(false);
  }

  // ---------------------------------------------------------------------------
  // The line the record loop writes, and why it is found again.

  /** The tokens the record loop writes: all but `&` and `nohup`. */
  function Visible(cmd: seq<bytes>): (v: seq<bytes>)
    ensures forall k :: 0 <= k < |v| ==> !IsTransparent(v[k])
  {
    if cmd == [] then []
    else if IsTransparent(cmd[0]) then Visible(cmd[1..])
    else [cmd[0]] + Visible(cmd[1..])
  }

  /** The text the record loop writes for a command: each visible token followed
      by one space (`write!(w, "{} ", opt)`). */
  function CommandText(cmd: seq<bytes>): bytes {
    if cmd == [] then []
    else if IsTransparent(cmd[0]) then CommandText(cmd[1..])
    else cmd[0] + [SPACE] + CommandText(cmd[1..])
  }

  /** The skipped tokens do not matter to the comparison. */
  lemma {:induction false} WalkIgnoresTransparent(cmd1: bytes, cmd2: seq<bytes>, i: nat)
    requires i <= |cmd1|
    ensures WalkTokens(cmd1, cmd2, i) == WalkTokens(cmd1, Visible(cmd2), i)
    decreases |cmd2|
  {
    if cmd2 != [] {
      var v := Visible(cmd2);
      if !IsTransparent(cmd2[0]) {
        assert v == [cmd2[0]] + Visible(cmd2[1..]);
        assert v[0] == cmd2[0] && v[1..] == Visible(cmd2[1..]);
        if TokenAt(cmd1, cmd2[0], i) {
          match SkipWhitespace(cmd1, i + |cmd2[0]|)
          case At(j) =>
            WalkMatched(cmd1, cmd2, i, j);
            WalkMatched(cmd1, v, i, j);
            WalkIgnoresTransparent(cmd1, cmd2[1..], j);
          case Overrun =>
          case Mismatch =>
        }
      } else {
        WalkIgnoresTransparent(cmd1, cmd2[1..], i);
      }
    }
  }

  /** Dropping `&` and `nohup` from the candidate never changes the verdict. */
  lemma IsDupIgnoresTransparent(cmd1: bytes, cmd2: seq<bytes>)
    ensures IsDup(cmd1, cmd2) == IsDup(cmd1, Visible(cmd2))
  {
    WalkIgnoresTransparent(cmd1, cmd2, 0);
  }

  /** A written token can be found again: it is non-empty and does not begin
      with a byte the whitespace skip would eat. */
  predicate Findable(t: bytes) {
    t != [] && !IsCharWhitespace(t[0])
  }

  lemma {:induction false} CommandTextEmpty(cmd: seq<bytes>)
    ensures CommandText(cmd) == [] <==> Visible(cmd) == []
    ensures CommandText(cmd) != [] && Findable(Visible(cmd)[0]) ==> !IsCharWhitespace(CommandText(cmd)[0])
  {
    if cmd != [] {
      CommandTextEmpty(cmd[1..]);
    }
  }

  lemma {:induction false} WalkAllTransparent(cmd1: bytes, cmd2: seq<bytes>, i: nat)
    requires i <= |cmd1| && Visible(cmd2) == []
    ensures WalkTokens(cmd1, cmd2, i) == At(i)
  {
    if cmd2 != [] {
      WalkAllTransparent(cmd1, cmd2[1..], i);
    }
  }

  /** Walking the candidate over its own written text stops on the byte after
      the single space that follows the text, when the text is followed by
      two more bytes, a space and a `#`. */
  lemma {:induction false} WalkOverText(s: bytes, cmd: seq<bytes>, i: nat)
    requires forall k :: 0 <= k < |cmd| && !IsTransparent(cmd[k]) ==> Findable(cmd[k])
    requires TokenAt(s, CommandText(cmd), i)
    requires i + |CommandText(cmd)| + 2 <= |s|
    requires s[i + |CommandText(cmd)|] == SPACE && s[i + |CommandText(cmd)| + 1] == HASH
    ensures WalkTokens(s, cmd, i) == if CommandText(cmd) == [] then At(i) else At(i + |CommandText(cmd)| + 1)
    decreases |cmd|
  {
    if cmd == [] {
    } else if IsTransparent(cmd[0]) {
      FindableTail(cmd);
      WalkOverText(s, cmd[1..], i);
    } else {
      WalkOverToken(s, cmd, i);
    }
  }

  /** The step of `WalkOverText` for a visible first token. */
  lemma {:induction false} WalkOverToken(s: bytes, cmd: seq<bytes>, i: nat)
    requires cmd != [] && !IsTransparent(cmd[0])
    requires forall k :: 0 <= k < |cmd| && !IsTransparent(cmd[k]) ==> Findable(cmd[k])
    requires TokenAt(s, CommandText(cmd), i)
    requires i + |CommandText(cmd)| + 2 <= |s|
    requires s[i + |CommandText(cmd)|] == SPACE && s[i + |CommandText(cmd)| + 1] == HASH
    ensures WalkTokens(s, cmd, i) == At(i + |CommandText(cmd)| + 1)
    decreases |cmd|, 0
  {
    var t, rest := cmd[0], cmd[1..];
    var txt := CommandText(rest);
    assert CommandText(cmd) == t + [SPACE] + txt;
    var n := i + |t| + 1;
    SliceParts(s, i, t, txt);
    CommandTextEmpty(rest);
    if txt == [] {
      assert SkipWhitespace(s, n - 1) == At(n + 1);
      WalkMatched(s, cmd, i, n + 1);
      WalkAllTransparent(s, rest, n + 1);
    } else {
      VisibleIn(rest);
      assert Visible(rest)[0] in rest;
      assert s[n] == txt[0];
      assert SkipWhitespace(s, n - 1) == At(n);
      WalkMatched(s, cmd, i, n);
      FindableTail(cmd);
      ghost var e := n + |txt|;
      assert e == i + |CommandText(cmd)|;
      assert s[e] == SPACE && s[e + 1] == HASH && e + 2 <= |s|;
      WalkOverText(s, rest, n);
    }
  }

  lemma FindableTail(cmd: seq<bytes>)
    requires cmd != []
    requires forall k :: 0 <= k < |cmd| && !IsTransparent(cmd[k]) ==> Findable(cmd[k])
    ensures forall k :: 0 <= k < |cmd[1..]| && !IsTransparent(cmd[1..][k]) ==> Findable(cmd[1..][k])
  {
    forall k | 0 <= k < |cmd[1..]| ensures cmd[1..][k] == cmd[k + 1] {}
  }

  /** The parts of a token, a space and a text found at `i`. */
  lemma SliceParts(s: bytes, i: nat, t: bytes, txt: bytes)
    requires TokenAt(s, t + [SPACE] + txt, i)
    ensures TokenAt(s, t, i)
    ensures s[i + |t|] == SPACE
    ensures TokenAt(s, txt, i + |t| + 1)
  {
    var w := t + [SPACE] + txt;
    assert w[|t|] == SPACE;
    forall m | 0 <= m < |t| ensures s[i + m] == t[m] {
      assert w[m] == t[m];
    }
    forall m | 0 <= m < |txt| ensures s[i + |t| + 1 + m] == txt[m] {
      assert w[|t| + 1 + m] == txt[m];
    }
  }

  lemma {:induction false} VisibleIn(cmd: seq<bytes>)
    ensures forall k :: 0 <= k < |Visible(cmd)| ==> Visible(cmd)[k] in cmd
  {
    if cmd != [] {
      VisibleIn(cmd[1..]);
    }
  }

  // ---------------------------------------------------------------------------
  // Edge cases of the lenient comparison, on concrete bytes.

  /** A token that `split_ascii_whitespace` keeps but that begins with a byte
      `char::is_whitespace` accepts (vertical tab, 0x0B) is never found again:
      the skip after the previous token eats it. The line is what the record
      loop writes for `a \vb` (date and time `d t`). */
  lemma VerticalTabTokenNotFound()
    ensures IsDup([0x61, 0x20, 0x0B, 0x62, 0x20, 0x20, 0x23, 0x20, 0x64, 0x20, 0x74, 0x0A],
                  [[0x61], [0x0B, 0x62]]) == Ok(false)
  {
    var line: bytes := [0x61, 0x20, 0x0B, 0x62, 0x20, 0x20, 0x23, 0x20, 0x64, 0x20, 0x74, 0x0A];
    assert TokenAt(line, [0x61], 0);
    assert SkipWhitespace(line, 1) == At(3);
    var vb: bytes := [0x0B, 0x62];
    assert line[3 + 0] != vb[0];
    assert !TokenAt(line, vb, 3);
  }

  /** When the matched text ends the log except for whitespace, the skip
      reads past the end: `ls\n` against `ls` panics. */
  lemma TrailingWhitespaceOverruns()
    ensures IsDup([0x6C, 0x73, 0x0A], [[0x6C, 0x73]]) == Panic(IndexOutOfBounds)
  {
    var line: bytes := [0x6C, 0x73, 0x0A];
    assert TokenAt(line, [0x6C, 0x73], 0);
    assert SkipWhitespace(line, 2) == Overrun;
  }

  /** A command made only of skipped tokens is written as a line starting with
      a space, and the test of a lone `nohup` against that line says no: the
      walk stays on the space. (Any other line that starts with `#` does
      match a lone `nohup`.) */
  lemma NohupAloneNeverDuplicate()
    ensures IsDup([0x20, 0x23, 0x20, 0x64, 0x20, 0x74, 0x0A], [NOHUP]) == Ok(false)
  {
    assert WalkTokens([0x20, 0x23, 0x20, 0x64, 0x20, 0x74, 0x0A], [NOHUP], 0) == At(0);
  }
}
