/** The backward scans over the existing log (src/main.rs, `get_last_cmdindex`
    and the loop of `read_last_cmd`) and the reset that truncates the log at
    the last segment header. A segment header is a line starting with the
    two-byte sentinel `#>`. The log is given as the bytes already read. */
module Segments {
  import opened Bytes
  import opened Outcomes

  /** The sentinel `#>` starts at offset `q`. */
  predicate SentinelAt(buf: bytes, q: nat) {
    q + 1 < |buf| && buf[q] == HASH && buf[q + 1] == GT
  }

  /** `p` is what the backward scan finds: the offset of the last sentinel that
      starts at 1 or later, or 0 when there is none. A sentinel at offset 0 is
      never seen, because the scan stops before looking at byte 0. */
  predicate IsLastSentinel(buf: bytes, p: nat) {
    (p == 0 || SentinelAt(buf, p)) &&
    forall q :: p < q < |buf| && q >= 1 ==> !SentinelAt(buf, q)
  }

  lemma LastSentinelUnique(buf: bytes, p: nat, p': nat)
    requires IsLastSentinel(buf, p) && IsLastSentinel(buf, p')
    ensures p == p'
  {
  }

  /** The last sentinel below offset `index + 1`, looking at the pairs
      (`index - 1`, `index`) downwards as the scans do. */
  function LastSentinelBelow(buf: bytes, index: nat): (p: nat)
    requires index < |buf|
    ensures p == 0 || (p < index && SentinelAt(buf, p))
    ensures forall q :: p < q < index && q >= 1 ==> !SentinelAt(buf, q)
    decreases index
  {
    if index <= 1 then 0
    else if SentinelAt(buf, index - 1) then index - 1
    else LastSentinelBelow(buf, index - 1)
  }

  /** The offset the scans find, for a non-empty log (0 for the empty one). */
  function LastSentinel(buf: bytes): (p: nat)
    ensures IsLastSentinel(buf, p)
    ensures p > 0 ==> p + 2 <= |buf|
  {
    if buf == [] then 0 else LastSentinelBelow(buf, |buf| - 1)
  }

  /** `get_last_cmdindex`. The empty log makes `buf.len() - 1` underflow. */
  method GetLastCmdIndex(buf: bytes) returns (r: Outcome<nat>)
    ensures buf == [] <==> r == Panic(Underflow)
    ensures buf != [] ==> r.Ok? && IsLastSentinel(buf, r.value)
    ensures buf != [] ==> r == Ok(LastSentinel(buf))
  {
    if buf == [] {
      return Panic(Underflow);
    }
    var index := |buf| - 1;
    while index > 1
      invariant 0 <= index < |buf|
      invariant forall q: nat :: q >= index ==> !SentinelAt(buf, q)
    {
      if buf[index - 1] == HASH && buf[index] == GT {
        LastSentinelUnique(buf, index - 1, LastSentinel(buf));
        return Ok(index - 1);
      }
      index := index - 1;
    }
    LastSentinelUnique(buf, 0, LastSentinel(buf));
    return Ok(0);
  }

  /** `offsets` lists, from the end of the log backwards, every line start of
      the last segment: each offset `i` follows a line feed, lies after the
      `>` of the last sentinel (and is at least 2), and is at most `|buf| - 1`;
      every such position is listed, and the list is strictly decreasing. */
  predicate IsSegmentLineStarts(buf: bytes, offsets: seq<nat>) {
    var lo := LastSentinel(buf) + 2;
    (forall a, b :: 0 <= a < b < |offsets| ==> offsets[a] > offsets[b]) &&
    (forall k :: 0 <= k < |offsets| ==>
       lo <= offsets[k] < |buf| && buf[offsets[k] - 1] == NEWLINE) &&
    (forall i :: lo <= i < |buf| && buf[i - 1] == NEWLINE ==> i in offsets)
  }

  /** The line starts `i` with `lo <= i <= hi` (offsets whose previous byte
      is a line feed), from `hi` down. */
  function StartsDown(buf: bytes, hi: int, lo: nat): seq<nat>
    requires 1 <= lo && hi < |buf|
    decreases hi - lo + 1
  {
    if hi < lo then []
    else (if buf[hi - 1] == NEWLINE then [hi as nat] else []) + StartsDown(buf, hi - 1, lo)
  }

  /** `r` lists, strictly decreasing, exactly the line starts `i` with
      `lo <= i <= hi`. */
  predicate IsStartsBetween(buf: bytes, r: seq<nat>, lo: nat, hi: int)
    requires hi < |buf|
  {
    (forall a, b :: 0 <= a < b < |r| ==> r[a] > r[b]) &&
    (forall k :: 0 <= k < |r| ==> 1 <= lo <= r[k] <= hi && buf[r[k] - 1] == NEWLINE) &&
    (forall i :: 1 <= lo <= i <= hi && buf[i - 1] == NEWLINE ==> i in r)
  }

  /** The scan's list is strictly decreasing, holds only line starts between
      the bounds, and holds every one of them. */
  lemma {:induction false} StartsDownSpec(buf: bytes, hi: int, lo: nat)
    requires 1 <= lo && hi < |buf|
    ensures IsStartsBetween(buf, StartsDown(buf, hi, lo), lo, hi)
    decreases hi - lo + 1
  {
    if hi >= lo {
      StartsDownSpec(buf, hi - 1, lo);
      var t := StartsDown(buf, hi - 1, lo);
      if buf[hi - 1] == NEWLINE {
        StartsCons(buf, t, lo, hi);
      } else {
        assert StartsDown(buf, hi, lo) == [] + t == t;
        StartsSkip(buf, t, lo, hi);
      }
    }
  }

  lemma StartsCons(buf: bytes, t: seq<nat>, lo: nat, hi: int)
    requires 1 <= lo <= hi < |buf| && buf[hi - 1] == NEWLINE
    requires IsStartsBetween(buf, t, lo, hi - 1)
    ensures IsStartsBetween(buf, [hi as nat] + t, lo, hi)
  {
    var r := [hi as nat] + t;
    forall k | 0 < k < |r| ensures r[k] == t[k - 1] {
    }
    forall i | lo <= i <= hi && buf[i - 1] == NEWLINE ensures i in r {
      if i < hi {
        assert i in t;
      } else {
        assert r[0] == i;
      }
    }
  }

  lemma StartsSkip(buf: bytes, t: seq<nat>, lo: nat, hi: int)
    requires 1 <= lo <= hi < |buf| && buf[hi - 1] != NEWLINE
    requires IsStartsBetween(buf, t, lo, hi - 1)
    ensures IsStartsBetween(buf, t, lo, hi)
  {
  }

  /** The same list, grown at its low end. */
  lemma {:induction false} StartsDownLow(buf: bytes, hi: int, lo: nat)
    requires 1 <= lo <= hi < |buf|
    ensures StartsDown(buf, hi, lo) ==
              StartsDown(buf, hi, lo + 1) + (if buf[lo - 1] == NEWLINE then [lo] else [])
    decreases hi - lo
  {
    var a := if buf[hi - 1] == NEWLINE then [hi as nat] else [];
    assert StartsDown(buf, hi, lo) == a + StartsDown(buf, hi - 1, lo);
    if hi > lo {
      StartsDownLow(buf, hi - 1, lo);
      assert StartsDown(buf, hi, lo + 1) == a + StartsDown(buf, hi - 1, lo + 1);
    } else {
      assert StartsDown(buf, hi - 1, lo) == [];
    }
  }

  /** Offsets above `m` whose previous byte is no line feed add nothing. */
  lemma {:induction false} StartsDownSkip(buf: bytes, hi: int, m: int, lo: nat)
    requires 1 <= lo && hi < |buf| && lo - 1 <= m <= hi
    requires forall i :: m <= i < hi ==> buf[i] != NEWLINE
    ensures StartsDown(buf, hi, lo) == StartsDown(buf, m, lo)
    decreases hi - m
  {
    if hi > m {
      StartsDownSkip(buf, hi - 1, m, lo);
    }
  }

  /** The scan below `hi` reads nothing past `hi`: bytes appended later do
      not change it. */
  lemma {:induction false} StartsDownFrame(buf: bytes, buf': bytes, hi: int, lo: nat)
    requires 1 <= lo && hi < |buf| <= |buf'| && buf'[..|buf|] == buf
    ensures StartsDown(buf', hi, lo) == StartsDown(buf, hi, lo)
    decreases hi - lo + 1
  {
    if hi >= lo {
      var a := if buf[hi - 1] == NEWLINE then [hi as nat] else [];
      assert buf'[hi - 1] == buf[hi - 1];
      assert StartsDown(buf, hi, lo) == a + StartsDown(buf, hi - 1, lo);
      assert StartsDown(buf', hi, lo) == a + StartsDown(buf', hi - 1, lo);
      StartsDownFrame(buf, buf', hi - 1, lo);
    }
  }

  /** What `read_last_cmd` collects: the line starts of the last segment, most
      recent first. */
  function LineStarts(buf: bytes): (r: seq<nat>)
    requires buf != []
    ensures IsSegmentLineStarts(buf, r)
  {
    StartsDownSpec(buf, |buf| - 1, LastSentinel(buf) + 2);
    StartsDown(buf, |buf| - 1, LastSentinel(buf) + 2)
  }

  /** The scan of `read_last_cmd` over the bytes it has read. The empty log
      makes `buf.len() - 1` underflow. */
  method ReadLastCmd(buf: bytes) returns (r: Outcome<seq<nat>>)
    ensures buf == [] <==> r == Panic(Underflow)
    ensures buf != [] ==> r == Ok(LineStarts(buf))
  {
    if buf == [] {
      return Panic(Underflow);
    }
    var indexs: seq<nat> := [];
    var index := |buf| - 1;
    while index > 1
      invariant 0 < |buf| && 0 <= index < |buf|
      invariant |buf| >= 2 ==> index >= 1
      invariant forall q: nat :: q >= index ==> !SentinelAt(buf, q)
      invariant indexs == StartsDown(buf, |buf| - 1, index + 1)
    {
      if buf[index - 1] == HASH && buf[index] == GT {
        break;
      } else if buf[index - 1] == NEWLINE {
        indexs := indexs + [index];
      }
      StartsDownLow(buf, |buf| - 1, index);
      index := index - 1;
    }
    if index > 1 {
      LastSentinelUnique(buf, index - 1, LastSentinel(buf));
    } else {
      LastSentinelUnique(buf, 0, LastSentinel(buf));
    }
    assert LastSentinel(buf) + 2 == index + 1 || (LastSentinel(buf) == 0 && index <= 1);
    return Ok(indexs);
  }

  /** The reset: the log truncated at the last sentinel when the scan found
      one, and left alone when it found 0. The empty log panics while
      scanning. A truncated log is a proper prefix of the old one and what it
      loses is exactly one segment: it starts with the sentinel and holds no
      other sentinel. */
  function Reset(buf: bytes): (r: Outcome<bytes>)
    ensures buf == [] <==> r == Panic(Underflow)
    ensures buf != [] ==> r.Ok?
    ensures r.Ok? ==> |r.value| <= |buf| && buf[..|r.value|] == r.value
    ensures r.Ok? ==> (r.value == buf <==> forall q :: q >= 1 ==> !SentinelAt(buf, q))
    ensures r.Ok? && r.value != buf ==>
              |r.value| >= 1 && SentinelAt(buf, |r.value|) &&
              forall q :: q > |r.value| ==> !SentinelAt(buf, q)
  {
    if buf == [] then Panic(Underflow)
    else
      var p := LastSentinel(buf);
      if p > 0 then Ok(buf[..p]) else Ok(buf)
  }

  /** The reset of a log ending `x\n#> u\nls\n` keeps `x\n`: it cuts just
      before the header of the last segment. */
  lemma ResetCutsBeforeHeader()
    ensures Reset(Ascii("x\n#> u\nls\n")) == Ok(Ascii("x\n"))
  {
    var buf := Ascii("x\n#> u\nls\n");
    assert buf == [0x78, 0x0A, 0x23, 0x3E, 0x20, 0x75, 0x0A, 0x6C, 0x73, 0x0A];
    assert IsLastSentinel(buf, 2);
    LastSentinelUnique(buf, 2, LastSentinel(buf));
    assert buf[..2] == Ascii("x\n");
  }

  /** A reset is an undo of one segment, so it is not idempotent: a second
      reset removes the segment before. */
  lemma ResetNotIdempotent()
    ensures Reset(Ascii("x\n#> a\n#> b\n")) == Ok(Ascii("x\n#> a\n"))
    ensures Reset(Ascii("x\n#> a\n")) == Ok(Ascii("x\n"))
  {
    var buf := Ascii("x\n#> a\n#> b\n");
    assert buf == [0x78, 0x0A, 0x23, 0x3E, 0x20, 0x61, 0x0A, 0x23, 0x3E, 0x20, 0x62, 0x0A];
    assert IsLastSentinel(buf, 7);
    LastSentinelUnique(buf, 7, LastSentinel(buf));
    assert buf[..7] == Ascii("x\n#> a\n");
    var once := Ascii("x\n#> a\n");
    assert once == [0x78, 0x0A, 0x23, 0x3E, 0x20, 0x61, 0x0A];
    assert IsLastSentinel(once, 2);
    LastSentinelUnique(once, 2, LastSentinel(once));
    assert once[..2] == Ascii("x\n");
  }
}
