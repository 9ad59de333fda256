/** Bytes, the two whitespace predicates the recorder uses, and the two ways it
    cuts text into pieces: `split(c)` on one separator byte and
    `split_ascii_whitespace`. Strings are treated as their UTF-8 bytes. */
module Bytes {

  type byte = x: int | 0 <= x < 256
  type bytes = seq<byte>

  const HASH: byte := 0x23     // '#'
  const GT: byte := 0x3E       // '>'
  const PIPE: byte := 0x7C     // '|'
  const SPACE: byte := 0x20    // ' '
  const NEWLINE: byte := 0x0A  // '\n'
  const COLON: byte := 0x3A    // ':'

  /** The program's own name (`crate_name!()`). */
  const CRATE_NAME: bytes := [0x68, 0x68]                 // "hh"
  /** The wrapper and the backgrounding marker, which comparison and output skip. */
  const NOHUP: bytes := [0x6E, 0x6F, 0x68, 0x75, 0x70]    // "nohup"
  const AMPERSAND: bytes := [0x26]                        // "&"

  predicate IsTransparent(t: bytes) {
    t == AMPERSAND || t == NOHUP
  }

  /** The bytes of an ASCII string literal. */
  function Ascii(s: string): (r: bytes)
    ensures |r| == |s|
    ensures forall i :: 0 <= i < |s| ==> r[i] == (s[i] as int) % 256
  {
    seq(|s|, i requires 0 <= i < |s| => (s[i] as int) % 256)
  }

  /** `u8::is_ascii_whitespace`, the separators of `split_ascii_whitespace`:
      space, tab, line feed, form feed and carriage return. Vertical tab is not
      one of them. */
  predicate IsAsciiWhitespace(b: byte) {
    b == 0x20 || b == 0x09 || b == 0x0A || b == 0x0C || b == 0x0D
  }

  /** `char::is_whitespace` applied to a byte widened to a `char`: U+0009 to
      U+000D, U+0020, U+0085 and U+00A0. */
  predicate IsCharWhitespace(b: byte) {
    (0x09 <= b <= 0x0D) || b == 0x20 || b == 0x85 || b == 0xA0
  }

  /** The byte pair `a b` occurs in `s` at offset `i`. */
  predicate PairAt(s: bytes, i: int, a: byte, b: byte) {
    0 <= i < |s| - 1 && s[i] == a && s[i + 1] == b
  }

  /** The byte pair `a b` occurs somewhere in `s`. */
  predicate HasPair(s: bytes, a: byte, b: byte) {
    exists i :: 0 <= i < |s| - 1 && PairAt(s, i, a, b)
  }

  /** Two pieces without the pair `a b` join into one without it, unless the
      first ends with `a` and the second begins with `b`. */
  lemma NoPairConcat(s: bytes, t: bytes, a: byte, b: byte)
    requires !HasPair(s, a, b) && !HasPair(t, a, b)
    requires s == [] || t == [] || s[|s| - 1] != a || t[0] != b
    ensures !HasPair(s + t, a, b)
  {
    var u := s + t;
    forall i | 0 <= i < |u| - 1 ensures !PairAt(u, i, a, b) {
      if i + 1 < |s| {
        assert !PairAt(s, i, a, b);
        assert u[i] == s[i] && u[i + 1] == s[i + 1];
      } else if i >= |s| {
        assert !PairAt(t, i - |s|, a, b);
        assert u[i] == t[i - |s|] && u[i + 1] == t[i + 1 - |s|];
      } else {
        assert u[i] == s[|s| - 1] && u[i + 1] == t[0];
      }
    }
  }

  /** Concatenation of a list of pieces. */
  function Concat(ps: seq<bytes>): bytes {
    if ps == [] then [] else ps[0] + Concat(ps[1..])
  }

  // ---------------------------------------------------------------------------
  // split(c)

  /** Position of the first `c` in `s`, or `|s|` when there is none. */
  function IndexOf(s: bytes, c: byte): (k: nat)
    ensures k <= |s|
    ensures c !in s[..k]
    ensures k < |s| ==> s[k] == c
  {
    if s == [] || s[0] == c then 0
    else
      var k' := IndexOf(s[1..], c);
      assert s[..k' + 1] == [s[0]] + s[1..][..k'];
      k' + 1
  }

  /** `s.split(c)`: the pieces between consecutive separators, empty pieces
      included; the empty input has one empty piece. */
  function SplitOn(s: bytes, c: byte): (r: seq<bytes>)
    ensures |r| >= 1
    ensures forall k :: 0 <= k < |r| ==> c !in r[k]
    decreases |s|
  {
    var k := IndexOf(s, c);
    if k == |s| then
      assert s[..k] == s;
      [s]
    else
      [s[..k]] + SplitOn(s[k + 1..], c)
  }

  /** The pieces written back with `c` between them. */
  function JoinWith(ps: seq<bytes>, c: byte): bytes
    decreases |ps|
  {
    if ps == [] then []
    else if |ps| == 1 then ps[0]
    else ps[0] + [c] + JoinWith(ps[1..], c)
  }

  /** Splitting loses nothing: putting the separators back gives the input. */
  lemma {:induction false} JoinSplitOn(s: bytes, c: byte)
    ensures JoinWith(SplitOn(s, c), c) == s
    decreases |s|
  {
    var k := IndexOf(s, c);
    if k < |s| {
      JoinSplitOn(s[k + 1..], c);
      assert s == s[..k] + [c] + s[k + 1..];
    }
  }

  /** Splitting is the inverse of joining, for pieces free of the separator. */
  lemma {:induction false} SplitOnJoin(ps: seq<bytes>, c: byte)
    requires |ps| >= 1
    requires forall k :: 0 <= k < |ps| ==> c !in ps[k]
    ensures SplitOn(JoinWith(ps, c), c) == ps
    decreases |ps|
  {
    var s := JoinWith(ps, c);
    if |ps| == 1 {
      IndexOfAbsent(ps[0], c);
    } else {
      var rest := JoinWith(ps[1..], c);
      assert s == ps[0] + ([c] + rest);
      IndexOfAfter(ps[0], [c] + rest, c);
      assert s[..|ps[0]|] == ps[0];
      assert s[|ps[0]| + 1..] == rest;
      SplitOnJoin(ps[1..], c);
    }
  }

  lemma {:induction false} IndexOfAbsent(s: bytes, c: byte)
    requires c !in s
    ensures IndexOf(s, c) == |s|
  {
  }

  lemma {:induction false} IndexOfAfter(a: bytes, b: bytes, c: byte)
    requires c !in a
    requires b != [] && b[0] == c
    ensures IndexOf(a + b, c) == |a|
  {
    if a != [] {
      assert (a + b)[0] == a[0] && a[0] in a;
      assert (a + b)[1..] == a[1..] + b;
      IndexOfAfter(a[1..], b, c);
    }
  }

  // ---------------------------------------------------------------------------
  // split_ascii_whitespace

  /** Length of the leading run of non-whitespace bytes of `s`. */
  function TokenEnd(s: bytes): (k: nat)
    ensures k <= |s|
    ensures forall i :: 0 <= i < k ==> !IsAsciiWhitespace(s[i])
    ensures k < |s| ==> IsAsciiWhitespace(s[k])
  {
    if s == [] || IsAsciiWhitespace(s[0]) then 0 else 1 + TokenEnd(s[1..])
  }

  /** A token as `split_ascii_whitespace` yields it: non-empty and free of
      ASCII whitespace. */
  predicate IsToken(t: bytes) {
    t != [] && forall i :: 0 <= i < |t| ==> !IsAsciiWhitespace(t[i])
  }

  /** `s.split_ascii_whitespace()`: the maximal runs of non-whitespace bytes. */
  function SplitAsciiWhitespace(s: bytes): (r: seq<bytes>)
    ensures forall k :: 0 <= k < |r| ==> IsToken(r[k])
    decreases |s|
  {
    if s == [] then []
    else if IsAsciiWhitespace(s[0]) then SplitAsciiWhitespace(s[1..])
    else
      var k := TokenEnd(s);
      [s[..k]] + SplitAsciiWhitespace(s[k..])
  }

  /** `s` with its ASCII whitespace bytes removed. */
  function StripAsciiWhitespace(s: bytes): bytes {
    if s == [] then []
    else if IsAsciiWhitespace(s[0]) then StripAsciiWhitespace(s[1..])
    else [s[0]] + StripAsciiWhitespace(s[1..])
  }

  lemma {:induction false} StripAppend(a: bytes, b: bytes)
    ensures StripAsciiWhitespace(a + b) == StripAsciiWhitespace(a) + StripAsciiWhitespace(b)
  {
    if a != [] {
      assert (a + b)[0] == a[0];
      assert (a + b)[1..] == a[1..] + b;
      StripAppend(a[1..], b);
    } else {
      assert a + b == b;
    }
  }

  lemma {:induction false} StripToken(t: bytes)
    requires forall i :: 0 <= i < |t| ==> !IsAsciiWhitespace(t[i])
    ensures StripAsciiWhitespace(t) == t
  {
    if t != [] {
      StripToken(t[1..]);
    }
  }

  /** The tokens hold exactly the non-whitespace bytes of the input, in order. */
  lemma {:induction false} SplitAsciiWhitespaceKeepsContent(s: bytes)
    ensures Concat(SplitAsciiWhitespace(s)) == StripAsciiWhitespace(s)
    decreases |s|
  {
    if s == [] {
    } else if IsAsciiWhitespace(s[0]) {
      SplitAsciiWhitespaceKeepsContent(s[1..]);
    } else {
      var k := TokenEnd(s);
      SplitAsciiWhitespaceKeepsContent(s[k..]);
      assert s == s[..k] + s[k..];
      StripAppend(s[..k], s[k..]);
      StripToken(s[..k]);
      assert SplitAsciiWhitespace(s)[1..] == SplitAsciiWhitespace(s[k..]);
    }
  }

  /** Splitting on whitespace undoes joining tokens with single spaces. */
  lemma {:induction false} SplitJoinTokens(ts: seq<bytes>)
    requires forall k :: 0 <= k < |ts| ==> IsToken(ts[k])
    ensures SplitAsciiWhitespace(JoinWith(ts, SPACE)) == ts
    decreases |ts|
  {
    if ts == [] {
    } else {
      var t := ts[0];
      var tail: bytes := if |ts| == 1 then [] else [SPACE] + JoinWith(ts[1..], SPACE);
      var s := JoinWith(ts, SPACE);
      assert s == t + tail;
      TokenEndOf(t, tail);
      assert s[..|t|] == t;
      assert s[|t|..] == tail;
      if |ts| > 1 {
        assert tail[1..] == JoinWith(ts[1..], SPACE);
        SplitJoinTokens(ts[1..]);
      }
    }
  }

  /** A token followed by whitespace (or nothing) is split off whole. */
  lemma SplitFirstToken(t: bytes, rest: bytes)
    requires IsToken(t)
    requires rest != [] ==> IsAsciiWhitespace(rest[0])
    ensures SplitAsciiWhitespace(t + rest) == [t] + SplitAsciiWhitespace(rest)
  {
    TokenEndOf(t, rest);
    assert (t + rest)[..|t|] == t;
    assert (t + rest)[|t|..] == rest;
  }

  lemma {:induction false} TokenEndOf(t: bytes, tail: bytes)
    requires IsToken(t)
    requires tail != [] ==> IsAsciiWhitespace(tail[0])
    ensures TokenEnd(t + tail) == |t|
    decreases |t|
  {
    var s := t + tail;
    if |t| > 1 {
      assert s[1..] == t[1..] + tail;
      TokenEndOf(t[1..], tail);
    } else {
      assert s[1..] == tail;
    }
  }
}
