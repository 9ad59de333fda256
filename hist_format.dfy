/** Validation of the HISTTIMEFORMAT value (src/main.rs, `parse_hist_format`):
    the format must begin with a date field and a time field and end in
    whitespace; the number of its whitespace-separated fields tells how many
    date/time tokens follow the sequence number on each history line. */
module HistFormat {
  import opened Bytes
  import opened Outcomes

  /** A date field: exactly `%F`, or any field containing `%d`. */
  predicate IsDateField(t: bytes) {
    t == Ascii("%F") || HasPair(t, 0x25, 0x64)
  }

  /** A time field: exactly `%T`. */
  predicate IsTimeField(t: bytes) {
    t == Ascii("%T")
  }

  /** `str::ends_with(char::is_whitespace)` for a string whose last character
      is ASCII (a UTF-8 byte below 0x80 is a whole character). */
  predicate EndsWithWhitespace(v: bytes) {
    |v| > 0 && v[|v| - 1] < 0x80 && IsCharWhitespace(v[|v| - 1])
  }

  /** The grammar the format must follow for recording to work at all. */
  predicate IsValidFormat(v: bytes) {
    var fields := SplitAsciiWhitespace(v);
    |fields| >= 2 && IsDateField(fields[0]) && IsTimeField(fields[1]) && EndsWithWhitespace(v)
  }

  /** `parse_hist_format`, given the value of HISTTIMEFORMAT (None when it is
      unset). Any failure aborts the process; which failure it is follows the
      order in which the source evaluates its condition: `vars[0]` is read
      first, `vars[1]` only after the date test succeeded. */
  function ParseHistFormat(env: Option<bytes>): (r: Outcome<nat>)
    ensures r.Ok? <==> env.Some? && IsValidFormat(env.value)
    ensures r.Ok? ==> r.value == |SplitAsciiWhitespace(env.value)| && r.value >= 2
    ensures r == Panic(MissingVariable) <==> env.None?
    ensures r == Panic(IndexOutOfBounds) <==>
              env.Some? &&
              var fields := SplitAsciiWhitespace(env.value);
              |fields| == 0 || (|fields| == 1 && IsDateField(fields[0]))
    ensures r == Panic(BadTimeFormat) <==>
              env.Some? &&
              var fields := SplitAsciiWhitespace(env.value);
              |fields| > 0 &&
              (!IsDateField(fields[0]) ||
               (|fields| >= 2 && !(IsTimeField(fields[1]) && EndsWithWhitespace(env.value))))
  {
    match env
    case None => Panic(MissingVariable)
    case Some(v) =>
      var vars := SplitAsciiWhitespace(v);
      if |vars| == 0 then Panic(IndexOutOfBounds)
      else if !IsDateField(vars[0]) then Panic(BadTimeFormat)
      else if |vars| == 1 then Panic(IndexOutOfBounds)
      else if IsTimeField(vars[1]) && EndsWithWhitespace(v) then Ok(|vars|)
      else Panic(BadTimeFormat)
  }

  /** The usual setting `"%F %T "` gives two fields, so commands start at
      token 3 of each history line. */
  lemma DefaultFormat()
    ensures ParseHistFormat(Some(Ascii("%F %T "))) == Ok(2)
  {
    var f, t := Ascii("%F"), Ascii("%T");
    assert f == [0x25, 0x46] && t == [0x25, 0x54];
    assert Ascii("%F %T ") == f + ([SPACE] + (t + [SPACE]));
    SplitTwoFields(f, t, [SPACE]);
  }

  /** Without the trailing space the same format is refused. */
  lemma FormatNeedsTrailingWhitespace()
    ensures ParseHistFormat(Some(Ascii("%F %T"))) == Panic(BadTimeFormat)
  {
    var f, t := Ascii("%F"), Ascii("%T");
    assert f == [0x25, 0x46] && t == [0x25, 0x54];
    assert Ascii("%F %T") == f + ([SPACE] + (t + []));
    SplitTwoFields(f, t, []);
  }

  /** Two tokens separated by one space, with or without a trailing space,
      split into exactly those two fields. */
  lemma SplitTwoFields(f: bytes, t: bytes, tail: bytes)
    requires IsToken(f) && IsToken(t)
    requires tail == [] || tail == [SPACE]
    ensures SplitAsciiWhitespace(f + ([SPACE] + (t + tail))) == [f, t]
  {
    SplitFirstToken(t, tail);
    if tail == [] {
      assert SplitAsciiWhitespace(tail) == [];
    } else {
      assert SplitAsciiWhitespace(tail) == SplitAsciiWhitespace(tail[1..]) == [];
    }
    SplitFirstToken(f, [SPACE] + (t + tail));
    assert ([SPACE] + (t + tail))[1..] == t + tail;
  }
}
