/** What one invocation promises about the log file: a recording run that
    writes nothing leaves it as it was, a run that panics on the environment
    leaves it untouched, `-r` on a missing log records instead, and `-r`
    removes the last segment, which takes a recording run back only when that
    run wrote something (a run that writes nothing writes no header). */
module HhFacts {
  import opened Bytes
  import opened Outcomes
  import opened HistFormat
  import opened Segments
  import opened Recorder
  import opened RecordFacts
  import opened RecordRuns
  import opened Hh

  /** The log a recording run appends its segment to: the old log, or the
      preamble of a new one. */
  function Base(world: World): bytes {
    if world.log.Some? then world.log.value else PREAMBLE
  }

  /** The entries a recording run writes. */
  ghost function WrittenBy(opts: Options, env: Env, world: World): seq<Entry>
    requires ParseHistFormat(env.histTimeFormat).Ok? && world.log != Some([])
  {
    var buf := OldLog(world);
    var offsets := if world.log.Some? then LineStarts(buf) else [];
    var cfg := RunConfig(opts, env, ParseHistFormat(env.histTimeFormat).value);
    Decide(Take(Candidates(HistoryLines(world.stdin), cfg), Limit(cfg)), buf, offsets).written
  }

  /** A recording run that does not panic appends, after `Base(world)`, one
      header and the lines of the entries it wrote; it prints something
      exactly when it wrote something. */
  lemma RecordAppendsOneSegment(opts: Options, env: Env, world: World)
    requires !world.stdinIsTerminal && !(world.log.Some? && opts.reset)
    requires RunSpec(opts, env, world).panic.None?
    ensures ParseHistFormat(env.histTimeFormat).Ok? && world.log != Some([])
    ensures var w := WrittenBy(opts, env, world);
            var user := GetUser(env);
            && RunSpec(opts, env, world).log == Some(Base(world) + Emit(user, w))
            && (RunSpec(opts, env, world).stderr == [] <==> w == [])
  {
    assert RunSpec(opts, env, world) == RecordSpecRun(opts, env, world);
    assert ParseHistFormat(env.histTimeFormat).Ok?;
    var cfg := RunConfig(opts, env, ParseHistFormat(env.histTimeFormat).value);
    var buf := OldLog(world);
    var offsets := if world.log.Some? then LineStarts(buf) else [];
    var prefix := if world.log.Some? then [] else PREAMBLE;
    var r := RecordSpec(world.stdin, prefix, buf, offsets, cfg);
    var w := WrittenBy(opts, env, world);
    assert RunSpec(opts, env, world) == Effect(Some(buf + r.appended), Stderr(r.echo), None);
    RecordWritesFew(world.stdin, prefix, buf, offsets, cfg);
    BaseAppend(world, Emit(cfg.user, w));
    if w != [] {
      assert |Echo(w)| > 0;
    }
  }

  lemma BaseAppend(world: World, e: bytes)
    ensures OldLog(world) + ((if world.log.Some? then [] else PREAMBLE) + e) == Base(world) + e
  {
    if world.log.Some? {
      assert [] + e == e;
    } else {
      assert [] + (PREAMBLE + e) == PREAMBLE + e;
    }
  }

  /** A recording run that writes nothing leaves the log as it was; a new log
      is created holding only the preamble. */
  lemma NothingWrittenKeepsLog(opts: Options, env: Env, world: World)
    requires !world.stdinIsTerminal && !(world.log.Some? && opts.reset)
    requires RunSpec(opts, env, world).panic.None? && RunSpec(opts, env, world).stderr == []
    ensures RunSpec(opts, env, world).log == Some(Base(world))
  {
    RecordAppendsOneSegment(opts, env, world);
    assert Emit(GetUser(env), WrittenBy(opts, env, world)) == [];
    assert Base(world) + [] == Base(world);
  }

  /** A missing or malformed HISTTIMEFORMAT ends a recording run before the
      log is opened: the log stays as it was (a missing one is not created)
      and no echo is printed. The empty log panics even earlier. */
  lemma BadFormatLeavesLog(opts: Options, env: Env, world: World)
    requires !world.stdinIsTerminal && !(world.log.Some? && opts.reset)
    requires ParseHistFormat(env.histTimeFormat).Panic?
    ensures RunSpec(opts, env, world) ==
            Effect(world.log, [],
                   Some(if world.log == Some([]) then Underflow else ParseHistFormat(env.histTimeFormat).cause))
  {
  }

  /** `-r` without a log does not reset: it records like a run without `-r`. */
  lemma ResetWithoutLogRecords(opts: Options, env: Env, world: World)
    requires world.log.None?
    ensures RunSpec(opts.(reset := true), env, world) == RunSpec(opts.(reset := false), env, world)
  {
  }

  /** `hh -r` right after a recording run that wrote something brings the log
      back to `Base(world)` (the old log, or, for a log the run created, the
      preamble: the file stays) exactly when the run's segment holds no `#>`
      after its header's own; `EmitHeaderOnly` gives a sufficient condition on
      the user name and the written fields. */
  lemma RecordThenReset(opts: Options, env: Env, world: World)
    requires !world.stdinIsTerminal && !(world.log.Some? && opts.reset)
    requires RunSpec(opts, env, world).panic.None? && RunSpec(opts, env, world).stderr != []
    ensures ParseHistFormat(env.histTimeFormat).Ok? && world.log != Some([])
    ensures var after := RunSpec(opts, env, world).log;
            var again := RunSpec(opts.(reset := true), env, World(after, world.stdinIsTerminal, world.stdin));
            && after.Some?
            && (again == Effect(Some(Base(world)), [], None) <==>
                NoSentinel(Emit(GetUser(env), WrittenBy(opts, env, world))[1..]))
  {
    RecordAppendsOneSegment(opts, env, world);
    var w := WrittenBy(opts, env, world);
    var user := GetUser(env);
    ResetUndoesRun(Base(world), user, w);
  }
}
