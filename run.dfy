/** One invocation of `hh` (src/main.rs, `main`): with `-r` and an existing
    log, the log is cut back at its last segment header; otherwise, when
    standard input is not a terminal, the history read from it is recorded
    into the log (created with a preamble when missing) and what was written
    is echoed on standard error. The file system, standard input, the
    environment and the parsed command line are given as values. */
module Hh {
  import opened Bytes
  import opened Outcomes
  import opened HistFormat
  import opened IgnoreFilter
  import opened Segments
  import opened Recorder

  /** The environment variables `hh` reads, and what `whoami` prints (`None`
      when it cannot be run or its output is not UTF-8). */
  datatype Env = Env(
    user: Option<bytes>,
    whoami: Option<bytes>,
    histIgnore: Option<bytes>,
    hhIgnore: Option<bytes>,
    histTimeFormat: Option<bytes>)

  /** The parsed command line: `INT`, `-i`, `-s` and `-r`. */
  datatype Options = Options(count: nat, index: nat, noSmart: bool, reset: bool)

  /** The log file (`None` when it does not exist) and standard input. */
  datatype World = World(log: Option<bytes>, stdinIsTerminal: bool, stdin: bytes)

  /** What a run leaves: the log file, the echo it printed to standard error,
      and the panic that ended the run, if any (the panic's own message is
      not part of `stderr`). */
  datatype Effect = Effect(log: Option<bytes>, stderr: bytes, panic: Option<Cause>)

  const UNKNOWN: bytes := [0x75, 0x6E, 0x6B, 0x6E, 0x6F, 0x77, 0x6E]

  /** `get_user`: `$USER`, else the output of `whoami`, else `unknown`. */
  function GetUser(env: Env): (u: bytes)
    ensures env.user.Some? ==> u == env.user.value
    ensures env.user.None? && env.whoami.Some? ==> u == env.whoami.value
    ensures env.user.None? && env.whoami.None? ==> u == UNKNOWN
  {
    if env.user.Some? then env.user.value
    else if env.whoami.Some? then env.whoami.value
    else UNKNOWN
  }

  /** `eprintln!("\x1b[1;35m{}\x1b[0m", log)` when the echo is not empty. */
  function Stderr(log: bytes): (s: bytes)
    ensures s == [] <==> log == []
    ensures log != [] ==> |s| == |log| + 12 && s[7..7 + |log|] == log
  {
    if log == [] then []
    else [0x1B, 0x5B, 0x31, 0x3B, 0x33, 0x35, 0x6D] + log + [0x1B, 0x5B, 0x30, 0x6D, NEWLINE]
  }

  /** The log as it stands when the record loop starts appending: the old
      log, or nothing for a new one (whose preamble the writer holds). */
  function OldLog(world: World): bytes {
    if world.log.Some? then world.log.value else []
  }

  /** The settings of a recording run. */
  function RunConfig(opts: Options, env: Env, fields: nat): Config {
    Config(GetUser(env), Pieces(env.histIgnore) + Pieces(env.hhIgnore), fields + 1,
           opts.count, opts.index, opts.noSmart)
  }

  /** What one run does. */
  function RunSpec(opts: Options, env: Env, world: World): Effect {
    if world.log.Some? && opts.reset then ResetSpec(world.log.value)
    else if world.stdinIsTerminal then Effect(world.log, [], None)
    else RecordSpecRun(opts, env, world)
  }

  /** `hh -r` on an existing log. */
  function ResetSpec(log: bytes): Effect {
    match Reset(log)
    case Panic(c) => Effect(Some(log), [], Some(c))
    case Ok(t) => Effect(Some(t), [], None)
  }

  /** A recording run: the last segment of the log is read (an empty log
      panics), then the user, the ignore set and the time format; the history
      is recorded and the echo printed. */
  function RecordSpecRun(opts: Options, env: Env, world: World): Effect {
    if world.log == Some([]) then
      Effect(world.log, [], Some(Underflow))
    else
      match ParseHistFormat(env.histTimeFormat)
      case Panic(c) => Effect(world.log, [], Some(c))
      case Ok(fields) =>
        var buf := OldLog(world);
        var offsets := if world.log.Some? then LineStarts(buf) else [];
        var prefix := if world.log.Some? then [] else PREAMBLE;
        match RecordSpec(world.stdin, prefix, buf, offsets, RunConfig(opts, env, fields))
        case Done(app, echo) => Effect(Some(buf + app), Stderr(echo), None)
        case Aborted(app) => Effect(Some(buf + app), [], Some(IndexOutOfBounds))
  }

  /** `main` after the command line is parsed. */
  method Run(opts: Options, env: Env, world: World) returns (eff: Effect)
    ensures eff == RunSpec(opts, env, world)
  {
    if world.log.Some? && opts.reset {
      eff := ResetLog(world.log.value);
    } else if world.stdinIsTerminal {
      eff := Effect(world.log, [], None);
    } else {
      eff := RecordRun(opts, env, world);
    }
  }

  /** The `-r` branch: truncate at the last header when the scan found one. */
  method ResetLog(buf: bytes) returns (eff: Effect)
    ensures eff == ResetSpec(buf)
  {
    var last := GetLastCmdIndex(buf);
    if last.Panic? {
      return Effect(Some(buf), [], Some(last.cause));
    }
    if last.value > 0 {
      return Effect(Some(buf[..last.value]), [], None);
    }
    return Effect(Some(buf), [], None);
  }

  /** The recording branch. */
  method RecordRun(opts: Options, env: Env, world: World) returns (eff: Effect)
    ensures eff == RecordSpecRun(opts, env, world)
  {
    var buf: bytes := [];
    var offsets: seq<nat> := [];
    if world.log.Some? {
      buf := world.log.value;
      var read := ReadLastCmd(buf);
      if read.Panic? {
        return Effect(world.log, [], Some(read.cause));
      }
      offsets := read.value;
    }
    var user := GetUser(env);
    var skip := ParseHistIgnore(env.histIgnore, env.hhIgnore);
    var fields := ParseHistFormat(env.histTimeFormat);
    if fields.Panic? {
      return Effect(world.log, [], Some(fields.cause));
    }
    var cfg := Config(user, skip, fields.value + 1, opts.count, opts.index, opts.noSmart);
    assert cfg == RunConfig(opts, env, fields.value);
    var prefix := if world.log.Some? then [] else PREAMBLE;
    var r := RecordCommands(world.stdin, prefix, buf, offsets, cfg);
    if r.Aborted? {
      return Effect(Some(buf + r.appended), [], Some(IndexOutOfBounds));
    }
    return Effect(Some(buf + r.appended), Stderr(r.echo), None);
  }
}
