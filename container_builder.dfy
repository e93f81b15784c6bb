/**
 * Container setup: the command line, working directory and environment a
 * container starts with, edited step by step, and the `execvpe`-like
 * choice of the program file when it is started.
 */
module ContainerBuilders {
  import opened Wrappers
  import opened Ints
  import opened Chars
  import opened EnvVars

  const SLASH: u8 := 0x2f
  const COLON: u8 := 0x3a

  /** The parts of an image configuration a builder starts from. */
  datatype ImageConfig = ImageConfig(
    working_dir: Bytes,
    entrypoint: Option<seq<Bytes>>,
    cmd: seq<Bytes>,
    env: seq<Bytes>)

  /** Why `spawn` refuses: an earlier argument held a NUL, or the command line is empty. */
  datatype SpawnError = InvalidArgument | NoEntryPoint

  /** What the container is started with. */
  datatype Exec = Exec(filename: Bytes, working_dir: Bytes, argv: seq<Bytes>, env: seq<Bytes>)

  predicate AllCStrings(v: seq<Bytes>) { forall i :: 0 <= i < |v| ==> IsCString(v[i]) }

  /** The arguments that are C strings, in order: the ones `arg` keeps. */
  function Accepted(args: seq<Bytes>): (r: seq<Bytes>)
    ensures AllCStrings(args) ==> r == args
    ensures AllCStrings(r) && |r| <= |args|
  {
    if args == [] then []
    else
      var last := args[|args| - 1];
      var front := args[..|args| - 1];
      assert AllCStrings(args) ==> AllCStrings(front);
      if IsCString(last) then Accepted(front) + [last] else Accepted(front)
  }

  /** The command override after `arg` was called with each of `args` in turn. */
  function OverrideAfter(cmd_override: Option<seq<Bytes>>, args: seq<Bytes>): Option<seq<Bytes>> {
    if cmd_override.None? && Accepted(args) == [] then None
    else Some((if cmd_override.Some? then cmd_override.value else []) + Accepted(args))
  }

  /** One more argument: kept when it is a C string, dropped otherwise. */
  lemma AcceptedStep(args: seq<Bytes>, arg: Bytes)
    ensures Accepted(args + [arg]) == Accepted(args) + (if IsCString(arg) then [arg] else [])
  {
    assert (args + [arg])[..|args|] == args;
  }

  /** Whether any argument holds a NUL byte. */
  predicate AnyNul(args: seq<Bytes>) { exists i :: 0 <= i < |args| && !IsCString(args[i]) }

  /** The environment after `env` was called with each pair of `vars` in turn. */
  function EnvAfter(items: seq<Bytes>, vars: seq<(Bytes, Bytes)>): seq<Bytes> {
    if vars == [] then items
    else
      var before := EnvAfter(items, vars[..|vars| - 1]);
      var (key, value) := vars[|vars| - 1];
      var joined := Join(key, Some(value));
      if joined.Ok? then SetIn(before, key, joined.value) else before
  }

  predicate AnyPairNul(vars: seq<(Bytes, Bytes)>) {
    exists i :: 0 <= i < |vars| && Join(vars[i].0, Some(vars[i].1)).Err?
  }

  /** `argv`: the entrypoint followed by the override if any argument was given, else the image's command. */
  function Argv(entrypoint: seq<Bytes>, cmd_default: seq<Bytes>, cmd_override: Option<seq<Bytes>>): seq<Bytes> {
    entrypoint + (if cmd_override.Some? then cmd_override.value else cmd_default)
  }

  predicate IsAbsolute(p: Bytes) { |p| > 0 && p[0] == SLASH }

  /**
   * `PathBuf::push`: an absolute path replaces the buffer; a relative one
   * is appended after a separator, unless the buffer is empty or already
   * ends in one.
   */
  function PathPush(buf: Bytes, p: Bytes): Bytes {
    if IsAbsolute(p) then p
    else if |buf| > 0 && buf[|buf| - 1] != SLASH then buf + [SLASH] + p
    else buf + p
  }

  /** What a push leaves: the path alone, or the buffer, at most one slash, and the path; C strings stay C strings. */
  lemma PathPushShape(buf: Bytes, p: Bytes)
    ensures var r := PathPush(buf, p);
      && (IsAbsolute(p) ==> r == p)
      && (!IsAbsolute(p) ==> |r| - |p| - |buf| in {0, 1} && r[..|buf|] == buf && r[|r| - |p|..] == p)
      && (!IsAbsolute(p) && |buf| > 0 ==> r[|r| - |p| - 1] == SLASH)
      && (IsCString(buf) && IsCString(p) ==> IsCString(r))
  {
  }

  /** The file tried for one `PATH` entry: the entry under the working directory, then the name under that. */
  function Candidate(working_dir: Bytes, dir: Bytes, filename: Bytes): Bytes {
    PathPush(PathPush(working_dir, dir), filename)
  }

  /** The files tried, one per `PATH` entry, in order. */
  function Candidates(dirs: seq<Bytes>, working_dir: Bytes, filename: Bytes): (cs: seq<Bytes>)
    ensures |cs| == |dirs|
  {
    if dirs == [] then [] else [Candidate(working_dir, dirs[0], filename)] + Candidates(dirs[1..], working_dir, filename)
  }

  /** The first candidate that opens. */
  function FirstOpen(cands: seq<Bytes>, opens: Bytes -> bool): (r: Option<nat>)
    ensures r.Some? ==> r.value < |cands| && opens(cands[r.value])
    ensures r.Some? ==> forall j :: 0 <= j < r.value ==> !opens(cands[j])
    ensures r.None? <==> forall j :: 0 <= j < |cands| ==> !opens(cands[j])
  {
    FirstOpenFrom(cands, 0, opens)
  }

  /** The first candidate at or after `i` that opens. */
  function FirstOpenFrom(cands: seq<Bytes>, i: nat, opens: Bytes -> bool): (r: Option<nat>)
    requires i <= |cands|
    ensures r.Some? ==> i <= r.value < |cands| && opens(cands[r.value])
    ensures r.Some? ==> forall j :: i <= j < r.value ==> !opens(cands[j])
    ensures r.None? <==> forall j :: i <= j < |cands| ==> !opens(cands[j])
    decreases |cands| - i
  {
    if i == |cands| then None
    else if opens(cands[i]) then Some(i)
    else FirstOpenFrom(cands, i + 1, opens)
  }

  /** The `PATH` entries, when the environment gives `PATH` a value. */
  function SearchDirs(env: seq<Bytes>): Option<seq<Bytes>> {
    var path := Lookup(env, PATH);
    if path.Some? && path.value.Some? then Some(Split(path.value.value, COLON)) else None
  }

  /** The program file: a name with a slash as it is, else the first `PATH` candidate that opens, else the name. */
  function Resolve(name: Bytes, env: seq<Bytes>, working_dir: Bytes, opens: Bytes -> bool): Bytes {
    var dirs := SearchDirs(env);
    if SLASH in name || dirs.None? then name
    else
      Searched(Candidates(dirs.value, working_dir, name), opens, name)
  }

  /** The first candidate that opens, or the name itself when none does. */
  function Searched(cands: seq<Bytes>, opens: Bytes -> bool, name: Bytes): Bytes {
    var i := FirstOpen(cands, opens);
    if i.None? then name else cands[i.value]
  }

  /** The result of `spawn` for the given settings. */
  function SpawnResult(
    arg_error: Result<(), NulError>, working_dir: Bytes, argv: seq<Bytes>, env: seq<Bytes>, opens: Bytes -> bool)
    : Result<Exec, SpawnError>
  {
    if arg_error.Err? then Err(InvalidArgument)
    else if argv == [] then Err(NoEntryPoint)
    else Ok(Exec(Resolve(argv[0], env, working_dir, opens), working_dir, argv, env))
  }

  /** `CString::new` over each string in order; the first NUL stops it. */
  method CollectCStrings(strs: seq<Bytes>) returns (r: Result<seq<Bytes>, NulError>)
    ensures r.Ok? <==> AllCStrings(strs)
    ensures r.Ok? ==> r.value == strs
    ensures r.Err? ==> r == Err(NulError)
  {
    var result := [];
    for i := 0 to |strs|
      invariant result == strs[..i] && AllCStrings(result)
    {
      var s := NewCString(strs[i]);
      if s.Err? {
        return Err(NulError);
      }
      result := result + [s.value];
    }
    assert strs[..|strs|] == strs;
    return Ok(result);
  }

  predicate ConfigOk(config: ImageConfig) {
    && IsCString(config.working_dir)
    && (config.entrypoint.Some? ==> AllCStrings(config.entrypoint.value))
    && AllCStrings(config.cmd)
    && AllCStrings(config.env)
  }

  class ContainerBuilder {
    var working_dir: Bytes
    var entrypoint: seq<Bytes>
    var cmd_default: seq<Bytes>
    var cmd_override: Option<seq<Bytes>>
    var env: EnvList
    var arg_error: Result<(), NulError>

    /** Every string held is a C string. */
    predicate Valid()
      reads this, env
    {
      && IsCString(working_dir)
      && AllCStrings(entrypoint)
      && AllCStrings(cmd_default)
      && (cmd_override.Some? ==> AllCStrings(cmd_override.value))
      && AllCStrings(env.items)
    }

    constructor(working_dir: Bytes, entrypoint: seq<Bytes>, cmd_default: seq<Bytes>, env: seq<Bytes>)
      ensures this.working_dir == working_dir && this.entrypoint == entrypoint
      ensures this.cmd_default == cmd_default && cmd_override.None?
      ensures fresh(this.env) && this.env.items == env && arg_error == Ok(())
    {
      this.working_dir := working_dir;
      this.entrypoint := entrypoint;
      this.cmd_default := cmd_default;
      this.cmd_override := None;
      this.env := new EnvList(env);
      this.arg_error := Ok(());
    }

    /**
     * `new`: the working directory, entrypoint, command and environment
     * of the image, each checked to be C strings; no override and no error yet.
     */
    static method New(config: ImageConfig) returns (r: Result<ContainerBuilder, NulError>)
      ensures r.Ok? <==> ConfigOk(config)
      ensures r.Ok? ==> fresh(r.value) && fresh(r.value.env) && r.value.Valid()
      ensures r.Ok? ==> r.value.working_dir == config.working_dir
      ensures r.Ok? ==> r.value.entrypoint == (if config.entrypoint.Some? then config.entrypoint.value else [])
      ensures r.Ok? ==> r.value.cmd_default == config.cmd && r.value.cmd_override.None?
      ensures r.Ok? ==> r.value.env.items == config.env && r.value.arg_error == Ok(())
    {
      var working_dir := NewCString(config.working_dir);
      if working_dir.Err? {
        return Err(NulError);
      }
      var entrypoint: seq<Bytes> := [];
      if config.entrypoint.Some? {
        var collected := CollectCStrings(config.entrypoint.value);
        if collected.Err? {
          return Err(NulError);
        }
        entrypoint := collected.value;
      }
      var cmd := CollectCStrings(config.cmd);
      if cmd.Err? {
        return Err(NulError);
      }
      var env := CollectCStrings(config.env);
      if env.Err? {
        return Err(NulError);
      }
      var b := new ContainerBuilder(working_dir.value, entrypoint, cmd.value, env.value);
      return Ok(b);
    }

    /** `arg`: a C string is appended to the override (started empty if absent); any other records the error. */
    method Arg(arg: Bytes)
      modifies this
      ensures IsCString(arg) ==> cmd_override == OverrideAfter(old(cmd_override), [arg]) && arg_error == old(arg_error)
      ensures !IsCString(arg) ==> cmd_override == old(cmd_override) && arg_error == Err(NulError)
      ensures working_dir == old(working_dir) && entrypoint == old(entrypoint)
      ensures cmd_default == old(cmd_default) && env == old(env)
      ensures old(Valid()) ==> Valid()
    {
      var c := NewCString(arg);
      if c.Err? {
        arg_error := Err(NulError);
      } else {
        if cmd_override.None? {
          cmd_override := Some([]);
        }
        cmd_override := Some(cmd_override.value + [c.value]);
      }
    }

    /** `args`: `arg` for each argument in turn. */
    method Args(args: seq<Bytes>)
      modifies this
      ensures cmd_override == OverrideAfter(old(cmd_override), args)
      ensures arg_error == if AnyNul(args) then Err(NulError) else old(arg_error)
      ensures working_dir == old(working_dir) && entrypoint == old(entrypoint)
      ensures cmd_default == old(cmd_default) && env == old(env)
      ensures old(Valid()) ==> Valid()
    {
      ghost var start := cmd_override;
      assert OverrideAfter(start, args[..0]) == start by {
        if start.Some? {
          assert start.value + [] == start.value;
        }
      }
      for i := 0 to |args|
        invariant cmd_override == OverrideAfter(start, args[..i])
        invariant arg_error == if AnyNul(args[..i]) then Err(NulError) else old(arg_error)
        invariant working_dir == old(working_dir) && entrypoint == old(entrypoint)
        invariant cmd_default == old(cmd_default) && env == old(env)
        invariant old(Valid()) ==> Valid()
      {
        ArgsStep(start, args, i);
        Arg(args[i]);
      }
      assert args[..|args|] == args;
    }

    /** `current_dir`: a C string becomes the working directory; any other records the error. */
    method CurrentDir(dir: Bytes)
      modifies this
      ensures IsCString(dir) ==> working_dir == dir && arg_error == old(arg_error)
      ensures !IsCString(dir) ==> working_dir == old(working_dir) && arg_error == Err(NulError)
      ensures entrypoint == old(entrypoint) && cmd_default == old(cmd_default)
      ensures cmd_override == old(cmd_override) && env == old(env)
      ensures old(Valid()) ==> Valid()
    {
      var c := NewCString(dir);
      if c.Err? {
        arg_error := Err(NulError);
      } else {
        working_dir := c.value;
      }
    }

    /** `entrypoint`: replaced as a whole when every argument is a C string; otherwise the error is recorded and nothing else changes. */
    method Entrypoint(args: seq<Bytes>)
      modifies this
      ensures AllCStrings(args) ==> entrypoint == args && arg_error == old(arg_error)
      ensures !AllCStrings(args) ==> entrypoint == old(entrypoint) && arg_error == Err(NulError)
      ensures working_dir == old(working_dir) && cmd_default == old(cmd_default)
      ensures cmd_override == old(cmd_override) && env == old(env)
      ensures old(Valid()) ==> Valid()
    {
      var collected := CollectCStrings(args);
      if collected.Err? {
        arg_error := Err(NulError);
        return;
      }
      entrypoint := collected.value;
    }

    /** `env`: sets `key=val` in the environment; a NUL in either records the error. */
    method Env(key: Bytes, val: Bytes)
      modifies this, env
      ensures env.items == EnvAfter(old(env.items), [(key, val)])
      ensures arg_error == if AnyPairNul([(key, val)]) then Err(NulError) else old(arg_error)
      ensures working_dir == old(working_dir) && entrypoint == old(entrypoint)
      ensures cmd_default == old(cmd_default) && cmd_override == old(cmd_override) && env == old(env)
      ensures old(Valid()) ==> Valid()
    {
      var r := env.Set(key, Some(val));
      if r.Err? {
        arg_error := Err(NulError);
      }
      assert [(key, val)][..0] == [];
      if old(Valid()) && r.Ok? {
        SetKeepsCStrings(old(env.items), key, Join(key, Some(val)).value);
      }
    }

    /** `envs`: `env` for each pair in turn. */
    method Envs(vars: seq<(Bytes, Bytes)>)
      modifies this, env
      ensures env.items == EnvAfter(old(env.items), vars)
      ensures arg_error == if AnyPairNul(vars) then Err(NulError) else old(arg_error)
      ensures working_dir == old(working_dir) && entrypoint == old(entrypoint)
      ensures cmd_default == old(cmd_default) && cmd_override == old(cmd_override) && env == old(env)
      ensures old(Valid()) ==> Valid()
    {
      for i := 0 to |vars|
        invariant env.items == EnvAfter(old(env.items), vars[..i])
        invariant arg_error == if AnyPairNul(vars[..i]) then Err(NulError) else old(arg_error)
        invariant working_dir == old(working_dir) && entrypoint == old(entrypoint)
        invariant cmd_default == old(cmd_default) && cmd_override == old(cmd_override) && env == old(env)
        invariant old(Valid()) ==> Valid()
      {
        EnvsStep(old(env.items), vars, i);
        Env(vars[i].0, vars[i].1);
      }
      assert vars[..|vars|] == vars;
    }

    /** `env_remove`: the first entry with the key goes; the rest stays. */
    method EnvRemove(key: Bytes)
      modifies env
      ensures env.items == RemoveIn(old(env.items), key)
      ensures old(Valid()) ==> Valid()
    {
      var _ := env.Remove(key);
      if old(Valid()) {
        RemoveKeepsCStrings(old(env.items), key);
      }
    }

    /** `env_clear`: no variables at all, not even the image's. */
    method EnvClear()
      modifies env
      ensures env.items == []
      ensures old(Valid()) ==> Valid()
    {
      env.Clear();
    }

    /** The program file `spawn` picks for the command name `name`. */
    method ProgramFile(name: Bytes, opens: Bytes -> bool) returns (filename: Bytes)
      ensures filename == Resolve(name, env.items, working_dir, opens)
    {
      filename := name;
      if SLASH !in name {
        var path := env.Get(PATH);
        if path.Some? && path.value.Some? {
          filename := SearchPath(Split(path.value.value, COLON), working_dir, name, opens);
        }
      }
    }

    /**
     * `spawn`: fails on a recorded argument error, then on an empty
     * command line; otherwise picks the program file as `execvpe` does.
     * `opens` says which paths the container's filesystem opens.
     */
    method Spawn(opens: Bytes -> bool) returns (r: Result<Exec, SpawnError>)
      ensures r == SpawnResult(arg_error, working_dir, Argv(entrypoint, cmd_default, cmd_override), env.items, opens)
    {
      if arg_error.Err? {
        return Err(InvalidArgument);
      }
      var argv := entrypoint;
      if cmd_override.None? {
        argv := argv + cmd_default;
      } else {
        argv := argv + cmd_override.value;
      }
      if argv == [] {
        return Err(NoEntryPoint);
      }
      var filename := ProgramFile(argv[0], opens);
      return Ok(Exec(filename, working_dir, argv, env.items));
    }
  }

  /**
   * The loop of `spawn` over the `PATH` entries: the first candidate that
   * opens, or the name itself when none does.
   */
  method SearchPath(dirs: seq<Bytes>, working_dir: Bytes, name: Bytes, opens: Bytes -> bool) returns (filename: Bytes)
    ensures filename == Searched(Candidates(dirs, working_dir, name), opens, name)
  {
    ghost var cands := Candidates(dirs, working_dir, name);
    var i := 0;
    while i < |dirs|
      invariant 0 <= i <= |dirs|
      invariant forall j :: 0 <= j < i ==> !opens(cands[j])
    {
      var buf := PathPush(PathPush(working_dir, dirs[i]), name);
      CandidateAt(dirs, working_dir, name, i);
      if opens(buf) {
        FirstOpenAt(cands, opens, name, i);
        return buf;
      }
      assert !opens(cands[i]);
      i := i + 1;
    }
    NoneOpens(cands, opens, name);
    return name;
  }

  /** With no candidate opening, the search gives the name back. */
  lemma NoneOpens(cands: seq<Bytes>, opens: Bytes -> bool, name: Bytes)
    requires forall j :: 0 <= j < |cands| ==> !opens(cands[j])
    ensures Searched(cands, opens, name) == name
  {
  }

  /** The `i`-th candidate is the entry pushed onto the working directory, then the name. */
  lemma {:induction false} CandidateAt(dirs: seq<Bytes>, working_dir: Bytes, name: Bytes, i: nat)
    requires i < |dirs|
    ensures Candidates(dirs, working_dir, name)[i] == PathPush(PathPush(working_dir, dirs[i]), name)
    decreases i
  {
    if i > 0 {
      CandidateAt(dirs[1..], working_dir, name, i - 1);
    }
  }

  /** Every candidate is the entry pushed onto the working directory, then the name. */
  lemma CandidatesAll(dirs: seq<Bytes>, working_dir: Bytes, name: Bytes)
    ensures forall j :: 0 <= j < |dirs| ==> Candidates(dirs, working_dir, name)[j] == Candidate(working_dir, dirs[j], name)
  {
    forall j | 0 <= j < |dirs|
      ensures Candidates(dirs, working_dir, name)[j] == Candidate(working_dir, dirs[j], name)
    {
      CandidateAt(dirs, working_dir, name, j);
    }
  }

  /** The first opening candidate is the one with none before it. */
  lemma FirstOpenAt(cands: seq<Bytes>, opens: Bytes -> bool, name: Bytes, i: nat)
    requires i < |cands| && opens(cands[i])
    requires forall j :: 0 <= j < i ==> !opens(cands[j])
    ensures FirstOpen(cands, opens) == Some(i)
    ensures Searched(cands, opens, name) == cands[i]
  {
  }

  /** One argument more: the override and the error after it. */
  lemma ArgsStep(start: Option<seq<Bytes>>, args: seq<Bytes>, i: nat)
    requires i < |args|
    ensures var before := OverrideAfter(start, args[..i]);
      IsCString(args[i]) ==> OverrideAfter(before, [args[i]]) == OverrideAfter(start, args[..i + 1])
    ensures !IsCString(args[i]) ==> OverrideAfter(start, args[..i]) == OverrideAfter(start, args[..i + 1])
    ensures AnyNul(args[..i + 1]) <==> AnyNul(args[..i]) || !IsCString(args[i])
  {
    var x := args[i];
    assert args[..i + 1] == args[..i] + [x];
    AcceptedStep(args[..i], x);
    if IsCString(x) {
      AcceptedStep([], x);
      assert [] + [x] == [x];
      var base := if start.Some? then start.value else [];
      assert (base + Accepted(args[..i])) + [x] == base + (Accepted(args[..i]) + [x]);
    }
    assert forall j :: 0 <= j < i ==> args[..i + 1][j] == args[..i][j];
  }

  /** One pair more: the environment and the error after it. */
  lemma EnvsStep(items: seq<Bytes>, vars: seq<(Bytes, Bytes)>, i: nat)
    requires i < |vars|
    ensures EnvAfter(EnvAfter(items, vars[..i]), [vars[i]]) == EnvAfter(items, vars[..i + 1])
    ensures AnyPairNul(vars[..i + 1]) <==> AnyPairNul(vars[..i]) || AnyPairNul([vars[i]])
  {
    var front, v := vars[..i], vars[i];
    assert vars[..i + 1] == front + [v];
    EnvAfterLast(items, front + [v]);
    EnvAfterLast(EnvAfter(items, front), [v]);
    assert (front + [v])[..i] == front;
    assert [v][..0] == front[..0];
    assert EnvAfter(EnvAfter(items, front), []) == EnvAfter(items, front);
    AnyPairNulStep(front, v);
  }

  lemma AnyPairNulStep(front: seq<(Bytes, Bytes)>, v: (Bytes, Bytes))
    ensures AnyPairNul(front + [v]) <==> AnyPairNul(front) || AnyPairNul([v])
  {
    assert forall j :: 0 <= j < |front| ==> (front + [v])[j] == front[j];
    assert (front + [v])[|front|] == [v][0];
  }

  /** The last pair is set on what the others left. */
  lemma EnvAfterLast(items: seq<Bytes>, vars: seq<(Bytes, Bytes)>)
    requires vars != []
    ensures var before := EnvAfter(items, vars[..|vars| - 1]);
      var joined := Join(vars[|vars| - 1].0, Some(vars[|vars| - 1].1));
      EnvAfter(items, vars) == if joined.Ok? then SetIn(before, vars[|vars| - 1].0, joined.value) else before
  {
  }

  /** Setting a C string keeps every entry a C string. */
  lemma SetKeepsCStrings(items: seq<Bytes>, key: Bytes, joined: Bytes)
    requires AllCStrings(items) && IsCString(joined)
    ensures AllCStrings(SetIn(items, key, joined))
  {
  }

  /** Removing an entry keeps the others C strings. */
  lemma RemoveKeepsCStrings(items: seq<Bytes>, key: Bytes)
    requires AllCStrings(items)
    ensures AllCStrings(RemoveIn(items, key))
  {
    var i := FirstMatch(items, key);
    if i.Some? {
      var r := RemoveIn(items, key);
      assert forall j :: 0 <= j < |r| ==> r[j] == items[if j < i.value then j else j + 1] by {
        assert r[..i.value] == items[..i.value] && r[i.value..] == items[i.value + 1..];
      }
    }
  }

  /**
   * What `spawn` gives: a recorded error first, then an empty command line;
   * otherwise the command line with the resolved program, the working
   * directory and the environment.
   */
  lemma SpawnOutcome(arg_error: Result<(), NulError>, working_dir: Bytes, entrypoint: seq<Bytes>,
    cmd_default: seq<Bytes>, cmd_override: Option<seq<Bytes>>, env: seq<Bytes>, opens: Bytes -> bool)
    ensures var argv := Argv(entrypoint, cmd_default, cmd_override);
      var r := SpawnResult(arg_error, working_dir, argv, env, opens);
      && (r == Err(InvalidArgument) <==> arg_error.Err?)
      && (r == Err(NoEntryPoint) <==> arg_error.Ok? && entrypoint == [] && CommandOf(cmd_default, cmd_override) == [])
      && (r.Ok? ==> r.value.argv[..|entrypoint|] == entrypoint && r.value.argv[|entrypoint|..] == CommandOf(cmd_default, cmd_override))
      && (r.Ok? ==> r.value.working_dir == working_dir && r.value.env == env)
      && (r.Ok? ==> r.value.filename == Resolve(r.value.argv[0], env, working_dir, opens))
  {
  }

  /** The command after the entrypoint: the override once an argument was given, else the image's. */
  function CommandOf(cmd_default: seq<Bytes>, cmd_override: Option<seq<Bytes>>): seq<Bytes> {
    if cmd_override.Some? then cmd_override.value else cmd_default
  }

  /**
   * The program is looked up in `PATH` only for a name without a slash,
   * and only when `PATH` has a value; then the first entry whose candidate
   * opens wins, and with none the name stays as it is.
   */
  lemma ResolveSearch(name: Bytes, env: seq<Bytes>, working_dir: Bytes, opens: Bytes -> bool)
    ensures SLASH in name ==> Resolve(name, env, working_dir, opens) == name
    ensures SearchDirs(env).None? ==> Resolve(name, env, working_dir, opens) == name
    ensures SLASH !in name && SearchDirs(env).Some? ==>
      var dirs := SearchDirs(env).value;
      && (forall i :: 0 <= i < |dirs| && opens(Candidate(working_dir, dirs[i], name))
            && (forall j :: 0 <= j < i ==> !opens(Candidate(working_dir, dirs[j], name)))
            ==> Resolve(name, env, working_dir, opens) == Candidate(working_dir, dirs[i], name))
      && ((forall j :: 0 <= j < |dirs| ==> !opens(Candidate(working_dir, dirs[j], name)))
            ==> Resolve(name, env, working_dir, opens) == name)
  {
    if SLASH !in name && SearchDirs(env).Some? {
      var dirs := SearchDirs(env).value;
      var cands := Candidates(dirs, working_dir, name);
      CandidatesAll(dirs, working_dir, name);
      forall i | 0 <= i < |dirs| && opens(Candidate(working_dir, dirs[i], name))
          && (forall j :: 0 <= j < i ==> !opens(Candidate(working_dir, dirs[j], name)))
        ensures Resolve(name, env, working_dir, opens) == Candidate(working_dir, dirs[i], name)
      {
        assert forall j :: 0 <= j < i ==> !opens(cands[j]);
        FirstOpenAt(cands, opens, name, i);
      }
    }
  }

  /** A byte missing from a sequence is missing from every part of its split. */
  lemma {:induction false} SplitPartsOmit<T>(s: seq<T>, c: T, x: T)
    requires x !in s
    ensures forall k :: 0 <= k < |Split(s, c)| ==> x !in Split(s, c)[k]
    decreases |s|
  {
    var f := Find(s, c);
    if f.Some? {
      assert forall k :: 0 <= k < f.value ==> s[..f.value][k] == s[k];
      assert x !in s[f.value + 1..];
      SplitPartsOmit(s[f.value + 1..], c, x);
    }
  }

  /**
   * The program file is a C string whenever the settings are, so the
   * `CString::new` of the found path cannot fail.
   */
  lemma ResolvedIsCString(name: Bytes, env: seq<Bytes>, working_dir: Bytes, opens: Bytes -> bool)
    requires IsCString(name) && IsCString(working_dir) && AllCStrings(env)
    ensures IsCString(Resolve(name, env, working_dir, opens))
  {
    var dirs := SearchDirs(env);
    SearchDirsCStrings(env);
    if SLASH !in name && dirs.Some? {
      var found := FirstOpen(Candidates(dirs.value, working_dir, name), opens);
      if found.Some? {
        var dir := dirs.value[found.value];
        CandidateAt(dirs.value, working_dir, name, found.value);
        PathPushShape(working_dir, dir);
        PathPushShape(PathPush(working_dir, dir), name);
      }
    }
  }

  /** The `PATH` entries of an environment of C strings are C strings. */
  lemma SearchDirsCStrings(env: seq<Bytes>)
    requires AllCStrings(env)
    ensures SearchDirs(env).Some? ==> forall k :: 0 <= k < |SearchDirs(env).value| ==> IsCString(SearchDirs(env).value[k])
  {
    if SearchDirs(env).Some? {
      var i := FirstMatch(env, PATH).value;
      var path := SplitEntry(env[i]).1.value;
      assert env[i] == SplitEntry(env[i]).0 + [EQUALS] + path;
      assert forall k :: 0 <= k < |path| ==> path[k] == env[i][|SplitEntry(env[i]).0| + 1 + k];
      SplitPartsOmit(path, COLON, NUL);
    }
  }

  /** A command line of C strings, once given, is the whole override after the old one. */
  lemma ArgsAppend(cmd_override: Option<seq<Bytes>>, args: seq<Bytes>)
    requires AllCStrings(args) && args != []
    ensures OverrideAfter(cmd_override, args) == Some((if cmd_override.Some? then cmd_override.value else []) + args)
  {
  }

  /** The override stays absent while no argument is accepted, so the image's command still runs. */
  lemma ArgsAllRefused(args: seq<Bytes>)
    requires forall i :: 0 <= i < |args| ==> !IsCString(args[i])
    ensures OverrideAfter(None, args) == None
    decreases |args|
  {
    if args != [] {
      ArgsAllRefused(args[..|args| - 1]);
    }
  }

  /** The last pair given to `envs` for a key decides its value. */
  lemma EnvsLastWins(items: seq<Bytes>, vars: seq<(Bytes, Bytes)>)
    requires vars != [] && EQUALS !in vars[|vars| - 1].0
    requires Join(vars[|vars| - 1].0, Some(vars[|vars| - 1].1)).Ok?
    ensures Lookup(EnvAfter(items, vars), vars[|vars| - 1].0) == Some(Some(vars[|vars| - 1].1))
  {
    var (key, val) := vars[|vars| - 1];
    EnvAfterLast(items, vars);
    LookupAfterSet(EnvAfter(items, vars[..|vars| - 1]), key, Some(val));
  }
}
