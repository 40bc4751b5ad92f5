/**
 * The `execFile` wrapper used by the MCP server: the child environment it
 * builds, the options it passes, and how the callback settles the promise.
 */
module GovcProcess {
  import opened Wrappers
  import opened Json
  import opened Text

  const DefaultTimeoutMs := 60000

  /** `maxBuffer`: 10 MiB. */
  const MaxBuffer := 10 * 1024 * 1024

  /** `Object.entries(process.env)`; `None` stands for an undefined value. */
  type Environment = seq<Entry<Option<string>>>

  predicate IsGovcVar(key: string) {
    StartsWith(key, "GOVC_")
  }

  /** `process.env[k]` when it is set and not empty. */
  function SetAndNonEmpty(env: Environment, k: string): (o: Option<string>)
    ensures o.Some? ==> o.value != "" && Get(env, k) == Some(Some(o.value))
    ensures o.None? ==> Get(env, k).None? || Get(env, k).value.None? || Get(env, k).value.value == ""
  {
    var o: Option<Option<string>> := Get(env, k);
    if o.Some? && o.value.Some? && o.value.value != "" then Some(o.value.value) else None
  }

  /** The `GOVC_*` entries the copy loop puts into the child environment, in order. */
  function GovcVars(env: Environment): seq<Entry<string>> {
    if env == [] then []
    else
      var acc := GovcVars(env[..|env| - 1]);
      var e := env[|env| - 1];
      if IsGovcVar(e.key) && e.val.Some? then Put(acc, e.key, e.val.value) else acc
  }

  /** `govcEnv` after the loop and the `PATH` and `HOME` assignments. */
  function ChildEnvironment(env: Environment): seq<Entry<string>> {
    var withPath :=
      if SetAndNonEmpty(env, "PATH").Some? then Put(GovcVars(env), "PATH", SetAndNonEmpty(env, "PATH").value)
      else GovcVars(env);
    if SetAndNonEmpty(env, "HOME").Some? then Put(withPath, "HOME", SetAndNonEmpty(env, "HOME").value)
    else withPath
  }

  method BuildChildEnv(env: Environment) returns (govcEnv: seq<Entry<string>>)
    ensures govcEnv == ChildEnvironment(env)
  {
    govcEnv := [];
    for i := 0 to |env|
      invariant govcEnv == GovcVars(env[..i])
    {
      var e := env[i];
      assert env[..i + 1][..i] == env[..i];
      if StartsWith(e.key, "GOVC_") && e.val.Some? {
        govcEnv := Put(govcEnv, e.key, e.val.value);
      }
    }
    assert env[..|env|] == env;
    var path := SetAndNonEmpty(env, "PATH");
    if path.Some? {
      govcEnv := Put(govcEnv, "PATH", path.value);
    }
    var home := SetAndNonEmpty(env, "HOME");
    if home.Some? {
      govcEnv := Put(govcEnv, "HOME", home.value);
    }
  }

  /** The value a `GOVC_*` variable has in the parent, when defined. */
  function DefinedValue(env: Environment, k: string): Option<string> {
    var o: Option<Option<string>> := Get(env, k);
    if o.Some? then o.value else None
  }

  /** The copy loop keeps exactly the defined `GOVC_*` variables, values verbatim. */
  lemma {:induction false} GovcVarsLookup(env: Environment, k: string)
    requires DistinctKeys(env)
    ensures Get(GovcVars(env), k) == if IsGovcVar(k) then DefinedValue(env, k) else None
    decreases |env|
  {
    if env != [] {
      var p := env[..|env| - 1];
      var e := env[|env| - 1];
      assert env == p + [e];
      DistinctSnoc(env);
      GovcVarsLookup(p, k);
      GetSnoc(p, e, k);
      if IsGovcVar(e.key) && e.val.Some? && e.key != k {
        PutKeepsOthers(GovcVars(p), e.key, e.val.value, k);
      }
    }
  }

  lemma BasicsAreNotGovcVars()
    ensures !IsGovcVar("PATH") && !IsGovcVar("HOME") && "PATH" != "HOME"
  {
    assert |"PATH"| == 4 && |"HOME"| == 4;
    assert "PATH"[0] == 'P' && "HOME"[0] == 'H';
  }

  /**
   * What the child sees under each name: `PATH` and `HOME` when set and not
   * empty, every defined `GOVC_*` variable verbatim, and nothing else.
   */
  lemma ChildEnvironmentLookup(env: Environment, k: string)
    requires DistinctKeys(env)
    ensures Get(ChildEnvironment(env), k) ==
      if k == "PATH" || k == "HOME" then SetAndNonEmpty(env, k)
      else if IsGovcVar(k) then DefinedValue(env, k)
      else None
  {
    BasicsAreNotGovcVars();
    GovcVarsLookup(env, k);
    var g := GovcVars(env);
    var path := SetAndNonEmpty(env, "PATH");
    var home := SetAndNonEmpty(env, "HOME");
    var withPath := if path.Some? then Put(g, "PATH", path.value) else g;
    if path.Some? && k != "PATH" {
      PutKeepsOthers(g, "PATH", path.value, k);
    }
    if k == "PATH" && path.None? {
      GovcVarsLookup(env, "PATH");
    }
    if home.Some? && k != "HOME" {
      PutKeepsOthers(withPath, "HOME", home.value, k);
    }
    if k == "HOME" && home.None? {
      GovcVarsLookup(env, "HOME");
      if path.Some? {
        PutKeepsOthers(g, "PATH", path.value, "HOME");
      }
    }
  }

  /** The child environment holds `GOVC_*` variables, `PATH` and `HOME`, and no other name. */
  lemma ChildEnvironmentNames(env: Environment, k: string)
    requires DistinctKeys(env)
    ensures k in Keys(ChildEnvironment(env)) ==> IsGovcVar(k) || k == "PATH" || k == "HOME"
  {
    ChildEnvironmentLookup(env, k);
  }

  // ---- The callback -----------------------------------------------------------

  /** The `code` of an `execFile` error: absent, a number (the exit status), or anything else. */
  datatype ErrorCode = NoCode | NumericCode(n: int) | OtherCode

  datatype ExecError = ExecError(killed: bool, code: ErrorCode)

  /** The exit code the callback reports. */
  function ExitCodeOf(error: Option<ExecError>): (c: int)
    ensures error.None? ==> c == 0
    ensures error.Some? && error.value.code.NumericCode? ==> c == error.value.code.n
    ensures error.Some? && !error.value.code.NumericCode? ==> c == 1
    ensures c == 0 <==> error.None? || error.value.code == NumericCode(0)
  {
    match error
    case None => 0
    case Some(e) => if e.code.NumericCode? then e.code.n else 1
  }

  /** How the promise settles. */
  datatype Settled = Resolved(stdout: string, stderr: string, exitCode: int) | Rejected(message: string)

  /** The callback: a killed child rejects, anything else resolves with the streams (or `''`). */
  function Settle(error: Option<ExecError>, stdout: Option<string>, stderr: Option<string>, timeoutMs: int): (s: Settled)
    ensures s.Rejected? <==> error.Some? && error.value.killed
    ensures s.Rejected? ==> s.message == "govc command timed out after " + IntToString(timeoutMs) + "ms"
    ensures s.Resolved? ==>
      s.stdout == stdout.GetOr("") && s.stderr == stderr.GetOr("") && s.exitCode == ExitCodeOf(error)
  {
    if error.Some? && error.value.killed then
      Rejected("govc command timed out after " + IntToString(timeoutMs) + "ms")
    else
      Resolved(stdout.GetOr(""), stderr.GetOr(""), ExitCodeOf(error))
  }

  /** The `execFile` call: program, arguments, environment and options. */
  datatype ExecRequest = ExecRequest(
    file: string,
    args: seq<string>,
    env: seq<Entry<string>>,
    timeoutMs: int,
    maxBuffer: int)

  /** `execGovc(args, timeoutMs = DEFAULT_TIMEOUT_MS)` up to the `execFile` call. */
  method PrepareExec(args: seq<string>, timeoutMs: Option<int>, env: Environment) returns (req: ExecRequest)
    ensures req.file == "govc" && req.args == args
    ensures req.env == ChildEnvironment(env)
    ensures req.timeoutMs == timeoutMs.GetOr(DefaultTimeoutMs)
    ensures req.maxBuffer == 10485760
  {
    var govcEnv := BuildChildEnv(env);
    req := ExecRequest("govc", args, govcEnv, timeoutMs.GetOr(DefaultTimeoutMs), MaxBuffer);
  }
}
