/** Hook plumbing (Hooks.cs, and the copies of `RunPostHook` and `RunHook` in
    Flows/DownloadFlow.cs): splitting a hook command, the environment passed
    to the hook process, running it, and the per-command accumulator of
    results for post hooks. Starting the process is an answer given in
    advance for each start request. */
module Hooks {
  import opened Wrappers
  import opened Text
  import opened Runtime
  import opened Results

  /** A `ProcessStartInfo`: the executable, the arguments if set, and the
      environment the process will get (a variable may be set to null). */
  datatype StartInfo = StartInfo(fileName: string, arguments: Option<string>, environment: map<string, Option<string>>)

  /** What starting the process gave: it could not be started, or it ran to
      its exit code. */
  datatype Launch = FailedToStart | Exited(exitCode: int)

  /** `command.Split(new[] { ' ' }, 2)`: the executable before the first space
      and, when there is a space, the arguments after it. */
  function SplitCommand(command: string): (r: (string, Option<string>))
    ensures ' ' !in r.0
    ensures r.1.Some? <==> ' ' in command
    ensures (if r.1.Some? then r.0 + " " + r.1.value else r.0) == command
  {
    var parts := SplitFirst(command, ' ');
    if |parts| > 1 then (parts[0], Some(parts[1])) else (parts[0], None)
  }

  /** `new ProcessStartInfo(parts[0])`, with `Arguments = parts[1]` when there
      is one; the environment starts as a copy of the current process's. */
  function NewStartInfo(command: string, parentEnv: map<string, string>): (info: StartInfo)
    ensures (info.fileName, info.arguments) == SplitCommand(command)
    ensures info.environment.Keys == parentEnv.Keys
    ensures forall k | k in parentEnv :: info.environment[k] == Some(parentEnv[k])
  {
    var (fileName, arguments) := SplitCommand(command);
    StartInfo(fileName, arguments, map k | k in parentEnv :: Some(parentEnv[k]))
  }

  /** `EnvironmentVariables.Add(key, value)`: adding a variable that is
      already there throws. */
  function AddVariable(info: StartInfo, key: string, value: Option<string>): (r: Result<StartInfo, Exc>)
    ensures r.Err? <==> key in info.environment
    ensures r.Err? ==> r.error == Argument
    ensures r.Ok? ==> r.value == info.(environment := info.environment[key := value])
  {
    if key in info.environment then Err(Argument) else Ok(info.(environment := info.environment[key := value]))
  }

  /** The start request of `RunDeployHook(command, result)`: the certificate's
      name and thumbprint always, and its path when the path is neither null
      nor empty. */
  function DeployStartInfo(command: string, result: DownloadResult, parentEnv: map<string, string>): (r: Result<StartInfo, Exc>)
    ensures r.Err? <==>
      || "CERTIFICATE_NAME" in parentEnv
      || "CERTIFICATE_THUMBPRINT" in parentEnv
      || (!IsNullOrEmpty(result.path) && "CERTIFICATE_PATH" in parentEnv)
    ensures r.Ok? ==>
      && (r.value.fileName, r.value.arguments) == SplitCommand(command)
      && r.value.environment.Keys == parentEnv.Keys + {"CERTIFICATE_NAME", "CERTIFICATE_THUMBPRINT"} +
           (if IsNullOrEmpty(result.path) then {} else {"CERTIFICATE_PATH"})
      && r.value.environment["CERTIFICATE_NAME"] == result.certificateName
      && r.value.environment["CERTIFICATE_THUMBPRINT"] == result.thumbprint
      && (!IsNullOrEmpty(result.path) ==> r.value.environment["CERTIFICATE_PATH"] == result.path)
      && forall k | k in parentEnv :: r.value.environment[k] == Some(parentEnv[k])
  {
    var info := NewStartInfo(command, parentEnv);
    var withName := AddVariable(info, "CERTIFICATE_NAME", result.certificateName);
    if withName.Err? then Err(withName.error)
    else
      var withThumbprint := AddVariable(withName.value, "CERTIFICATE_THUMBPRINT", result.thumbprint);
      if withThumbprint.Err? then Err(withThumbprint.error)
      else if IsNullOrEmpty(result.path) then withThumbprint
      else AddVariable(withThumbprint.value, "CERTIFICATE_PATH", result.path)
  }

  /** The certificate names of the results, null rendered as empty. */
  function NamesOf(results: seq<DownloadResult>): (names: seq<string>)
    ensures |names| == |results|
    ensures forall i :: 0 <= i < |results| ==> names[i] == Show(results[i].certificateName)
  {
    if results == [] then [] else [Show(results[0].certificateName)] + NamesOf(results[1..])
  }

  /** The thumbprints of the results, null rendered as empty. */
  function ThumbprintsOf(results: seq<DownloadResult>): (thumbprints: seq<string>)
    ensures |thumbprints| == |results|
    ensures forall i :: 0 <= i < |results| ==> thumbprints[i] == Show(results[i].thumbprint)
  {
    if results == [] then [] else [Show(results[0].thumbprint)] + ThumbprintsOf(results[1..])
  }

  /** The start request of `RunPostHook(command, results)`: all names, and all
      thumbprints, each joined with ",". */
  function PostStartInfo(command: string, results: seq<DownloadResult>, parentEnv: map<string, string>): (r: Result<StartInfo, Exc>)
    ensures r.Err? <==> "CERTIFICATE_NAMES" in parentEnv || "CERTIFICATE_THUMBPRINTS" in parentEnv
    ensures r.Ok? ==>
      && (r.value.fileName, r.value.arguments) == SplitCommand(command)
      && r.value.environment.Keys == parentEnv.Keys + {"CERTIFICATE_NAMES", "CERTIFICATE_THUMBPRINTS"}
      && r.value.environment["CERTIFICATE_NAMES"] == Some(Join(NamesOf(results), ","))
      && r.value.environment["CERTIFICATE_THUMBPRINTS"] == Some(Join(ThumbprintsOf(results), ","))
      && forall k | k in parentEnv :: r.value.environment[k] == Some(parentEnv[k])
  {
    var info := NewStartInfo(command, parentEnv);
    var withNames := AddVariable(info, "CERTIFICATE_NAMES", Some(Join(NamesOf(results), ",")));
    if withNames.Err? then Err(withNames.error)
    else AddVariable(withNames.value, "CERTIFICATE_THUMBPRINTS", Some(Join(ThumbprintsOf(results), ",")))
  }

  /** The two lists of a post hook pair up: when no name or thumbprint
      contains ',', splitting both variables on ',' gives, at each position,
      the name and the thumbprint of the same result. */
  lemma PostHookPairs(command: string, results: seq<DownloadResult>, parentEnv: map<string, string>)
    requires PostStartInfo(command, results, parentEnv).Ok?
    requires |results| > 0
    requires forall i | 0 <= i < |results| :: ',' !in Show(results[i].certificateName) && ',' !in Show(results[i].thumbprint)
    ensures var env := PostStartInfo(command, results, parentEnv).value.environment;
      var names := Split(env["CERTIFICATE_NAMES"].value, ',');
      var thumbprints := Split(env["CERTIFICATE_THUMBPRINTS"].value, ',');
      && |names| == |thumbprints| == |results|
      && forall i | 0 <= i < |results| ::
           names[i] == Show(results[i].certificateName) && thumbprints[i] == Show(results[i].thumbprint)
  {
    var ns := NamesOf(results);
    var ts := ThumbprintsOf(results);
    assert forall p | p in ns :: ',' !in p;
    assert forall p | p in ts :: ',' !in p;
    SplitJoin(ns, ',');
    SplitJoin(ts, ',');
  }

  /** `RunHook(startInfo, type)`: -1 when the process cannot be started,
      otherwise its exit code. */
  function RunHook(info: StartInfo, launch: StartInfo -> Launch): (code: int)
    ensures launch(info).FailedToStart? ==> code == -1
    ensures launch(info).Exited? ==> code == launch(info).exitCode
    ensures code == 0 <==> launch(info) == Exited(0)
  {
    match launch(info)
    case FailedToStart => -1
    case Exited(exitCode) => if exitCode == 0 then 0 else exitCode
  }

  /** `RunDeployHook(command, result)`; building the request may throw. */
  function RunDeployHook(command: string, result: DownloadResult, parentEnv: map<string, string>, launch: StartInfo -> Launch)
    : Result<int, Exc>
  {
    var info := DeployStartInfo(command, result, parentEnv);
    if info.Err? then Err(info.error) else Ok(RunHook(info.value, launch))
  }

  /** `RunPostHook(command, results)`; building the request may throw. */
  function RunPostHook(command: string, results: seq<DownloadResult>, parentEnv: map<string, string>, launch: StartInfo -> Launch)
    : Result<int, Exc>
  {
    var info := PostStartInfo(command, results, parentEnv);
    if info.Err? then Err(info.error) else Ok(RunHook(info.value, launch))
  }

  /** A deploy hook throws (a variable it sets is already in the
      environment) before anything runs; otherwise its code is the hook
      process's, run with the deploy request. */
  lemma DeployHookOutcome(command: string, result: DownloadResult, parentEnv: map<string, string>, launch: StartInfo -> Launch)
    ensures var r := RunDeployHook(command, result, parentEnv, launch);
      var info := DeployStartInfo(command, result, parentEnv);
      && (r.Err? <==> info.Err?)
      && (r.Err? ==> r.error == Argument)
      && (r.Ok? ==> r.value == RunHook(info.value, launch))
  {
  }

  /** A post hook throws (a variable it sets is already in the environment)
      before anything runs; otherwise its code is the hook process's, run
      with the post request. */
  lemma PostHookOutcome(command: string, results: seq<DownloadResult>, parentEnv: map<string, string>, launch: StartInfo -> Launch)
    ensures var r := RunPostHook(command, results, parentEnv, launch);
      var info := PostStartInfo(command, results, parentEnv);
      && (r.Err? <==> info.Err?)
      && (r.Err? ==> r.error == Argument)
      && (r.Ok? ==> r.value == RunHook(info.value, launch))
  {
  }

  /** What each registered command's post hook gives, in order. */
  function Outcomes(commands: seq<string>, entries: map<string, seq<DownloadResult>>, parentEnv: map<string, string>,
                    launch: StartInfo -> Launch): (codes: seq<Result<int, Exc>>)
    requires forall c | c in commands :: c in entries
    ensures |codes| == |commands|
    ensures forall i | 0 <= i < |commands| :: codes[i] == RunPostHook(commands[i], entries[commands[i]], parentEnv, launch)
  {
    seq(|commands|, i requires 0 <= i < |commands| => RunPostHook(commands[i], entries[commands[i]], parentEnv, launch))
  }

  /** Running hooks with these outcomes in order: the first exception stops
      the run; otherwise whether some hook returned nonzero. */
  function RunAll(codes: seq<Result<int, Exc>>): Result<bool, Exc>
  {
    if codes == [] then Ok(false)
    else
      var failed := RunAll(codes[..|codes| - 1]);
      var code := codes[|codes| - 1];
      if failed.Err? then failed
      else if code.Err? then Err(code.error)
      else Ok(failed.value || code.value != 0)
  }

  /** The hooks complete without an exception and none fails exactly when
      every hook runs to exit code 0... */
  lemma {:induction false} RunAllSucceeds(codes: seq<Result<int, Exc>>)
    ensures RunAll(codes) == Ok(false) <==> forall i | 0 <= i < |codes| :: codes[i] == Ok(0)
  {
    if codes != [] {
      var init := codes[..|codes| - 1];
      RunAllSucceeds(init);
      assert forall i | 0 <= i < |init| :: init[i] == codes[i];
    }
  }

  /** ...they complete without an exception exactly when no hook throws... */
  lemma {:induction false} RunAllCompletes(codes: seq<Result<int, Exc>>)
    ensures RunAll(codes).Ok? <==> forall i | 0 <= i < |codes| :: codes[i].Ok?
  {
    if codes != [] {
      var init := codes[..|codes| - 1];
      RunAllCompletes(init);
      assert forall i | 0 <= i < |init| :: init[i] == codes[i];
    }
  }

  /** ...and an exception is the first one thrown. */
  lemma {:induction false} RunAllFirstError(codes: seq<Result<int, Exc>>, k: nat)
    requires k < |codes| && codes[k].Err?
    requires forall i | 0 <= i < k :: codes[i].Ok?
    ensures RunAll(codes) == Err(codes[k].error)
  {
    var init := codes[..|codes| - 1];
    if k < |codes| - 1 {
      RunAllFirstError(init, k);
    } else {
      RunAllCompletes(init);
    }
  }

  /** A hook that throws after hooks that completed ends the run with its
      exception. */
  lemma RunAllStops(codes: seq<Result<int, Exc>>, i: nat)
    requires i < |codes| && codes[i].Err?
    requires RunAll(codes[..i]).Ok?
    ensures RunAll(codes) == Err(codes[i].error)
  {
    RunAllCompletes(codes[..i]);
    assert forall j | 0 <= j < i :: codes[..i][j] == codes[j];
    RunAllFirstError(codes, i);
  }

  /** One more hook that completes. */
  lemma RunAllStep(codes: seq<Result<int, Exc>>, i: nat, failed: bool)
    requires i < |codes| && codes[i].Ok?
    requires RunAll(codes[..i]) == Ok(failed)
    ensures RunAll(codes[..i + 1]) == Ok(failed || codes[i].value != 0)
  {
    assert codes[..i + 1][..i] == codes[..i];
  }

  /** The static `postHooks` dictionary: the commands in the order they were
      first registered, and the results registered for each. */
  class PostHooks {
    var commands: seq<string>
    var entries: map<string, seq<DownloadResult>>

    /** Each command is registered once, and the commands are exactly the
        dictionary's keys. */
    predicate Valid()
      reads this
    {
      && (forall i, j | 0 <= i < j < |commands| :: commands[i] != commands[j])
      && (forall c | c in entries :: c in commands)
      && (forall c | c in commands :: c in entries)
    }

    constructor ()
      ensures Valid()
      ensures commands == [] && entries == map[]
    {
      commands := [];
      entries := map[];
    }

    /** `AddPostHook(command, results)`: the command's list, created empty
        when new, gets the results appended; nothing else changes. */
    method AddPostHook(command: string, results: seq<DownloadResult>)
      requires Valid()
      modifies this
      ensures Valid()
      ensures entries == old(entries)[command := (if command in old(entries) then old(entries)[command] else []) + results]
      ensures commands == if command in old(entries) then old(commands) else old(commands) + [command]
    {
      if command !in entries {
        entries := entries[command := []];
        commands := commands + [command];
      }
      entries := entries[command := entries[command] + results];
    }

    /** `RunPostHooks()`: runs each registered command once, in order, and
        returns -1 if any returned nonzero and 0 otherwise; an exception
        while building a request escapes. The registrations are left as they
        were. */
    method RunPostHooks(parentEnv: map<string, string>, launch: StartInfo -> Launch) returns (r: Result<int, Exc>)
      requires Valid()
      ensures var outcome := RunAll(Outcomes(commands, entries, parentEnv, launch));
        r == if outcome.Err? then Err(outcome.error) else Ok(if outcome.value then -1 else 0)
    {
      var cmds, table := commands, entries;
      ghost var codes := Outcomes(cmds, table, parentEnv, launch);
      var hookFailed := false;
      for i := 0 to |cmds|
        invariant RunAll(codes[..i]) == Ok(hookFailed)
      {
        var code := RunPostHook(cmds[i], table[cmds[i]], parentEnv, launch);
        if code.Err? {
          RunAllStops(codes, i);
          return Err(code.error);
        }
        RunAllStep(codes, i, hookFailed);
        if code.value != 0 {
          hookFailed := true;
        }
      }
      assert codes[..|cmds|] == codes;
      r := Ok(if hookFailed then -1 else 0);
    }
  }
}
