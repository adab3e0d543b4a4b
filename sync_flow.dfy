/** `SyncFlow` (Flows/SyncFlow.cs): replay every saved download
    configuration of the configuration directory, each as its own download
    flow, carrying on past failures. */
module SyncFlow {
  import opened Wrappers
  import opened Runtime
  import opened Hooks
  import opened Flows
  import opened CertificateExtensions
  import DownloadFlow

  const ConfigPrefix := "download_"
  const ConfigSuffix := ".json"

  /** The options the flow reads. */
  datatype SyncOptions = SyncOptions(configDirectory: string, force: bool)

  /** Everything outside the machine state the replay consults: the file
      names of a directory (or the failure to enumerate it), the JSON reading
      of a configuration file (which may throw or give null), the vault client
      for a vault name, and the rest of what each download flow consults. */
  datatype SyncContext = SyncContext(
    listDirectory: string -> Option<seq<string>>,
    load: string -> Result<Option<DownloadFlow.DownloadOptions>, Exc>,
    vault: string -> SecretClient,
    platform: Platform,
    crypto: Crypto,
    readCertificate: string -> Option<X509>,
    parentEnv: map<string, string>,
    launch: StartInfo -> Launch)

  /** The search pattern "download_*.json" on a file name. */
  predicate IsConfigFile(name: string)
  {
    && |name| >= |ConfigPrefix| + |ConfigSuffix|
    && name[..|ConfigPrefix|] == ConfigPrefix
    && name[|name| - |ConfigSuffix|..] == ConfigSuffix
  }

  /** `Directory.GetFiles(dir, "download_*.json")` on a listing: the names
      that fit the pattern, in listing order. */
  function ConfigFiles(names: seq<string>): (files: seq<string>)
    ensures forall f | f in files :: f in names && IsConfigFile(f)
    ensures forall f | f in names && IsConfigFile(f) :: f in files
  {
    if names == [] then []
    else if IsConfigFile(names[0]) then [names[0]] + ConfigFiles(names[1..])
    else ConfigFiles(names[1..])
  }

  /** The replayed configuration: the global Force can set it, never clear
      it. */
  function Configured(config: DownloadFlow.DownloadOptions, force: bool): (c: DownloadFlow.DownloadOptions)
    ensures c.force == (config.force || force)
    ensures c.(force := config.force) == config
  {
    if force then config.(force := true) else config
  }

  /** What a download flow for `config` consults. */
  function ContextFor(ctx: SyncContext, config: DownloadFlow.DownloadOptions): DownloadFlow.Context
  {
    DownloadFlow.Context(ctx.vault(config.keyVault), ctx.platform, ctx.crypto, ctx.readCertificate, ctx.parentEnv, ctx.launch)
  }

  /** One configuration file: -1 when it cannot be read, otherwise the code
      of `Run()` of its download flow; a null configuration throws. */
  function ReplayOne(opts: SyncOptions, ctx: SyncContext, st: HostState, file: string): (HostState, Result<int, Exc>)
  {
    var config := ctx.load(Combine(opts.configDirectory, file));
    if config.Err? then (st, Ok(-1))
    else if config.value.None? then (st, Err(NullReference))
    else
      var c := Configured(config.value.value, opts.force);
      var (st1, outcome) := DownloadFlow.RunSpec(c, ContextFor(ctx, c), st);
      (st1, Ok(Run(outcome)))
  }

  /** The `foreach` over the files on the machine state: the code of each
      file in order, or the exception that escapes. */
  function Replay(opts: SyncOptions, ctx: SyncContext, st: HostState, files: seq<string>): (HostState, Result<seq<int>, Exc>)
  {
    if files == [] then (st, Ok([]))
    else
      var (st1, codes) := Replay(opts, ctx, st, files[..|files| - 1]);
      if codes.Err? then (st1, codes)
      else
        var (st2, code) := ReplayOne(opts, ctx, st1, files[|files| - 1]);
        if code.Err? then (st2, Err(code.error)) else (st2, Ok(codes.value + [code.value]))
  }

  /** A replay that completed extends the completed replay of all files but
      the last by one code, which is -1 when the last file cannot be read. */
  lemma ReplaySnoc(opts: SyncOptions, ctx: SyncContext, st: HostState, files: seq<string>)
    requires files != [] && Replay(opts, ctx, st, files).1.Ok?
    ensures var init := Replay(opts, ctx, st, files[..|files| - 1]).1;
      var codes := Replay(opts, ctx, st, files).1.value;
      && init.Ok?
      && |codes| == |init.value| + 1
      && codes[..|init.value|] == init.value
      && (ctx.load(Combine(opts.configDirectory, files[|files| - 1])).Err? ==> codes[|init.value|] == -1)
  {
  }

  /** Each file is replayed exactly once, in order: one code per file, and a
      file that cannot be read gives -1 without stopping the others. */
  lemma {:induction false} ReplayCodes(opts: SyncOptions, ctx: SyncContext, st: HostState, files: seq<string>)
    requires Replay(opts, ctx, st, files).1.Ok?
    ensures var codes := Replay(opts, ctx, st, files).1.value;
      && |codes| == |files|
      && forall i | 0 <= i < |files| :: ctx.load(Combine(opts.configDirectory, files[i])).Err? ==> codes[i] == -1
  {
    if files != [] {
      var init := files[..|files| - 1];
      ReplaySnoc(opts, ctx, st, files);
      ReplayCodes(opts, ctx, st, init);
      var codes := Replay(opts, ctx, st, files).1.value;
      var prev := Replay(opts, ctx, st, init).1.value;
      forall i | 0 <= i < |files| && ctx.load(Combine(opts.configDirectory, files[i])).Err?
        ensures codes[i] == -1
      {
        if i < |init| {
          assert files[i] == init[i];
          assert codes[i] == codes[..|prev|][i];
        }
      }
    }
  }

  /** Once an exception escapes, the replay stops there. */
  lemma {:induction false} ReplayStops(opts: SyncOptions, ctx: SyncContext, st: HostState, files: seq<string>, n: nat)
    requires n <= |files|
    requires Replay(opts, ctx, st, files[..n]).1.Err?
    ensures Replay(opts, ctx, st, files) == Replay(opts, ctx, st, files[..n])
    decreases |files| - n
  {
    if n == |files| {
      assert files[..n] == files;
    } else {
      assert files[..n + 1][..n] == files[..n];
      ReplayStops(opts, ctx, st, files, n + 1);
    }
  }

  /** Every file gave 0. */
  predicate AllZero(codes: seq<int>)
  {
    forall i | 0 <= i < |codes| :: codes[i] == 0
  }

  /** One more code keeps every code 0 exactly when it is 0. */
  lemma AllZeroSnoc(codes: seq<int>, c: int)
    ensures AllZero(codes + [c]) <==> AllZero(codes) && c == 0
  {
    assert forall i | 0 <= i < |codes| :: (codes + [c])[i] == codes[i];
    assert (codes + [c])[|codes|] == c;
  }

  /** `RunFlow()` on the machine state: -1 when the directory cannot be
      enumerated; otherwise 0 exactly when every file gave 0. */
  function RunSpec(opts: SyncOptions, ctx: SyncContext, st: HostState): (HostState, FlowOutcome)
  {
    var names := ctx.listDirectory(opts.configDirectory);
    if names.None? then (st, Returned(-1))
    else
      var (st1, codes) := Replay(opts, ctx, st, ConfigFiles(names.value));
      if codes.Err? then (st1, Threw(codes.error))
      else (st1, Returned(if AllZero(codes.value) then 0 else -1))
  }

  /** The flow returns 0 exactly when every configuration file was read and
      its download flow returned 0; a directory without configuration files
      gives 0 and changes nothing. */
  lemma SyncExitCode(opts: SyncOptions, ctx: SyncContext, st: HostState)
    requires ctx.listDirectory(opts.configDirectory).Some?
    requires Replay(opts, ctx, st, ConfigFiles(ctx.listDirectory(opts.configDirectory).value)).1.Ok?
    ensures var files := ConfigFiles(ctx.listDirectory(opts.configDirectory).value);
      var codes := Replay(opts, ctx, st, files).1.value;
      && |codes| == |files|
      && (RunSpec(opts, ctx, st).1 == Returned(0) <==>
            forall i | 0 <= i < |files| :: ctx.load(Combine(opts.configDirectory, files[i])).Ok? && codes[i] == 0)
      && (files == [] ==> RunSpec(opts, ctx, st) == (st, Returned(0)))
  {
    var files := ConfigFiles(ctx.listDirectory(opts.configDirectory).value);
    ReplayCodes(opts, ctx, st, files);
  }

  /** `RunFlow()`, step by step on the machine. */
  method RunFlow(opts: SyncOptions, ctx: SyncContext, host: Host) returns (outcome: FlowOutcome)
    modifies host
    ensures (host.State(), outcome) == RunSpec(opts, ctx, old(host.State()))
  {
    var names := ctx.listDirectory(opts.configDirectory);
    if names.None? {
      return Returned(-1);
    }
    var files := ConfigFiles(names.value);
    ghost var st0 := host.State();
    ghost var codes: seq<int> := [];
    var ret := 0;
    for i := 0 to |files|
      invariant (host.State(), Ok(codes)) == Replay(opts, ctx, st0, files[..i])
      invariant ret == if AllZero(codes) then 0 else -1
    {
      assert files[..i + 1][..i] == files[..i];
      var config := ctx.load(Combine(opts.configDirectory, files[i]));
      if config.Err? {
        ret := -1;
        AllZeroSnoc(codes, -1);
        codes := codes + [-1];
        continue;
      }
      if config.value.None? {
        ReplayStops(opts, ctx, st0, files, i + 1);
        return Threw(NullReference);
      }
      var c := Configured(config.value.value, opts.force);
      var flowOutcome := DownloadFlow.RunFlow(c, ContextFor(ctx, c), host);
      if Run(flowOutcome) != 0 {
        ret := -1;
      }
      AllZeroSnoc(codes, Run(flowOutcome));
      codes := codes + [Run(flowOutcome)];
    }
    assert files[..|files|] == files;
    outcome := Returned(ret);
  }
}
