/** `DownloadFlow` (Flows/DownloadFlow.cs): resolve the certificates to
    download, download each one into a file tree or a Windows store, and
    turn the results into an exit code, possibly through a post hook. */
module DownloadFlow {
  import opened Wrappers
  import opened Text
  import opened Runtime
  import opened Identity
  import opened Results
  import opened CertificateExtensions
  import opened Stores
  import opened Hooks
  import opened Flows

  /** The options the flow reads. */
  datatype DownloadOptions = DownloadOptions(
    keyVault: string,
    name: Option<string>,
    path: Option<string>,
    store: Option<StoreLocation>,
    force: bool,
    markExportable: bool,
    postHook: Option<string>)

  /** Everything outside the machine state that the flow consults: the
      vault, the operating system, the foreign decoders, the PEM reader used
      by the file store, the process environment and the process launcher. */
  datatype Context = Context(
    client: SecretClient,
    platform: Platform,
    crypto: Crypto,
    readCertificate: string -> Option<X509>,
    parentEnv: map<string, string>,
    launch: StartInfo -> Launch)

  /** An exportable key is asked for when a path is given or the key is to
      be marked exportable. */
  function KeyExportable(opts: DownloadOptions): (b: bool)
    ensures b <==> !IsNullOrEmpty(opts.path) || opts.markExportable
  {
    !IsNullOrEmpty(opts.path) || opts.markExportable
  }

  /** The store a certificate goes to: the path wins over the store, a
      Windows store needs Windows, and with neither there is none. */
  function ChooseStore(opts: DownloadOptions, platform: Platform): (r: Option<CertificateStore>)
    ensures !IsNullOrEmpty(opts.path) ==> r == Some(FileCertificateStore(opts.path.value))
    ensures IsNullOrEmpty(opts.path) && opts.store.Some? && platform.Windows? ==> r == Some(WindowsCertificateStore(opts.store.value))
    ensures IsNullOrEmpty(opts.path) && (opts.store.None? || !platform.Windows?) ==> r.None?
  {
    if !IsNullOrEmpty(opts.path) then Some(FileCertificateStore(opts.path.value))
    else if opts.store.Some? && platform.Windows? then Some(WindowsCertificateStore(opts.store.value))
    else None
  }

  /** The fetch errors the flow reports as an Error result instead of
      letting them escape. */
  predicate Reported(e: Exc)
  {
    e.RequestFailed? || e.NotSupported?
  }

  /** `DownloadCertificate(cert)` on the machine state: the new state and the
      result, or the exception that escapes. */
  function DownloadCertificateSpec(opts: DownloadOptions, ctx: Context, st: HostState, cert: CertificateDetails)
    : (HostState, Result<DownloadResult, Exc>)
  {
    var chain := GetCertificate(ctx.client, cert.secretName, KeyExportable(opts), ctx.crypto);
    if chain.Err? && Reported(chain.error) then (st, Ok(NewResult(Error, None)))
    else if chain.Err? then (st, Err(chain.error))
    else
      var store := ChooseStore(opts, ctx.platform);
      if store.None? then (st, Ok(NewResult(Error, None)))
      else
        var present := if opts.force then Ok(false) else Stores.Exists(store.value, st, cert, ctx.readCertificate);
        if present.Err? then (st, Err(present.error))
        else if present.value then (st, Ok(NewResult(AlreadyExists, Some(cert))))
        else Stores.SaveSpec(store.value, st, cert, chain.value, ctx.platform, ctx.crypto)
  }

  /** A certificate saved to a file store is always fetched with an
      exportable key, so `MarkExportable` makes no difference there. */
  lemma FileStoreIgnoresMarkExportable(opts: DownloadOptions, ctx: Context, st: HostState, cert: CertificateDetails)
    requires !IsNullOrEmpty(opts.path)
    ensures DownloadCertificateSpec(opts.(markExportable := false), ctx, st, cert)
         == DownloadCertificateSpec(opts.(markExportable := true), ctx, st, cert)
  {
  }

  /** A certificate found already present is skipped: the result is
      AlreadyExists for that certificate, the store said so, Force was off,
      and nothing on the machine changed. */
  lemma AlreadyExistsWritesNothing(opts: DownloadOptions, ctx: Context, st: HostState, cert: CertificateDetails)
    requires DownloadCertificateSpec(opts, ctx, st, cert).1.Ok?
    requires DownloadCertificateSpec(opts, ctx, st, cert).1.value.status == AlreadyExists
    ensures DownloadCertificateSpec(opts, ctx, st, cert).0 == st
    ensures !opts.force
    ensures var store := ChooseStore(opts, ctx.platform);
      store.Some? && Stores.Exists(store.value, st, cert, ctx.readCertificate) == Ok(true)
    ensures DownloadCertificateSpec(opts, ctx, st, cert).1.value == NewResult(AlreadyExists, Some(cert))
  {
    var chain := GetCertificate(ctx.client, cert.secretName, KeyExportable(opts), ctx.crypto);
    var store := ChooseStore(opts, ctx.platform);
    if chain.Ok? && store.Some? {
      var present := if opts.force then Ok(false) else Stores.Exists(store.value, st, cert, ctx.readCertificate);
      if present.Ok? && !present.value {
        SaveReportsDownloaded(store.value, st, cert, chain.value, ctx.platform, ctx.crypto);
      }
    }
  }

  /** With Force, no certificate is ever skipped as already present. */
  lemma ForceNeverSkips(opts: DownloadOptions, ctx: Context, st: HostState, cert: CertificateDetails)
    requires opts.force
    requires DownloadCertificateSpec(opts, ctx, st, cert).1.Ok?
    ensures DownloadCertificateSpec(opts, ctx, st, cert).1.value.status != AlreadyExists
  {
    AlreadyExistsOnlyWithoutForce(opts, ctx, st, cert);
  }

  /** The skip happens only without Force (helper for the lemma above). */
  lemma AlreadyExistsOnlyWithoutForce(opts: DownloadOptions, ctx: Context, st: HostState, cert: CertificateDetails)
    requires DownloadCertificateSpec(opts, ctx, st, cert).1.Ok?
    ensures DownloadCertificateSpec(opts, ctx, st, cert).1.value.status == AlreadyExists ==> !opts.force
  {
    if DownloadCertificateSpec(opts, ctx, st, cert).1.value.status == AlreadyExists {
      AlreadyExistsWritesNothing(opts, ctx, st, cert);
    }
  }

  /** A reported fetch error or a missing store gives an Error result with
      no name, and nothing on the machine changes. */
  lemma ErrorWritesNothing(opts: DownloadOptions, ctx: Context, st: HostState, cert: CertificateDetails)
    requires DownloadCertificateSpec(opts, ctx, st, cert).1.Ok?
    requires DownloadCertificateSpec(opts, ctx, st, cert).1.value.status == Error
    ensures DownloadCertificateSpec(opts, ctx, st, cert).0 == st
    ensures DownloadCertificateSpec(opts, ctx, st, cert).1.value == NewResult(Error, None)
  {
    var chain := GetCertificate(ctx.client, cert.secretName, KeyExportable(opts), ctx.crypto);
    var store := ChooseStore(opts, ctx.platform);
    if chain.Ok? && store.Some? {
      var present := if opts.force then Ok(false) else Stores.Exists(store.value, st, cert, ctx.readCertificate);
      if present.Ok? && !present.value {
        SaveReportsDownloaded(store.value, st, cert, chain.value, ctx.platform, ctx.crypto);
      }
    }
  }

  /** A result that is not an Error names the certificate it was made for. */
  lemma ResultNamesCertificate(opts: DownloadOptions, ctx: Context, st: HostState, cert: CertificateDetails)
    requires DownloadCertificateSpec(opts, ctx, st, cert).1.Ok?
    ensures var r := DownloadCertificateSpec(opts, ctx, st, cert).1.value;
      r.status != Error ==> r.certificateName == cert.certificateName && r.thumbprint == cert.thumbprint
  {
    var chain := GetCertificate(ctx.client, cert.secretName, KeyExportable(opts), ctx.crypto);
    var store := ChooseStore(opts, ctx.platform);
    if chain.Ok? && store.Some? {
      var present := if opts.force then Ok(false) else Stores.Exists(store.value, st, cert, ctx.readCertificate);
      if present.Ok? && !present.value {
        SaveReportsDownloaded(store.value, st, cert, chain.value, ctx.platform, ctx.crypto);
      }
    }
  }

  /** `DownloadCertificate(cert)`, step by step on the machine. */
  method DownloadCertificate(opts: DownloadOptions, ctx: Context, host: Host, cert: CertificateDetails)
    returns (r: Result<DownloadResult, Exc>)
    modifies host
    ensures (host.State(), r) == DownloadCertificateSpec(opts, ctx, old(host.State()), cert)
  {
    var chain := GetCertificate(ctx.client, cert.secretName, KeyExportable(opts), ctx.crypto);
    if chain.Err? {
      if Reported(chain.error) {
        return Ok(NewResult(Error, None));
      }
      return Err(chain.error);
    }
    var store := ChooseStore(opts, ctx.platform);
    if store.None? {
      return Ok(NewResult(Error, None));
    }
    if !opts.force {
      var present := Stores.Exists(store.value, host.State(), cert, ctx.readCertificate);
      if present.Err? {
        return Err(present.error);
      }
      if present.value {
        return Ok(NewResult(AlreadyExists, Some(cert)));
      }
    }
    r := Stores.Save(store.value, host, cert, chain.value, ctx.platform, ctx.crypto);
  }

  /** The loop over the certificates on the machine state: the results in
      order, or the first exception that escapes (with the state reached). */
  function DownloadAll(opts: DownloadOptions, ctx: Context, st: HostState, certs: seq<CertificateDetails>)
    : (HostState, Result<seq<DownloadResult>, Exc>)
  {
    if certs == [] then (st, Ok([]))
    else
      var (st1, done) := DownloadAll(opts, ctx, st, certs[..|certs| - 1]);
      if done.Err? then (st1, done)
      else
        var (st2, r) := DownloadCertificateSpec(opts, ctx, st1, certs[|certs| - 1]);
        if r.Err? then (st2, Err(r.error)) else (st2, Ok(done.value + [r.value]))
  }

  /** One result per certificate, in order: each is an Error, or names the
      certificate at the same position. */
  lemma {:induction false} OneResultPerCertificate(opts: DownloadOptions, ctx: Context, st: HostState, certs: seq<CertificateDetails>)
    requires DownloadAll(opts, ctx, st, certs).1.Ok?
    ensures var rs := DownloadAll(opts, ctx, st, certs).1.value;
      && |rs| == |certs|
      && forall i | 0 <= i < |certs| ::
           rs[i].status == Error || (rs[i].certificateName == certs[i].certificateName && rs[i].thumbprint == certs[i].thumbprint)
  {
    if certs != [] {
      var init := certs[..|certs| - 1];
      var st1 := DownloadAll(opts, ctx, st, init).0;
      OneResultPerCertificate(opts, ctx, st, init);
      ResultNamesCertificate(opts, ctx, st1, certs[|certs| - 1]);
    }
  }

  /** Once an exception escapes, the loop stops there. */
  lemma {:induction false} DownloadAllStops(opts: DownloadOptions, ctx: Context, st: HostState, certs: seq<CertificateDetails>, n: nat)
    requires n <= |certs|
    requires DownloadAll(opts, ctx, st, certs[..n]).1.Err?
    ensures DownloadAll(opts, ctx, st, certs) == DownloadAll(opts, ctx, st, certs[..n])
    decreases |certs| - n
  {
    if n == |certs| {
      assert certs[..n] == certs;
    } else {
      assert certs[..n + 1][..n] == certs[..n];
      DownloadAllStops(opts, ctx, st, certs, n + 1);
    }
  }

  /** The results with status Downloaded, in order. */
  function DownloadedOnly(rs: seq<DownloadResult>): (d: seq<DownloadResult>)
    ensures forall r | r in d :: r in rs && r.status == Downloaded
    ensures forall r | r in rs && r.status == Downloaded :: r in d
    ensures |d| <= |rs|
  {
    if rs == [] then []
    else if rs[0].status == Downloaded then [rs[0]] + DownloadedOnly(rs[1..])
    else DownloadedOnly(rs[1..])
  }

  /** One result is kept exactly when it is Downloaded. */
  lemma DownloadedOnlySingle(r: DownloadResult)
    ensures DownloadedOnly([r]) == if r.status == Downloaded then [r] else []
  {
  }

  /** The filter distributes over concatenation, so with the single-result
      case it keeps the Downloaded results in their order and with their
      repetitions. */
  lemma {:induction false} DownloadedOnlyAppend(a: seq<DownloadResult>, b: seq<DownloadResult>)
    ensures DownloadedOnly(a + b) == DownloadedOnly(a) + DownloadedOnly(b)
  {
    if a == [] {
      assert a + b == b;
    } else {
      assert (a + b)[0] == a[0];
      assert (a + b)[1..] == a[1..] + b;
      DownloadedOnlyAppend(a[1..], b);
      if a[0].status == Downloaded {
        assert [a[0]] + (DownloadedOnly(a[1..]) + DownloadedOnly(b)) == ([a[0]] + DownloadedOnly(a[1..])) + DownloadedOnly(b);
      }
    }
  }

  /** The exit rule once every certificate was processed: with some result
      Downloaded and a post hook set, the post hook runs once over the
      Downloaded results and decides; otherwise -1 if some result is an
      Error, else 0. */
  function Finish(opts: DownloadOptions, ctx: Context, rs: seq<DownloadResult>): (outcome: FlowOutcome)
    ensures (exists r | r in rs :: r.status == Downloaded) && !IsNullOrEmpty(opts.postHook) ==>
      var hook := RunPostHook(opts.postHook.value, DownloadedOnly(rs), ctx.parentEnv, ctx.launch);
      outcome == if hook.Err? then Threw(hook.error) else Returned(hook.value)
    ensures (forall r | r in rs :: r.status != Downloaded) || IsNullOrEmpty(opts.postHook) ==>
      && (outcome == Returned(0) <==> forall r | r in rs :: r.status != Error)
      && (outcome == Returned(-1) <==> exists r | r in rs :: r.status == Error)
  {
    var downloaded := DownloadedOnly(rs);
    if downloaded != [] && !IsNullOrEmpty(opts.postHook) then
      var hook := RunPostHook(opts.postHook.value, downloaded, ctx.parentEnv, ctx.launch);
      if hook.Err? then Threw(hook.error) else Returned(hook.value)
    else if exists r | r in rs :: r.status == Error then Returned(-1)
    else Returned(0)
  }

  /** `RunFlow()` on the machine state. */
  function RunSpec(opts: DownloadOptions, ctx: Context, st: HostState): (HostState, FlowOutcome)
  {
    if !IsNullOrEmpty(opts.path) && opts.path.value !in st.dirs then (st, Returned(-1))
    else
      var selected := SelectCertificates(opts.name, ctx.client);
      if selected.Err? then (st, Threw(selected.error))
      else if selected.value.Err? then (st, Returned(selected.value.error))
      else
        var (st1, rs) := DownloadAll(opts, ctx, st, selected.value.value);
        if rs.Err? then (st1, Threw(rs.error)) else (st1, Finish(opts, ctx, rs.value))
  }

  /** A path that is not an existing directory, or a requested name the
      vault does not have, ends the flow with -1 before anything is
      downloaded. */
  lemma StopsBeforeDownloading(opts: DownloadOptions, ctx: Context, st: HostState)
    requires
      || (!IsNullOrEmpty(opts.path) && opts.path.value !in st.dirs)
      || (!IsNullOrEmpty(opts.name) && ctx.client.byNames(Split(opts.name.value, ',')).Ok? &&
          MissingNames(Split(opts.name.value, ','), ctx.client.byNames(Split(opts.name.value, ',')).value) != [])
    ensures RunSpec(opts, ctx, st) == (st, Returned(-1))
  {
  }

  /** The `foreach` over the certificates, step by step on the machine. */
  method DownloadCertificates(opts: DownloadOptions, ctx: Context, host: Host, certs: seq<CertificateDetails>)
    returns (r: Result<seq<DownloadResult>, Exc>)
    modifies host
    ensures (host.State(), r) == DownloadAll(opts, ctx, old(host.State()), certs)
  {
    ghost var st0 := host.State();
    var results := [];
    for i := 0 to |certs|
      invariant (host.State(), Ok(results)) == DownloadAll(opts, ctx, st0, certs[..i])
    {
      assert certs[..i + 1][..i] == certs[..i];
      var d := DownloadCertificate(opts, ctx, host, certs[i]);
      if d.Err? {
        DownloadAllStops(opts, ctx, st0, certs, i + 1);
        return Err(d.error);
      }
      results := results + [d.value];
    }
    assert certs[..|certs|] == certs;
    r := Ok(results);
  }

  /** `RunFlow()`, step by step on the machine. */
  method RunFlow(opts: DownloadOptions, ctx: Context, host: Host) returns (outcome: FlowOutcome)
    modifies host
    ensures (host.State(), outcome) == RunSpec(opts, ctx, old(host.State()))
  {
    if !IsNullOrEmpty(opts.path) && opts.path.value !in host.dirs {
      return Returned(-1);
    }
    var selected := SelectCertificates(opts.name, ctx.client);
    if selected.Err? {
      return Threw(selected.error);
    }
    if selected.value.Err? {
      return Returned(selected.value.error);
    }
    var results := DownloadCertificates(opts, ctx, host, selected.value.value);
    if results.Err? {
      return Threw(results.error);
    }
    outcome := Finish(opts, ctx, results.value);
  }
}
