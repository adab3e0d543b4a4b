/** `UploadFlow` (Flows/UploadFlow.cs): read a certificate, its private key
    and an optional chain from PEM files, and store them in the vault unless
    the vault already holds the same certificate. */
module UploadFlow {
  import opened Wrappers
  import opened Text
  import opened Runtime
  import opened Identity
  import opened CertificateExtensions
  import opened Flows

  /** The options the flow reads. */
  datatype UploadOptions = UploadOptions(
    keyVault: string,
    name: string,
    certificate: string,
    privateKey: string,
    chain: Option<string>,
    force: bool)

  /** Everything outside the files the flow consults: the vault, the PEM
      readers (`X509Certificate2.CreateFromPemFile` on the two files' texts,
      `ImportFromPemFile` on the chain file's text), the conversion of the
      chain to a secret under a key and a name (`ToKeyVaultSecret`, whose
      body is not part of this model), and the fresh GUID's text. */
  datatype UploadContext = UploadContext(
    client: SecretClient,
    createFromPem: (string, string) -> Result<X509, Exc>,
    importPem: string -> Result<seq<X509>, Exc>,
    toSecret: (seq<X509>, string, string) -> KeyVaultSecret,
    guid: string)

  /** The file checks: -1 when the certificate, the key, or a named chain
      file does not exist. */
  function CheckFiles(opts: UploadOptions, files: map<string, FileEntry>): (ok: bool)
    ensures ok <==>
      && opts.certificate in files
      && opts.privateKey in files
      && (IsNullOrEmpty(opts.chain) || opts.chain.value in files)
  {
    opts.certificate in files && opts.privateKey in files && (IsNullOrEmpty(opts.chain) || opts.chain.value in files)
  }

  /** `File.ReadAllText(path)`: a null path, an empty path and a missing file
      throw. */
  function ReadAllText(files: map<string, FileEntry>, path: Option<string>): (r: Result<string, Exc>)
    ensures r.Ok? <==> path.Some? && path.value != "" && path.value in files
    ensures r.Ok? ==> r.value == files[path.value].text
    ensures path.None? ==> r == Err(ArgumentNull)
    ensures path == Some("") ==> r == Err(Argument)
  {
    if path.None? then Err(ArgumentNull)
    else if path.value == "" then Err(Argument)
    else if path.value !in files then Err(IO)
    else Ok(files[path.value].text)
  }

  /** The leaf: the certificate file combined with its key file. */
  function ReadLeaf(opts: UploadOptions, ctx: UploadContext, files: map<string, FileEntry>): (r: Result<X509, Exc>)
  {
    var certText := ReadAllText(files, Some(opts.certificate));
    var keyText := ReadAllText(files, Some(opts.privateKey));
    if certText.Err? then Err(certText.error)
    else if keyText.Err? then Err(keyText.error)
    else ctx.createFromPem(certText.value, keyText.value)
  }

  /** The chain as written: the leaf, then the chain file imported whether
      or not one was given. */
  function ReadChainAsWritten(opts: UploadOptions, ctx: UploadContext, files: map<string, FileEntry>): (r: Result<seq<X509>, Exc>)
    ensures r.Ok? ==> |r.value| >= 1 && ReadLeaf(opts, ctx, files).Ok? && r.value[0] == ReadLeaf(opts, ctx, files).value
  {
    var leaf := ReadLeaf(opts, ctx, files);
    if leaf.Err? then Err(leaf.error)
    else
      var text := ReadAllText(files, opts.chain);
      if text.Err? then Err(text.error)
      else
        var rest := ctx.importPem(text.value);
        if rest.Err? then Err(rest.error) else Ok([leaf.value] + rest.value)
  }

  /** The chain as evidently intended: the leaf, then the chain file's
      certificates only when a chain file was given. */
  function ReadChain(opts: UploadOptions, ctx: UploadContext, files: map<string, FileEntry>): (r: Result<seq<X509>, Exc>)
    ensures r.Ok? ==> |r.value| >= 1 && ReadLeaf(opts, ctx, files).Ok? && r.value[0] == ReadLeaf(opts, ctx, files).value
    ensures IsNullOrEmpty(opts.chain) ==>
      r == if ReadLeaf(opts, ctx, files).Err? then Err(ReadLeaf(opts, ctx, files).error) else Ok([ReadLeaf(opts, ctx, files).value])
    ensures !IsNullOrEmpty(opts.chain) ==> r == ReadChainAsWritten(opts, ctx, files)
  {
    var leaf := ReadLeaf(opts, ctx, files);
    if leaf.Err? then Err(leaf.error)
    else if IsNullOrEmpty(opts.chain) then Ok([leaf.value])
    else
      var text := ReadAllText(files, opts.chain);
      if text.Err? then Err(text.error)
      else
        var rest := ctx.importPem(text.value);
        if rest.Err? then Err(rest.error) else Ok([leaf.value] + rest.value)
  }

  /** The decision once the chain is read: what the flow returns and the key
      `SetSecret` was called for, if it was, given the result of looking up
      the vault's certificate of that name. */
  function Publish(opts: UploadOptions, ctx: UploadContext, existing: Result<Option<CertificateDetails>, Exc>, chain: seq<X509>)
    : (r: (FlowOutcome, Option<string>))
    requires chain != []
  {
    if existing.Err? then (Threw(existing.error), None)
    else if existing.value.Some? && EqualsIgnoreCaseOpt(existing.value.value.thumbprint, Some(chain[0].thumbprint)) && !opts.force then
      (Returned(0), None)
    else
      var key := if existing.value.Some? then existing.value.value.secretName else opts.name + ctx.guid;
      var failure := ctx.client.setSecret(ctx.toSecret(chain, key, opts.name));
      (Returned(if failure.Some? then -1 else 0), Some(key))
  }

  /** The upload decision: an identical thumbprint (ignoring case) without
      Force returns 0 and uploads nothing; otherwise the chain is uploaded
      under the existing certificate's secret name, or under the name
      followed by a fresh GUID for a new certificate, and the flow returns
      -1 exactly when `SetSecret` fails. */
  lemma PublishDecision(opts: UploadOptions, ctx: UploadContext, lookup: Result<Option<CertificateDetails>, Exc>, chain: seq<X509>)
    requires chain != []
    requires lookup.Ok?
    ensures var existing := lookup.value;
      var (outcome, uploaded) := Publish(opts, ctx, lookup, chain);
      && (uploaded.None? <==>
            existing.Some? && EqualsIgnoreCaseOpt(existing.value.thumbprint, Some(chain[0].thumbprint)) && !opts.force)
      && (uploaded.None? ==> outcome == Returned(0))
      && (opts.force ==> uploaded.Some?)
      && (existing.Some? && uploaded.Some? ==> uploaded.value == existing.value.secretName)
      && (existing.None? ==> uploaded == Some(opts.name + ctx.guid))
      && (uploaded.Some? ==>
            outcome == Returned(if ctx.client.setSecret(ctx.toSecret(chain, uploaded.value, opts.name)).Some? then -1 else 0))
  {
  }

  /** `RunFlow()` with the chain read by `read` and the vault's certificate
      of that name found by `lookup`: a missing file returns -1 before the
      vault is reached, so does any error reading the chain. */
  function RunWith(opts: UploadOptions, ctx: UploadContext, files: map<string, FileEntry>,
                   read: Result<seq<X509>, Exc>, lookup: Result<Option<CertificateDetails>, Exc>)
    : (r: (FlowOutcome, Option<string>))
    requires read.Ok? ==> read.value != []
    ensures !CheckFiles(opts, files) || read.Err? ==> r == (Returned(-1), None)
    ensures CheckFiles(opts, files) && read.Ok? ==> r == Publish(opts, ctx, lookup, read.value)
  {
    if !CheckFiles(opts, files) then (Returned(-1), None)
    else if read.Err? then (Returned(-1), None)
    else Publish(opts, ctx, lookup, read.value)
  }

  /** `RunFlow()` as written: the chain file read even when none was given,
      and the lookup that fails on a secret without a certificate name. */
  function RunSpecAsWritten(opts: UploadOptions, ctx: UploadContext, files: map<string, FileEntry>): (FlowOutcome, Option<string>)
  {
    RunWith(opts, ctx, files, ReadChainAsWritten(opts, ctx, files), GetCertificateDetailsByNameAsWritten(ctx.client, opts.name))
  }

  /** `RunFlow()` as evidently intended: both corrected. */
  function RunSpec(opts: UploadOptions, ctx: UploadContext, files: map<string, FileEntry>): (FlowOutcome, Option<string>)
  {
    RunWith(opts, ctx, files, ReadChain(opts, ctx, files), GetCertificateDetailsByName(ctx.client, opts.name))
  }

  /** As written, an upload without a chain file always fails: the chain
      import reads a null or empty path, which throws, so the flow returns
      -1 and uploads nothing, whatever the files and the vault hold. */
  lemma ChainlessUploadFails(opts: UploadOptions, ctx: UploadContext, files: map<string, FileEntry>)
    requires IsNullOrEmpty(opts.chain)
    ensures RunSpecAsWritten(opts, ctx, files) == (Returned(-1), None)
  {
  }

  /** As written, once the files check and the chain reads, a vault that
      lists a secret without a certificate name makes the flow throw before
      anything is uploaded, whatever the name asked for. */
  lemma UnnamedSecretFailsUpload(opts: UploadOptions, ctx: UploadContext, files: map<string, FileEntry>)
    requires ctx.client.secrets.Ok?
    requires exists s | s in ctx.client.secrets.value :: FromSecret(s).certificateName.None?
    requires CheckFiles(opts, files) && ReadChainAsWritten(opts, ctx, files).Ok?
    ensures RunSpecAsWritten(opts, ctx, files).0.Threw?
    ensures RunSpecAsWritten(opts, ctx, files).1 == None
  {
  }

  /** Corrected, an upload without a chain file uploads the leaf alone when
      it reads, and agrees with the written flow whenever a chain file is
      given and every listed secret yields a certificate name. */
  lemma ChainlessUploadPublishes(opts: UploadOptions, ctx: UploadContext, files: map<string, FileEntry>)
    ensures IsNullOrEmpty(opts.chain) && CheckFiles(opts, files) && ReadLeaf(opts, ctx, files).Ok? ==>
      RunSpec(opts, ctx, files) == Publish(opts, ctx, GetCertificateDetailsByName(ctx.client, opts.name), [ReadLeaf(opts, ctx, files).value])
    ensures !IsNullOrEmpty(opts.chain) && ListsOnlyNamed(ctx.client) ==> RunSpec(opts, ctx, files) == RunSpecAsWritten(opts, ctx, files)
  {
    if ListsOnlyNamed(ctx.client) {
      ByNameAgrees(ctx.client, opts.name);
    }
  }

  /** `RunFlow()` with the corrected chain reading and lookup, step by
      step: the chain
      collection is filled, and the key chosen then replaced by the existing
      secret name. */
  method RunFlow(opts: UploadOptions, ctx: UploadContext, files: map<string, FileEntry>) returns (outcome: FlowOutcome, uploaded: Option<string>)
    ensures (outcome, uploaded) == RunSpec(opts, ctx, files)
  {
    if opts.certificate !in files || opts.privateKey !in files {
      return Returned(-1), None;
    }
    if !IsNullOrEmpty(opts.chain) && opts.chain.value !in files {
      return Returned(-1), None;
    }
    var leaf := ReadLeaf(opts, ctx, files);
    if leaf.Err? {
      return Returned(-1), None;
    }
    var chain := [leaf.value];
    if !IsNullOrEmpty(opts.chain) {
      var text := ReadAllText(files, opts.chain);
      if text.Err? {
        return Returned(-1), None;
      }
      var rest := ctx.importPem(text.value);
      if rest.Err? {
        return Returned(-1), None;
      }
      chain := chain + rest.value;
    }
    assert ReadChain(opts, ctx, files) == Ok(chain);
    var existing := GetCertificateDetailsByName(ctx.client, opts.name);
    if existing.Err? {
      return Threw(existing.error), None;
    }
    var key := opts.name + ctx.guid;
    if existing.value.Some? {
      if EqualsIgnoreCaseOpt(existing.value.value.thumbprint, Some(chain[0].thumbprint)) && !opts.force {
        return Returned(0), None;
      }
      key := existing.value.value.secretName;
    }
    var failure := ctx.client.setSecret(ctx.toSecret(chain, key, opts.name));
    if failure.Some? {
      return Returned(-1), Some(key);
    }
    return Returned(0), Some(key);
  }
}
