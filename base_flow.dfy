/** `BaseFlow` (Flows/BaseFlow.cs): the vault address every flow talks to,
    and the mapping of a flow's value or exception to the process exit code. */
module Flows {
  import opened Wrappers
  import opened Runtime
  import opened Text
  import Identity
  import CertificateExtensions

  /** How a flow's `RunFlow` ended: it returned an exit code, or it threw. */
  datatype FlowOutcome = Returned(code: int) | Threw(error: Exc)

  const VaultPrefix := "https://"
  const VaultSuffix := ".vault.azure.net"

  /** The vault URI built from the vault's name. */
  function VaultUri(keyvault: string): (uri: string)
    ensures |uri| == |VaultPrefix| + |keyvault| + |VaultSuffix|
    ensures uri[..|VaultPrefix|] == VaultPrefix
    ensures uri[|VaultPrefix|..|VaultPrefix| + |keyvault|] == keyvault
    ensures uri[|VaultPrefix| + |keyvault|..] == VaultSuffix
  {
    VaultPrefix + keyvault + VaultSuffix
  }

  /** Distinct vault names give distinct URIs: the name can be read back
      from the URI. */
  lemma VaultUriInjective(a: string, b: string)
    requires VaultUri(a) == VaultUri(b)
    ensures a == b
  {
    var ua := VaultUri(a);
    assert |a| == |b|;
    assert a == ua[|VaultPrefix|..|VaultPrefix| + |a|];
  }

  /** `Run()`: the code `RunFlow` returned, and -1 for any exception
      (credential unavailable, vault request failed, or anything else); no
      exception escapes. */
  function Run(outcome: FlowOutcome): (code: int)
    ensures outcome.Returned? ==> code == outcome.code
    ensures outcome.Threw? ==> code == -1
    ensures code != -1 ==> outcome == Returned(code)
  {
    match outcome
    case Returned(c) => c
    case Threw(_) => -1
  }

  /** The certificates to process, or the code the flow returns before any
      download: with a name list, every requested name must match some
      returned certificate ignoring case. */
  function SelectCertificates(name: Option<string>, client: CertificateExtensions.SecretClient): (r: Result<Result<seq<Identity.CertificateDetails>, int>, Exc>)
    ensures r.Ok? && r.value.Err? ==> r.value.error == -1
    ensures !IsNullOrEmpty(name) ==>
      var names := Split(name.value, ',');
      && (client.byNames(names).Err? ==> r == Err(client.byNames(names).error))
      && (client.byNames(names).Ok? ==> r.Ok?)
      && (client.byNames(names).Ok? ==> (r.value.Err? <==>
            exists n | n in names :: forall d | d in client.byNames(names).value :: !CertificateExtensions.Matches(d, n)))
      && (r.Ok? && r.value.Ok? ==>
            && r.value.value == client.byNames(names).value
            && forall n | n in names :: exists d | d in r.value.value :: CertificateExtensions.Matches(d, n))
    ensures IsNullOrEmpty(name) ==>
      var certs := CertificateExtensions.GetCertificateDetails(client);
      r == if certs.Err? then Err(certs.error) else Ok(Ok(certs.value))
  {
    if !IsNullOrEmpty(name) then
      var names := Split(name.value, ',');
      var certs := client.byNames(names);
      if certs.Err? then Err(certs.error)
      else if CertificateExtensions.MissingNames(names, certs.value) != [] then
        assert CertificateExtensions.MissingNames(names, certs.value)[0] in CertificateExtensions.MissingNames(names, certs.value);
        Ok(Err(-1))
      else Ok(Ok(certs.value))
    else
      var certs := CertificateExtensions.GetCertificateDetails(client);
      if certs.Err? then Err(certs.error) else Ok(Ok(certs.value))
  }

  /** A flow's connection to its vault. */
  class FlowBase {
    var client: Option<CertificateExtensions.SecretClient>

    /** The parameterless constructor: no client. */
    constructor ()
      ensures client.None?
    {
      client := None;
    }

    /** The constructor taking a vault name: a client bound to the vault's
        URI. */
    constructor Connect(keyvault: string, vault: CertificateExtensions.SecretClient)
      ensures client == Some(vault.(uri := VaultUri(keyvault)))
    {
      client := Some(vault.(uri := VaultUri(keyvault)));
    }
  }
}
