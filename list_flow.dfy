/** `ListFlow` (Flows/ListFlow.cs): print every certificate of the vault, or
    the requested ones once they all exist. The console is the sequence of
    lines written to it. */
module ListFlow {
  import opened Wrappers
  import opened Text
  import opened Runtime
  import opened Identity
  import opened CertificateExtensions
  import opened Flows

  /** The lines printed for these certificates: one `ToString()` each, in
      order. */
  function Listing(certs: seq<CertificateDetails>): (lines: seq<string>)
    ensures |lines| == |certs|
    ensures forall i | 0 <= i < |certs| :: lines[i] == ToString(certs[i])
  {
    if certs == [] then [] else Listing(certs[..|certs| - 1]) + [ToString(certs[|certs| - 1])]
  }

  /** `RunFlow()`: how it ends and what it printed. */
  function RunSpec(name: Option<string>, client: SecretClient): (FlowOutcome, seq<string>)
  {
    var selected := SelectCertificates(name, client);
    if selected.Err? then (Threw(selected.error), [])
    else if selected.value.Err? then (Returned(selected.value.error), [])
    else (Returned(0), Listing(selected.value.value))
  }

  /** A requested name the vault does not have ends the flow with -1 before
      anything is printed; once the names check out, the flow returns 0
      after printing each certificate once, in order; without a name, that
      is every certificate in the vault. */
  lemma ListingOutcome(name: Option<string>, client: SecretClient)
    ensures var (outcome, printed) := RunSpec(name, client);
      && (outcome == Returned(-1) ==> printed == [])
      && (outcome.Returned? ==> outcome.code == 0 || outcome.code == -1)
      && (outcome == Returned(0) ==>
            var certs := SelectCertificates(name, client).value.value;
            |printed| == |certs| && forall i | 0 <= i < |certs| :: printed[i] == ToString(certs[i]))
      && (IsNullOrEmpty(name) && client.secrets.Ok? ==>
            outcome == Returned(0) && |printed| == |client.secrets.value| &&
            forall i | 0 <= i < |printed| :: printed[i] == ToString(FromSecret(client.secrets.value[i])))
  {
    var selected := SelectCertificates(name, client);
    if selected.Ok? && selected.value.Ok? {
      var certs := selected.value.value;
      assert RunSpec(name, client) == (Returned(0), Listing(certs));
      if IsNullOrEmpty(name) && client.secrets.Ok? {
        assert certs == GetCertificateDetails(client).value;
      }
    }
  }

  /** Printing one more certificate appends its line. */
  lemma ListingSnoc(certs: seq<CertificateDetails>, i: nat)
    requires i < |certs|
    ensures Listing(certs[..i + 1]) == Listing(certs[..i]) + [ToString(certs[i])]
  {
    assert certs[..i + 1][..i] == certs[..i];
  }

  /** `RunFlow()`, printing in a loop. */
  method RunFlow(name: Option<string>, client: SecretClient) returns (outcome: FlowOutcome, printed: seq<string>)
    ensures (outcome, printed) == RunSpec(name, client)
  {
    var selected := SelectCertificates(name, client);
    if selected.Err? {
      return Threw(selected.error), [];
    }
    if selected.value.Err? {
      return Returned(selected.value.error), [];
    }
    var certs := selected.value.value;
    printed := [];
    for i := 0 to |certs|
      invariant printed == Listing(certs[..i])
    {
      ListingSnoc(certs, i);
      printed := printed + [ToString(certs[i])];
    }
    assert certs[..|certs|] == certs;
    outcome := Returned(0);
  }
}
