/** The older certificate identity (CertificateDetails.cs): no version, and a
    certificate name taken from the CertificateId tag without any guard. */
module LegacyIdentity {
  import opened Wrappers
  import opened Text
  import opened Runtime
  import Identity

  datatype LegacyDetails = LegacyDetails(
    id: string,
    secretName: string,
    notBefore: Option<Identity.Timestamp>,
    expiresOn: Option<Identity.Timestamp>,
    certificateId: string,
    certificateName: string,
    certificateState: Option<string>,
    serialNumber: Option<string>,
    thumbprint: Option<string>)

  /** The constructor `CertificateDetails(SecretProperties)`. Splitting a null
      CertificateId throws, so a secret without that tag cannot be read; an id
      without '/' names the certificate by the whole id. */
  function FromSecret(secret: Identity.SecretProperties): (r: Result<LegacyDetails, Exc>)
    ensures r.Err? <==> "CertificateId" !in secret.tags
    ensures r.Err? ==> r.error == NullReference
    ensures r.Ok? ==>
      && r.value.id == secret.id
      && r.value.secretName == secret.name
      && r.value.notBefore == secret.notBefore
      && r.value.expiresOn == secret.expiresOn
      && r.value.certificateId == secret.tags["CertificateId"]
      && IsLastSegment(r.value.certificateName, secret.tags["CertificateId"], '/')
      && r.value.certificateState == Identity.Tag(secret.tags, "CertificateState")
      && r.value.serialNumber == Identity.Tag(secret.tags, "SerialNumber")
      && r.value.thumbprint == Identity.Tag(secret.tags, "Thumbprint")
  {
    var certificateId := Identity.Tag(secret.tags, "CertificateId");
    if certificateId.None? then Err(NullReference)
    else
      LastOfSplit(certificateId.value, '/');
      Ok(LegacyDetails(
        secret.id,
        secret.name,
        secret.notBefore,
        secret.expiresOn,
        certificateId.value,
        Last(Split(certificateId.value, '/')),
        Identity.Tag(secret.tags, "CertificateState"),
        Identity.Tag(secret.tags, "SerialNumber"),
        Identity.Tag(secret.tags, "Thumbprint")))
  }

  /** `ToString()`. */
  function ToString(d: LegacyDetails): string
  {
    "Secret Name: " + d.secretName +
    "\n\t" + "Certificate Id: " + d.certificateId +
    "\n\t" + "Certificate Name: " + d.certificateName +
    "\n\t" + "Serial Number: " + Show(d.serialNumber) +
    "\n\t" + "Thumbprint: " + Show(d.thumbprint) +
    "\n\t" + "Expiry Date: " + Identity.ShowTime(d.expiresOn) +
    "\n\t" + "State: " + Show(d.certificateState)
  }

  /** An id without '/' names the certificate by the whole id, where the newer
      constructor leaves the name null. */
  lemma NameWithoutSlash(secret: Identity.SecretProperties)
    requires "CertificateId" in secret.tags && '/' !in secret.tags["CertificateId"]
    ensures FromSecret(secret).Ok?
    ensures FromSecret(secret).value.certificateName == secret.tags["CertificateId"]
    ensures Identity.FromSecret(secret).certificateName.None?
  {
  }

  /** Where the CertificateId tag contains '/', both constructors read the
      same identity and render the same listing. */
  lemma AgreesWithIdentity(secret: Identity.SecretProperties)
    requires "CertificateId" in secret.tags && '/' in secret.tags["CertificateId"]
    ensures FromSecret(secret).Ok?
    ensures Identity.FromSecret(secret).certificateName == Some(FromSecret(secret).value.certificateName)
    ensures ToString(FromSecret(secret).value) == Identity.ToString(Identity.FromSecret(secret))
  {
    var l := FromSecret(secret).value;
    var d := Identity.FromSecret(secret);
    LastSegmentUnique(l.certificateName, d.certificateName.value, secret.tags["CertificateId"], '/');
  }
}
