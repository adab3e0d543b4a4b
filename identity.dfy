/** A certificate's identity as read from the metadata of a vault secret
    (Models/CertificateDetails.cs): the secret's own properties, and the
    certificate fields that the uploader stored as tags. */
module Identity {
  import opened Wrappers
  import opened Text

  /** A `DateTimeOffset`, carried as the text its `ToString` renders. */
  datatype Timestamp = Timestamp(text: string)

  /** The metadata of a vault secret (`SecretProperties`). `id` is the text of
      the secret's URI, which ends with its version. */
  datatype SecretProperties = SecretProperties(
    id: string,
    name: string,
    notBefore: Option<Timestamp>,
    expiresOn: Option<Timestamp>,
    tags: map<string, string>,
    contentType: Option<string>)

  datatype CertificateDetails = CertificateDetails(
    id: string,
    version: string,
    secretName: string,
    notBefore: Option<Timestamp>,
    expiresOn: Option<Timestamp>,
    certificateId: Option<string>,
    certificateName: Option<string>,
    certificateState: Option<string>,
    serialNumber: Option<string>,
    thumbprint: Option<string>)

  /** `Tags.SingleOrDefault(s => s.Key == key).Value`: the tag's value, or
      null when there is no such tag. */
  function Tag(tags: map<string, string>, key: string): (v: Option<string>)
    ensures v.Some? <==> key in tags
    ensures v.Some? ==> v.value == tags[key]
  {
    if key in tags then Some(tags[key]) else None
  }

  /** The certificate name: the last '/' segment of a certificate id that is
      not empty and contains '/'; null otherwise. */
  function NameFromId(certificateId: Option<string>): (name: Option<string>)
    ensures name.Some? <==> certificateId.Some? && '/' in certificateId.value
    ensures name.Some? ==> IsLastSegment(name.value, certificateId.value, '/')
  {
    if !IsNullOrEmpty(certificateId) && '/' in certificateId.value then
      LastOfSplit(certificateId.value, '/');
      Some(Last(Split(certificateId.value, '/')))
    else None
  }

  /** The constructor `CertificateDetails(SecretProperties)`. */
  function FromSecret(secret: SecretProperties): (d: CertificateDetails)
    ensures IsLastSegment(d.version, secret.id, '/')
    ensures d.id == secret.id
    ensures d.secretName == secret.name
    ensures d.notBefore == secret.notBefore && d.expiresOn == secret.expiresOn
    ensures d.certificateId.Some? <==> "CertificateId" in secret.tags
    ensures d.certificateId.Some? ==> d.certificateId.value == secret.tags["CertificateId"]
    ensures d.certificateName.Some? <==> "CertificateId" in secret.tags && '/' in secret.tags["CertificateId"]
    ensures d.certificateName.Some? ==> IsLastSegment(d.certificateName.value, secret.tags["CertificateId"], '/')
    ensures d.certificateState == Tag(secret.tags, "CertificateState")
    ensures d.serialNumber == Tag(secret.tags, "SerialNumber")
    ensures d.thumbprint == Tag(secret.tags, "Thumbprint")
  {
    LastOfSplit(secret.id, '/');
    var version := Last(Split(secret.id, '/'));
    var certificateId := Tag(secret.tags, "CertificateId");
    var certificateName := NameFromId(certificateId);
    var state := Tag(secret.tags, "CertificateState");
    var serial := Tag(secret.tags, "SerialNumber");
    var thumbprint := Tag(secret.tags, "Thumbprint");
    CertificateDetails(
      secret.id, version, secret.name, secret.notBefore, secret.expiresOn,
      certificateId, certificateName, state, serial, thumbprint)
  }

  /** A nullable `DateTimeOffset` as string interpolation renders it. */
  function ShowTime(t: Option<Timestamp>): string
  {
    if t.Some? then t.value.text else ""
  }

  /** `ToString()`: each field on its own labelled line, the lines after the
      first indented by a tab. */
  function ToString(d: CertificateDetails): string
  {
    "Secret Name: " + d.secretName +
    "\n\t" + "Certificate Id: " + Show(d.certificateId) +
    "\n\t" + "Certificate Name: " + Show(d.certificateName) +
    "\n\t" + "Serial Number: " + Show(d.serialNumber) +
    "\n\t" + "Thumbprint: " + Show(d.thumbprint) +
    "\n\t" + "Expiry Date: " + ShowTime(d.expiresOn) +
    "\n\t" + "State: " + Show(d.certificateState)
  }

  /** `ToShortString()`. */
  function ToShortString(d: CertificateDetails): string
  {
    "Secret Name: " + d.secretName +
    "\n\t" + "Certificate Id: " + Show(d.certificateId) +
    "\n\t" + "Certificate Name: " + Show(d.certificateName)
  }

  /** `ToVersionString()`: the version, then the other fields each on a line
      indented by two tabs. */
  function ToVersionString(d: CertificateDetails): string
  {
    "\tVersion: " + d.version +
    "\n\t\t" + "Serial Number: " + Show(d.serialNumber) +
    "\n\t\t" + "Thumbprint: " + Show(d.thumbprint) +
    "\n\t\t" + "Start Date: " + ShowTime(d.notBefore) +
    "\n\t\t" + "Expiry Date: " + ShowTime(d.expiresOn) +
    "\n\t\t" + "State: " + Show(d.certificateState)
  }

  /** The labelled lines of the listing, in the order they are printed. */
  function Lines(d: CertificateDetails): seq<string>
  {
    [ "Secret Name: " + d.secretName,
      "Certificate Id: " + Show(d.certificateId),
      "Certificate Name: " + Show(d.certificateName),
      "Serial Number: " + Show(d.serialNumber),
      "Thumbprint: " + Show(d.thumbprint),
      "Expiry Date: " + ShowTime(d.expiresOn),
      "State: " + Show(d.certificateState) ]
  }

  /** The lines of the version listing, in the order they are printed: the
      version, then five labelled lines. */
  function VersionLines(d: CertificateDetails): seq<string>
  {
    [ "\tVersion: " + d.version,
      "Serial Number: " + Show(d.serialNumber),
      "Thumbprint: " + Show(d.thumbprint),
      "Start Date: " + ShowTime(d.notBefore),
      "Expiry Date: " + ShowTime(d.expiresOn),
      "State: " + Show(d.certificateState) ]
  }

  /** Joining seven pieces. */
  lemma Join7(l: seq<string>, sep: string)
    requires |l| == 7
    ensures Join(l, sep) == l[0] + sep + l[1] + sep + l[2] + sep + l[3] + sep + l[4] + sep + l[5] + sep + l[6]
  {
    Join6(l[..6], sep);
    JoinPrefix(l, 7, sep);
    assert l[..7] == l;
  }

  /** Appending a labelled line: the separator, then the caption and the
      value. */
  lemma AppendLine(p: string, q: string, sep: string, caption: string, v: string)
    requires p == q
    ensures p + sep + (caption + v) == q + sep + caption + v
  {
  }

  /** The listing is the seven labelled lines joined with "\n\t". */
  lemma ToStringLines(d: CertificateDetails)
    ensures ToString(d) == Join(Lines(d), "\n\t")
  {
    var l := Lines(d);
    var sep := "\n\t";
    Join7(l, sep);
    var p0 := "Secret Name: " + d.secretName;
    AppendLine(l[0], p0, sep, "Certificate Id: ", Show(d.certificateId));
    var p1 := p0 + sep + "Certificate Id: " + Show(d.certificateId);
    AppendLine(l[0] + sep + l[1], p1, sep, "Certificate Name: ", Show(d.certificateName));
    var p2 := p1 + sep + "Certificate Name: " + Show(d.certificateName);
    AppendLine(l[0] + sep + l[1] + sep + l[2], p2, sep, "Serial Number: ", Show(d.serialNumber));
    var p3 := p2 + sep + "Serial Number: " + Show(d.serialNumber);
    AppendLine(l[0] + sep + l[1] + sep + l[2] + sep + l[3], p3, sep, "Thumbprint: ", Show(d.thumbprint));
    var p4 := p3 + sep + "Thumbprint: " + Show(d.thumbprint);
    AppendLine(l[0] + sep + l[1] + sep + l[2] + sep + l[3] + sep + l[4], p4, sep, "Expiry Date: ", ShowTime(d.expiresOn));
    var p5 := p4 + sep + "Expiry Date: " + ShowTime(d.expiresOn);
    AppendLine(l[0] + sep + l[1] + sep + l[2] + sep + l[3] + sep + l[4] + sep + l[5], p5, sep, "State: ", Show(d.certificateState));
  }

  /** Joining the first `k` pieces is joining the first `k - 1` and then
      the `k`-th. */
  lemma JoinPrefix(l: seq<string>, k: nat, sep: string)
    requires 2 <= k <= |l|
    ensures Join(l[..k], sep) == Join(l[..k - 1], sep) + sep + l[k - 1]
  {
    assert l[..k] == l[..k - 1] + [l[k - 1]];
    JoinSnoc(l[..k - 1], l[k - 1], sep);
  }

  /** Joining three pieces. */
  lemma Join3(l: seq<string>, sep: string)
    requires |l| == 3
    ensures Join(l, sep) == l[0] + sep + l[1] + sep + l[2]
  {
    assert l[..1] == [l[0]];
    JoinPrefix(l, 2, sep);
    JoinPrefix(l, 3, sep);
    assert l[..3] == l;
  }

  /** Joining six pieces. */
  lemma Join6(l: seq<string>, sep: string)
    requires |l| == 6
    ensures Join(l, sep) == l[0] + sep + l[1] + sep + l[2] + sep + l[3] + sep + l[4] + sep + l[5]
  {
    Join3(l[..3], sep);
    JoinPrefix(l, 4, sep);
    JoinPrefix(l, 5, sep);
    JoinPrefix(l, 6, sep);
    assert l[..6] == l;
  }

  /** The short listing is the first three labelled lines of the listing. */
  lemma ShortStringLines(d: CertificateDetails)
    ensures ToShortString(d) == Join(Lines(d)[..3], "\n\t")
  {
    var l := Lines(d)[..3];
    var sep := "\n\t";
    Join3(l, sep);
    var p0 := "Secret Name: " + d.secretName;
    AppendLine(l[0], p0, sep, "Certificate Id: ", Show(d.certificateId));
    var p1 := p0 + sep + "Certificate Id: " + Show(d.certificateId);
    AppendLine(l[0] + sep + l[1], p1, sep, "Certificate Name: ", Show(d.certificateName));
  }

  /** The version listing is "\tVersion: " and the version, then the serial
      number, thumbprint, start date, expiry date and state, each labelled
      line after "\n\t\t". */
  lemma VersionStringLines(d: CertificateDetails)
    ensures ToVersionString(d) == Join(VersionLines(d), "\n\t\t")
  {
    var l := VersionLines(d);
    var sep := "\n\t\t";
    Join6(l, sep);
    var p0 := "\tVersion: " + d.version;
    AppendLine(l[0], p0, sep, "Serial Number: ", Show(d.serialNumber));
    var p1 := p0 + sep + "Serial Number: " + Show(d.serialNumber);
    AppendLine(l[0] + sep + l[1], p1, sep, "Thumbprint: ", Show(d.thumbprint));
    var p2 := p1 + sep + "Thumbprint: " + Show(d.thumbprint);
    AppendLine(l[0] + sep + l[1] + sep + l[2], p2, sep, "Start Date: ", ShowTime(d.notBefore));
    var p3 := p2 + sep + "Start Date: " + ShowTime(d.notBefore);
    AppendLine(l[0] + sep + l[1] + sep + l[2] + sep + l[3], p3, sep, "Expiry Date: ", ShowTime(d.expiresOn));
    var p4 := p3 + sep + "Expiry Date: " + ShowTime(d.expiresOn);
    AppendLine(l[0] + sep + l[1] + sep + l[2] + sep + l[3] + sep + l[4], p4, sep, "State: ", Show(d.certificateState));
  }
}
