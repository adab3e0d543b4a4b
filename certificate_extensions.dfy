/** The vault client as the program uses it, and the extension methods of
    CertificateExtensions.cs: reading certificate identities, locating a
    certificate's files, fetching and decoding a certificate chain, and
    writing certificates and keys as PEM. */
module CertificateExtensions {
  import opened Wrappers
  import opened Text
  import opened Runtime
  import opened Identity

  /** A vault secret: its metadata and its value. */
  datatype KeyVaultSecret = KeyVaultSecret(properties: SecretProperties, value: string)

  /** A `SecretClient` bound to one vault. The network calls are answers given
      in advance: the listing of the vault's secrets, the name-list overload of
      `GetCertificateDetails` (whose body is not part of this model), and the
      answer to `GetSecret` and `SetSecret` for each argument. */
  datatype SecretClient = SecretClient(
    uri: string,
    secrets: Result<seq<SecretProperties>, Exc>,
    byNames: seq<string> -> Result<seq<CertificateDetails>, Exc>,
    getSecret: string -> Result<KeyVaultSecret, Exc>,
    setSecret: KeyVaultSecret -> Option<Exc>)

  /** `secrets.Select(s => new CertificateDetails(s))`. */
  function DetailsOf(secrets: seq<SecretProperties>): (ds: seq<CertificateDetails>)
    ensures |ds| == |secrets|
    ensures forall i :: 0 <= i < |secrets| ==> ds[i] == FromSecret(secrets[i])
  {
    if secrets == [] then [] else [FromSecret(secrets[0])] + DetailsOf(secrets[1..])
  }

  /** `GetCertificateDetails()`: one identity per secret, in listing order. */
  function GetCertificateDetails(client: SecretClient): (r: Result<seq<CertificateDetails>, Exc>)
    ensures client.secrets.Err? ==> r == Err(client.secrets.error)
    ensures client.secrets.Ok? ==> r.Ok? && |r.value| == |client.secrets.value|
    ensures client.secrets.Ok? ==> forall i :: 0 <= i < |r.value| ==> r.value[i] == FromSecret(client.secrets.value[i])
  {
    if client.secrets.Err? then Err(client.secrets.error) else Ok(DetailsOf(client.secrets.value))
  }

  /** The identity's certificate name equals `name` ignoring case; a null
      name equals nothing. */
  predicate Matches(d: CertificateDetails, name: string)
  {
    d.certificateName.Some? && EqualsIgnoreCase(d.certificateName.value, name)
  }

  /** How many identities match `name`. */
  function MatchCount(ds: seq<CertificateDetails>, name: string): nat
  {
    if ds == [] then 0 else (if Matches(ds[0], name) then 1 else 0) + MatchCount(ds[1..], name)
  }

  /** `SingleOrDefault(s => s.CertificateName.Equals(name, ...))` as written:
      the scan continues past the first match, fails on a second match, and
      fails on the first identity it reaches whose name is null, because
      the predicate calls `Equals` on that null. */
  function SingleByNameAsWritten(ds: seq<CertificateDetails>, name: string, found: Option<CertificateDetails>): (r: Result<Option<CertificateDetails>, Exc>)
    ensures r.Err? ==> r.error == NullReference || r.error == MoreThanOneMatch
    ensures (exists d | d in ds :: d.certificateName.None?) ==> r.Err?
    ensures r.Ok? ==> r == SingleByName(ds, name, found)
  {
    if ds == [] then Ok(found)
    else if ds[0].certificateName.None? then Err(NullReference)
    else if Matches(ds[0], name) then
      (if found.Some? then Err(MoreThanOneMatch) else SingleByNameAsWritten(ds[1..], name, Some(ds[0])))
    else SingleByNameAsWritten(ds[1..], name, found)
  }

  /** The same scan with a null-safe comparison: identities without a name
      match nothing. */
  function SingleByName(ds: seq<CertificateDetails>, name: string, found: Option<CertificateDetails>): (r: Result<Option<CertificateDetails>, Exc>)
    ensures r.Err? <==> MatchCount(ds, name) + (if found.Some? then 1 else 0) >= 2
    ensures r.Err? ==> r.error == MoreThanOneMatch
    ensures r == Ok(None) <==> found.None? && MatchCount(ds, name) == 0
    ensures r.Ok? && r.value.Some? ==> r.value == found || (r.value.value in ds && Matches(r.value.value, name))
  {
    if ds == [] then Ok(found)
    else if Matches(ds[0], name) then
      (if found.Some? then Err(MoreThanOneMatch) else SingleByName(ds[1..], name, Some(ds[0])))
    else SingleByName(ds[1..], name, found)
  }

  /** `GetCertificateDetails(name)` as written: the one identity named
      `name` ignoring case, null when there is none, an error when there are
      several, and NullReference as soon as the vault lists a secret that
      yields no certificate name. When it answers, it answers as the
      corrected lookup does. */
  function GetCertificateDetailsByNameAsWritten(client: SecretClient, name: string): (r: Result<Option<CertificateDetails>, Exc>)
    ensures client.secrets.Err? ==> r == Err(client.secrets.error)
    ensures client.secrets.Ok? && (exists s | s in client.secrets.value :: FromSecret(s).certificateName.None?) ==> r.Err?
    ensures r.Ok? ==> r == GetCertificateDetailsByName(client, name)
  {
    var ds := GetCertificateDetails(client);
    if ds.Err? then Err(ds.error)
    else
      assert forall s | s in client.secrets.value :: FromSecret(s) in ds.value by {
        forall s | s in client.secrets.value
          ensures FromSecret(s) in ds.value
        {
          var i :| 0 <= i < |client.secrets.value| && client.secrets.value[i] == s;
          assert ds.value[i] == FromSecret(s);
        }
      }
      SingleByNameAsWritten(ds.value, name, None)
  }

  /** `GetCertificateDetails(name)` as evidently intended: the same lookup
      with secrets that yield no certificate name matching nothing. */
  function GetCertificateDetailsByName(client: SecretClient, name: string): (r: Result<Option<CertificateDetails>, Exc>)
    ensures client.secrets.Err? ==> r == Err(client.secrets.error)
    ensures client.secrets.Ok? ==> r == SingleByName(DetailsOf(client.secrets.value), name, None)
  {
    var ds := GetCertificateDetails(client);
    if ds.Err? then Err(ds.error) else SingleByName(ds.value, name, None)
  }

  /** Every secret the vault lists yields a certificate name. */
  predicate ListsOnlyNamed(client: SecretClient)
  {
    client.secrets.Ok? ==> forall s | s in client.secrets.value :: FromSecret(s).certificateName.Some?
  }

  /** When every listed secret yields a name, the lookup as written and the
      corrected lookup agree. */
  lemma ByNameAgrees(client: SecretClient, name: string)
    requires ListsOnlyNamed(client)
    ensures GetCertificateDetailsByNameAsWritten(client, name) == GetCertificateDetailsByName(client, name)
  {
    if client.secrets.Ok? {
      var ds := DetailsOf(client.secrets.value);
      forall d | d in ds
        ensures d.certificateName.Some?
      {
        var i :| 0 <= i < |ds| && ds[i] == d;
        assert d == FromSecret(client.secrets.value[i]);
      }
      SingleByNameAgrees(ds, name, None);
    }
  }

  /** The found identity is the unique one with that name. */
  lemma {:induction false} SingleByNameUnique(ds: seq<CertificateDetails>, name: string)
    requires SingleByName(ds, name, None).Ok? && SingleByName(ds, name, None).value.Some?
    ensures MatchCount(ds, name) == 1
    ensures Matches(SingleByName(ds, name, None).value.value, name)
  {
  }

  /** While no identity lacks a name, the scan as written and the null-safe
      scan agree. */
  lemma {:induction false} SingleByNameAgrees(ds: seq<CertificateDetails>, name: string, found: Option<CertificateDetails>)
    requires forall d | d in ds :: d.certificateName.Some?
    ensures SingleByNameAsWritten(ds, name, found) == SingleByName(ds, name, found)
  {
    if ds != [] {
      assert ds[0] in ds;
      assert forall d | d in ds[1..] :: d in ds;
      if Matches(ds[0], name) {
        if found.None? {
          SingleByNameAgrees(ds[1..], name, Some(ds[0]));
        }
      } else {
        SingleByNameAgrees(ds[1..], name, found);
      }
    }
  }

  /** One vault secret without a CertificateId tag makes every lookup by name
      fail as written, where the null-safe scan reports that there is no such
      certificate. */
  lemma UntaggedSecretBreaksLookup(secret: SecretProperties, name: string)
    requires "CertificateId" !in secret.tags
    ensures SingleByNameAsWritten([FromSecret(secret)], name, None) == Err(NullReference)
    ensures SingleByName([FromSecret(secret)], name, None) == Ok(None)
  {
  }

  /** Whether `p` is rooted under Unix rules. */
  predicate IsRooted(p: string)
  {
    |p| > 0 && p[0] == '/'
  }

  /** `Path.Combine(a, b)` under Unix rules: an empty part is skipped, a
      rooted second part replaces the first, and otherwise one '/' joins
      them unless the first already ends with one. */
  function Combine(a: string, b: string): (r: string)
    ensures a == "" ==> r == b
    ensures a != "" && b == "" ==> r == a
    ensures a != "" && IsRooted(b) ==> r == b
    ensures a != "" && b != "" && !IsRooted(b) ==>
      r == a + (if a[|a| - 1] == '/' then "" else "/") + b
  {
    if a == "" then b
    else if b == "" then a
    else if IsRooted(b) then b
    else if a[|a| - 1] == '/' then a + b
    else a + "/" + b
  }

  /** `Path.Combine(a, b, c)` under Unix rules. */
  function Combine3(a: string, b: string, c: string): string
  {
    if a == "" then Combine(b, c)
    else if b == "" then Combine(a, c)
    else if c == "" then Combine(a, b)
    else if IsRooted(c) then c
    else if IsRooted(b) then Combine(b, c)
    else
      a + (if a[|a| - 1] == '/' then "" else "/") + b + (if b[|b| - 1] == '/' then "" else "/") + c
  }

  /** Combining three parts is combining the first two, then the third. */
  lemma Combine3IsNested(a: string, b: string, c: string)
    ensures Combine3(a, b, c) == Combine(Combine(a, b), c)
  {
    if a != "" && b != "" && c != "" && !IsRooted(c) && !IsRooted(b) {
      var ab := Combine(a, b);
      var s1 := if a[|a| - 1] == '/' then "" else "/";
      assert ab == a + s1 + b;
      assert ab[|ab| - 1] == b[|b| - 1];
    }
  }

  /** `GetPath(basePath)`: the certificate's directory. A null name makes
      `Path.Combine` throw. */
  function GetPath(cert: CertificateDetails, basePath: string): (r: Result<string, Exc>)
    ensures r.Err? <==> cert.certificateName.None?
    ensures r.Err? ==> r.error == ArgumentNull
    ensures r.Ok? ==> r.value == Combine(basePath, cert.certificateName.value)
  {
    if cert.certificateName.None? then Err(ArgumentNull) else Ok(Combine(basePath, cert.certificateName.value))
  }

  /** `GetPath(basePath, fileName)`. */
  function GetFilePath(cert: CertificateDetails, basePath: string, fileName: string): Result<string, Exc>
  {
    if cert.certificateName.None? then Err(ArgumentNull) else Ok(Combine3(basePath, cert.certificateName.value, fileName))
  }

  /** A file's path is the file name combined onto the certificate's
      directory. */
  lemma FilePathInDirectory(cert: CertificateDetails, basePath: string, fileName: string)
    ensures GetFilePath(cert, basePath, fileName).Err? <==> GetPath(cert, basePath).Err?
    ensures GetFilePath(cert, basePath, fileName).Ok? ==>
      GetFilePath(cert, basePath, fileName).value == Combine(GetPath(cert, basePath).value, fileName)
  {
    if cert.certificateName.Some? {
      Combine3IsNested(basePath, cert.certificateName.value, fileName);
    }
  }

  const Pkcs12ContentType := "application/x-pkcs12"

  /** The key-storage flags of the import. */
  function StorageFlags(keyExportable: bool): (f: KeyStorageFlags)
    ensures f == Exportable <==> keyExportable
  {
    if keyExportable then Exportable else DefaultKeySet
  }

  /** `GetCertificate(secretName, keyExportable)`: fetch the secret, refuse a
      content type other than PKCS#12 (RFC 7292), decode the base64 value and
      import the chain. */
  function GetCertificate(client: SecretClient, secretName: string, keyExportable: bool, crypto: Crypto): (r: Result<seq<X509>, Exc>)
    ensures client.getSecret(secretName).Err? ==> r == Err(client.getSecret(secretName).error)
    ensures (client.getSecret(secretName).Ok? &&
      !EqualsIgnoreCaseOpt(Some(Pkcs12ContentType), client.getSecret(secretName).value.properties.contentType))
      ==> r == Err(NotSupported)
  {
    var fetched := client.getSecret(secretName);
    if fetched.Err? then Err(fetched.error)
    else if !EqualsIgnoreCaseOpt(Some(Pkcs12ContentType), fetched.value.properties.contentType) then Err(NotSupported)
    else
      var pfx := crypto.fromBase64(fetched.value.value);
      if pfx.None? then Err(Format)
      else crypto.importPkcs12(pfx.value, StorageFlags(keyExportable))
  }

  /** The content-type check comes before any decoding: a secret that is not
      PKCS#12 is refused whatever the decoders would have done. */
  lemma RefusedBeforeDecoding(client: SecretClient, secretName: string, keyExportable: bool, c1: Crypto, c2: Crypto)
    requires client.getSecret(secretName).Ok?
    requires !EqualsIgnoreCaseOpt(Some(Pkcs12ContentType), client.getSecret(secretName).value.properties.contentType)
    ensures GetCertificate(client, secretName, keyExportable, c1) == GetCertificate(client, secretName, keyExportable, c2) == Err(NotSupported)
  {
  }

  /** A PKCS#12 secret, in any letter case, is decoded and imported with the
      Exportable flag exactly when an exportable key was asked for. */
  lemma ImportedWithFlags(client: SecretClient, secretName: string, keyExportable: bool, crypto: Crypto)
    requires client.getSecret(secretName).Ok?
    requires client.getSecret(secretName).value.properties.contentType.Some?
    requires EqualsIgnoreCase(client.getSecret(secretName).value.properties.contentType.value, Pkcs12ContentType)
    requires crypto.fromBase64(client.getSecret(secretName).value.value).Some?
    ensures GetCertificate(client, secretName, keyExportable, crypto) ==
      crypto.importPkcs12(crypto.fromBase64(client.getSecret(secretName).value.value).value,
        if keyExportable then Exportable else DefaultKeySet)
  {
  }

  /** `ToCertificatePEM()`: the certificate's DER encoding in a PEM block
      labelled "CERTIFICATE" (section 5 of RFC 7468). */
  function CertificatePem(crypto: Crypto, c: X509): (pem: string)
    ensures pem == crypto.pemWrite("CERTIFICATE", c.der)
  {
    crypto.pemWrite("CERTIFICATE", c.der)
  }

  /** `ToPrivateKeyPEM()`: the RSA key's PKCS#8 export in a PEM block
      labelled "PRIVATE KEY" (section 10 of RFC 7468). A certificate without
      an RSA key yields a null key, and exporting it throws. */
  function PrivateKeyPem(crypto: Crypto, c: X509): (r: Result<string, Exc>)
    ensures r.Ok? <==> c.key.RsaKey?
    ensures r.Ok? ==> r.value == crypto.pemWrite("PRIVATE KEY", c.key.pkcs8)
    ensures r.Err? ==> r.error == NullReference
  {
    if c.key.RsaKey? then Ok(crypto.pemWrite("PRIVATE KEY", c.key.pkcs8)) else Err(NullReference)
  }

  /** `names.Except(certNames, ...IgnoreCase)`: the requested names that no
      returned certificate name matches ignoring case. */
  function MissingNames(names: seq<string>, certs: seq<CertificateDetails>): (missing: seq<string>)
    ensures forall n | n in missing :: n in names && forall d | d in certs :: !Matches(d, n)
    ensures forall n | n in names :: (forall d | d in certs :: !Matches(d, n)) ==> n in missing
  {
    if names == [] then []
    else
      var rest := MissingNames(names[1..], certs);
      if exists d | d in certs :: Matches(d, names[0]) then rest else [names[0]] + rest
  }
}
