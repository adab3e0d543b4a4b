/** The file-tree certificate store (Stores/FileCertificateStore.cs): one
    directory per certificate under a base path, holding the certificate,
    its chain and its key as PEM files. */
module FileStore {
  import opened Wrappers
  import opened Text
  import opened Runtime
  import opened Identity
  import opened CertificateExtensions
  import opened Results

  const CertPem := "cert.pem"
  const PrivkeyPem := "privkey.pem"
  const ChainPem := "chain.pem"
  const FullchainPem := "fullchain.pem"
  const FullkeychainPem := "fullchain.privkey.pem"

  /** `Exists(cert)`: whether `cert.pem` in the certificate's directory holds
      a certificate with the expected thumbprint. A file that is missing or
      cannot be read as a certificate means "not there"; the private key is
      not looked at. `readCertificate` stands for `new X509Certificate2(file)`
      applied to the file's text. */
  function Exists(files: map<string, FileEntry>, basePath: string, cert: CertificateDetails,
                  readCertificate: string -> Option<X509>): (r: Result<bool, Exc>)
    ensures r.Err? <==> cert.certificateName.None?
    ensures r.Err? ==> r.error == ArgumentNull
    ensures r == Ok(true) <==>
      && cert.certificateName.Some?
      && var p := Combine3(basePath, cert.certificateName.value, CertPem);
      && p in files
      && readCertificate(files[p].text).Some?
      && EqualsIgnoreCaseOpt(cert.thumbprint, Some(readCertificate(files[p].text).value.thumbprint))
  {
    var p := GetFilePath(cert, basePath, CertPem);
    if p.Err? then Err(p.error)
    else if p.value !in files then Ok(false)
    else
      var x509 := readCertificate(files[p.value].text);
      if x509.None? then Ok(false)
      else Ok(EqualsIgnoreCaseOpt(cert.thumbprint, Some(x509.value.thumbprint)))
  }

  /** Whether the certificate in `cert.pem` carries a private key makes no
      difference to `Exists`. */
  lemma ExistsIgnoresKey(files: map<string, FileEntry>, basePath: string, cert: CertificateDetails,
                         read1: string -> Option<X509>, read2: string -> Option<X509>)
    requires forall t :: read1(t).None? <==> read2(t).None?
    requires forall t :: read1(t).Some? ==> read1(t).value.(key := NoKey) == read2(t).value.(key := NoKey)
    ensures Exists(files, basePath, cert, read1) == Exists(files, basePath, cert, read2)
  {
    var p := GetFilePath(cert, basePath, CertPem);
    if p.Ok? && p.value in files {
      var t := files[p.value].text;
      if read1(t).Some? {
        assert read1(t).value.thumbprint == read1(t).value.(key := NoKey).thumbprint;
        assert read2(t).value.thumbprint == read2(t).value.(key := NoKey).thumbprint;
      }
    }
  }

  /** The text a `StringBuilder` holds after `AppendLine` of each
      certificate's PEM in turn. */
  function ChainText(crypto: Crypto, chain: seq<X509>, nl: string): string
  {
    if chain == [] then "" else ChainText(crypto, chain[..|chain| - 1], nl) + CertificatePem(crypto, chain[|chain| - 1]) + nl
  }

  /** The chain text is the first certificate's PEM and line break followed by
      the chain text of the rest. */
  lemma {:induction false} ChainTextCons(crypto: Crypto, chain: seq<X509>, nl: string)
    requires chain != []
    ensures ChainText(crypto, chain, nl) == CertificatePem(crypto, chain[0]) + nl + ChainText(crypto, chain[1..], nl)
    decreases |chain|
  {
    if |chain| > 1 {
      var init := chain[..|chain| - 1];
      var rest := chain[1..];
      var last := CertificatePem(crypto, chain[|chain| - 1]);
      var p0 := CertificatePem(crypto, chain[0]);
      var x := ChainText(crypto, init[1..], nl);
      assert init[1..] == rest[..|rest| - 1];
      assert rest[|rest| - 1] == chain[|chain| - 1];
      assert ChainText(crypto, rest, nl) == x + last + nl;
      ChainTextCons(crypto, init, nl);
      assert init[0] == chain[0];
      assert ChainText(crypto, init, nl) == p0 + nl + x;
      assert ChainText(crypto, chain, nl) == ChainText(crypto, init, nl) + last + nl;
      Assoc(p0 + nl, x, last, nl);
    } else {
      assert chain[..0] == [];
      assert chain[1..] == [];
    }
  }

  /** Concatenation regroups. */
  lemma Assoc(a: string, b: string, c: string, d: string)
    ensures a + b + c + d == a + (b + c + d)
  {
  }

  /** Appending one certificate to the chain appends its PEM and a line
      break to the text. */
  lemma ChainTextSnoc(crypto: Crypto, chain: seq<X509>, c: X509, nl: string)
    ensures ChainText(crypto, chain + [c], nl) == ChainText(crypto, chain, nl) + CertificatePem(crypto, c) + nl
  {
    assert (chain + [c])[..|chain|] == chain;
  }

  /** `CreateFileWithUserReadWrite`: on Linux, an empty file readable and
      writable by its owner only; elsewhere nothing. */
  function CreateUserOnly(platform: Platform, files: map<string, FileEntry>, path: string): (r: map<string, FileEntry>)
    ensures platform.Linux? ==> r == files[path := FileEntry("", true)]
    ensures !platform.Linux? ==> r == files
  {
    if platform.Linux? then files[path := FileEntry("", true)] else files
  }

  /** The files after writing the certificate, its chain and the full chain
      into `dir`. */
  function WriteCertificates(crypto: Crypto, files: map<string, FileEntry>, dir: string, chain: seq<X509>, nl: string): map<string, FileEntry>
    requires chain != []
  {
    var f1 := WriteText(files, Combine(dir, CertPem), CertificatePem(crypto, chain[0]));
    var f2 := WriteText(f1, Combine(dir, ChainPem), ChainText(crypto, chain[1..], nl));
    WriteText(f2, Combine(dir, FullchainPem), ChainText(crypto, chain, nl))
  }

  /** The files after writing the key and the full chain with the key, each
      first narrowed to its owner on Linux. */
  function WriteKeys(files: map<string, FileEntry>, dir: string, fullChain: string, key: string, nl: string, platform: Platform): map<string, FileEntry>
  {
    var f1 := WriteText(CreateUserOnly(platform, files, Combine(dir, PrivkeyPem)), Combine(dir, PrivkeyPem), key);
    WriteText(CreateUserOnly(platform, f1, Combine(dir, FullkeychainPem)), Combine(dir, FullkeychainPem), fullChain + key + nl)
  }

  /** `Save(cert, chain)` on the machine state: the new state and the result
      or the exception. An empty chain throws after the directory was made; a
      key that cannot be exported throws after the certificate files were
      written. */
  function SaveSpec(st: HostState, basePath: string, cert: CertificateDetails, chain: seq<X509>, platform: Platform, crypto: Crypto)
    : (HostState, Result<DownloadResult, Exc>)
  {
    var dir := GetPath(cert, basePath);
    if dir.Err? then (st, Err(dir.error))
    else
      var st1 := st.(dirs := st.dirs + {dir.value});
      if chain == [] then (st1, Err(IndexOutOfRange))
      else
        var nl := NewLine(platform);
        var files := WriteCertificates(crypto, st1.files, dir.value, chain, nl);
        var done := WithPath(NewResult(Downloaded, Some(cert)), dir.value);
        if !chain[0].HasPrivateKey() then (st1.(files := files), Ok(done))
        else
          var key := PrivateKeyPem(crypto, chain[0]);
          if key.Err? then (st1.(files := files), Err(key.error))
          else (st1.(files := WriteKeys(files, dir.value, ChainText(crypto, chain, nl), key.value, nl, platform)), Ok(done))
  }

  /** `Save(cert, chain)`, step by step on the machine. */
  method Save(host: Host, basePath: string, cert: CertificateDetails, chain: seq<X509>, platform: Platform, crypto: Crypto)
    returns (r: Result<DownloadResult, Exc>)
    modifies host
    ensures (host.State(), r) == SaveSpec(old(host.State()), basePath, cert, chain, platform, crypto)
  {
    var dir := GetPath(cert, basePath);
    if dir.Err? {
      return Err(dir.error);
    }
    host.CreateDirectory(dir.value);
    if chain == [] {
      return Err(IndexOutOfRange);
    }
    var nl := NewLine(platform);
    var pemFullChain := SaveCertificates(host, dir.value, chain, nl, crypto);
    if chain[0].HasPrivateKey() {
      var privKey := PrivateKeyPem(crypto, chain[0]);
      if privKey.Err? {
        return Err(privKey.error);
      }
      SaveKeys(host, dir.value, pemFullChain, privKey.value, nl, platform);
    }
    return Ok(WithPath(NewResult(Downloaded, Some(cert)), dir.value));
  }

  /** Writes `cert.pem`, builds the chain and the full chain, and writes
      them; returns the full chain's text. */
  method SaveCertificates(host: Host, dir: string, chain: seq<X509>, nl: string, crypto: Crypto) returns (pemFullChain: string)
    requires chain != []
    modifies host
    ensures pemFullChain == ChainText(crypto, chain, nl)
    ensures host.State() == old(host.State()).(files := WriteCertificates(crypto, old(host.files), dir, chain, nl))
  {
    var pemCert := CertificatePem(crypto, chain[0]);
    host.WriteAllText(Combine(dir, CertPem), pemCert);
    var pemChain;
    pemChain, pemFullChain := BuildChains(chain, nl, crypto);
    host.WriteAllText(Combine(dir, ChainPem), pemChain);
    host.WriteAllText(Combine(dir, FullchainPem), pemFullChain);
  }

  /** One more certificate of the chain extends both chain texts by its
      PEM line. */
  lemma ChainTextStep(crypto: Crypto, chain: seq<X509>, i: nat, nl: string)
    requires 1 <= i < |chain|
    ensures ChainText(crypto, chain[1..i + 1], nl) == ChainText(crypto, chain[1..i], nl) + CertificatePem(crypto, chain[i]) + nl
    ensures ChainText(crypto, chain[..i + 1], nl) == ChainText(crypto, chain[..i], nl) + CertificatePem(crypto, chain[i]) + nl
  {
    ChainTextSnoc(crypto, chain[1..i], chain[i], nl);
    assert chain[1..i] + [chain[i]] == chain[1..i + 1];
    ChainTextSnoc(crypto, chain[..i], chain[i], nl);
    assert chain[..i] + [chain[i]] == chain[..i + 1];
  }

  /** The two `StringBuilder`s of `Save`: the full chain starts with the
      leaf's PEM line, then every other certificate's PEM line is appended to
      both in chain order. */
  method BuildChains(chain: seq<X509>, nl: string, crypto: Crypto) returns (pemChain: string, pemFullChain: string)
    requires chain != []
    ensures pemChain == ChainText(crypto, chain[1..], nl)
    ensures pemFullChain == ChainText(crypto, chain, nl)
  {
    pemFullChain := CertificatePem(crypto, chain[0]) + nl;
    assert pemFullChain == ChainText(crypto, chain[..1], nl) by {
      assert chain[..1][..0] == [];
    }
    pemChain := "";
    for i := 1 to |chain|
      invariant pemChain == ChainText(crypto, chain[1..i], nl)
      invariant pemFullChain == ChainText(crypto, chain[..i], nl)
    {
      var pem := CertificatePem(crypto, chain[i]);
      ChainTextStep(crypto, chain, i, nl);
      pemChain := pemChain + pem + nl;
      pemFullChain := pemFullChain + pem + nl;
    }
    assert chain[..|chain|] == chain;
    assert chain[1..|chain|] == chain[1..];
  }

  /** Writes the key and the full chain followed by the key, each into a file
      first narrowed to its owner. */
  method SaveKeys(host: Host, dir: string, pemFullChain: string, privKey: string, nl: string, platform: Platform)
    modifies host
    ensures host.State() == old(host.State()).(files := WriteKeys(old(host.files), dir, pemFullChain, privKey, nl, platform))
  {
    CreateFileWithUserReadWrite(host, platform, Combine(dir, PrivkeyPem));
    host.WriteAllText(Combine(dir, PrivkeyPem), privKey);
    var pemKeyChain := pemFullChain + privKey + nl;
    CreateFileWithUserReadWrite(host, platform, Combine(dir, FullkeychainPem));
    host.WriteAllText(Combine(dir, FullkeychainPem), pemKeyChain);
  }

  /** `CreateFileWithUserReadWrite(filename)` on the machine. */
  method CreateFileWithUserReadWrite(host: Host, platform: Platform, path: string)
    modifies host
    ensures host.State() == old(host.State()).(files := CreateUserOnly(platform, old(host.files), path))
  {
    if platform.Linux? {
      host.files := host.files[path := FileEntry("", true)];
    }
  }

  /** Two different file names give two different paths in one directory. */
  lemma CombineDistinct(dir: string, f1: string, f2: string)
    requires f1 != "" && f2 != "" && !IsRooted(f1) && !IsRooted(f2) && f1 != f2
    ensures Combine(dir, f1) != Combine(dir, f2)
  {
    if dir != "" {
      var s := if dir[|dir| - 1] == '/' then "" else "/";
      assert (dir + s + f1)[|dir + s|..] == f1;
      assert (dir + s + f2)[|dir + s|..] == f2;
    }
  }

  /** The five file names of a certificate directory. */
  function StoreFiles(dir: string): set<string>
  {
    {Combine(dir, CertPem), Combine(dir, ChainPem), Combine(dir, FullchainPem),
     Combine(dir, PrivkeyPem), Combine(dir, FullkeychainPem)}
  }

  /** The five files of a certificate directory have five different
      paths. */
  lemma StoreFilesDistinct(dir: string)
    ensures Combine(dir, CertPem) != Combine(dir, ChainPem)
    ensures Combine(dir, CertPem) != Combine(dir, FullchainPem)
    ensures Combine(dir, ChainPem) != Combine(dir, FullchainPem)
    ensures Combine(dir, PrivkeyPem) !in {Combine(dir, CertPem), Combine(dir, ChainPem), Combine(dir, FullchainPem)}
    ensures Combine(dir, FullkeychainPem) !in {Combine(dir, CertPem), Combine(dir, ChainPem), Combine(dir, FullchainPem), Combine(dir, PrivkeyPem)}
  {
    CombineDistinct(dir, CertPem, ChainPem);
    CombineDistinct(dir, CertPem, FullchainPem);
    CombineDistinct(dir, ChainPem, FullchainPem);
    CombineDistinct(dir, PrivkeyPem, CertPem);
    CombineDistinct(dir, PrivkeyPem, ChainPem);
    CombineDistinct(dir, PrivkeyPem, FullchainPem);
    CombineDistinct(dir, FullkeychainPem, CertPem);
    CombineDistinct(dir, FullkeychainPem, ChainPem);
    CombineDistinct(dir, FullkeychainPem, FullchainPem);
    CombineDistinct(dir, FullkeychainPem, PrivkeyPem);
  }

  /** The certificate files hold the leaf's PEM, the rest of the chain, and
      the leaf's PEM line followed by the rest of the chain; nothing else
      changes. */
  lemma CertificatesLayout(files: map<string, FileEntry>, dir: string, chain: seq<X509>, nl: string, crypto: Crypto)
    requires chain != []
    ensures var f := WriteCertificates(crypto, files, dir, chain, nl);
      && f.Keys == files.Keys + {Combine(dir, CertPem), Combine(dir, ChainPem), Combine(dir, FullchainPem)}
      && f[Combine(dir, CertPem)].text == CertificatePem(crypto, chain[0])
      && f[Combine(dir, ChainPem)].text == ChainText(crypto, chain[1..], nl)
      && f[Combine(dir, FullchainPem)].text == CertificatePem(crypto, chain[0]) + nl + ChainText(crypto, chain[1..], nl)
      && (forall p | p in {Combine(dir, CertPem), Combine(dir, ChainPem), Combine(dir, FullchainPem)} ::
            f[p].ownerOnly == (p in files && files[p].ownerOnly))
      && forall p | p in files && p !in {Combine(dir, CertPem), Combine(dir, ChainPem), Combine(dir, FullchainPem)} :: f[p] == files[p]
  {
    StoreFilesDistinct(dir);
    ChainTextCons(crypto, chain, nl);
  }

  /** The key files hold the key and the full chain followed by the key; on
      Linux both are readable by their owner only; nothing else changes. */
  lemma KeysLayout(files: map<string, FileEntry>, dir: string, fullChain: string, key: string, nl: string, platform: Platform)
    ensures var f := WriteKeys(files, dir, fullChain, key, nl, platform);
      && f.Keys == files.Keys + {Combine(dir, PrivkeyPem), Combine(dir, FullkeychainPem)}
      && f[Combine(dir, PrivkeyPem)].text == key
      && f[Combine(dir, FullkeychainPem)].text == fullChain + key + nl
      && (platform.Linux? ==> f[Combine(dir, PrivkeyPem)].ownerOnly && f[Combine(dir, FullkeychainPem)].ownerOnly)
      && (!platform.Linux? ==> forall p | p in {Combine(dir, PrivkeyPem), Combine(dir, FullkeychainPem)} ::
            f[p].ownerOnly == (p in files && files[p].ownerOnly))
      && forall p | p in files && p !in {Combine(dir, PrivkeyPem), Combine(dir, FullkeychainPem)} :: f[p] == files[p]
  {
    StoreFilesDistinct(dir);
  }

  /** A successful `Save` creates the certificate's directory, leaves the
      Windows stores alone, and reports Downloaded with the directory as its
      path. */
  lemma SaveResult(st: HostState, basePath: string, cert: CertificateDetails, chain: seq<X509>, platform: Platform, crypto: Crypto)
    requires SaveSpec(st, basePath, cert, chain, platform, crypto).1.Ok?
    ensures cert.certificateName.Some? && chain != []
    ensures var (st2, r) := SaveSpec(st, basePath, cert, chain, platform, crypto);
      var dir := Combine(basePath, cert.certificateName.value);
      && st2.dirs == st.dirs + {dir}
      && st2.stores == st.stores
      && r.value == DownloadResult(Downloaded, cert.certificateName, cert.thumbprint, Some(dir))
  {
  }

  /** What a successful `Save` writes: `cert.pem` holds the leaf's PEM;
      `chain.pem` the rest of the chain, one PEM and line break each;
      `fullchain.pem` the leaf's PEM and line break followed by `chain.pem`'s
      text. The key files are written exactly when the leaf has a private
      key, `fullchain.privkey.pem` being the full chain followed by the key
      and a line break, and on Linux both are readable by their owner only;
      without a key they are left as they were. No other file changes. */
  lemma SaveLayout(st: HostState, basePath: string, cert: CertificateDetails, chain: seq<X509>, platform: Platform, crypto: Crypto)
    requires SaveSpec(st, basePath, cert, chain, platform, crypto).1.Ok?
    ensures cert.certificateName.Some? && chain != []
    ensures var dir := Combine(basePath, cert.certificateName.value);
      var f := SaveSpec(st, basePath, cert, chain, platform, crypto).0.files;
      var nl := NewLine(platform);
      && f[Combine(dir, CertPem)].text == CertificatePem(crypto, chain[0])
      && f[Combine(dir, ChainPem)].text == ChainText(crypto, chain[1..], nl)
      && f[Combine(dir, FullchainPem)].text == CertificatePem(crypto, chain[0]) + nl + ChainText(crypto, chain[1..], nl)
      && (chain[0].HasPrivateKey() ==>
            && f[Combine(dir, PrivkeyPem)].text == PrivateKeyPem(crypto, chain[0]).value
            && f[Combine(dir, FullkeychainPem)].text == ChainText(crypto, chain, nl) + PrivateKeyPem(crypto, chain[0]).value + nl
            && (platform.Linux? ==> f[Combine(dir, PrivkeyPem)].ownerOnly && f[Combine(dir, FullkeychainPem)].ownerOnly))
      && (!chain[0].HasPrivateKey() ==>
            forall p | p in {Combine(dir, PrivkeyPem), Combine(dir, FullkeychainPem)} ::
              (p in f <==> p in st.files) && (p in st.files ==> f[p] == st.files[p]))
      && f.Keys <= st.files.Keys + StoreFiles(dir)
      && forall p | p in st.files && p !in StoreFiles(dir) :: f[p] == st.files[p]
  {
    var dir := Combine(basePath, cert.certificateName.value);
    var nl := NewLine(platform);
    var f1 := WriteCertificates(crypto, st.files, dir, chain, nl);
    StoreFilesDistinct(dir);
    CertificatesLayout(st.files, dir, chain, nl, crypto);
    if chain[0].HasPrivateKey() {
      KeysLayout(f1, dir, ChainText(crypto, chain, nl), PrivateKeyPem(crypto, chain[0]).value, nl, platform);
    }
  }

  /** Writing a file the text it already holds changes nothing. */
  lemma WriteTextFixpoint(files: map<string, FileEntry>, path: string, text: string)
    requires path in files && files[path].text == text
    ensures WriteText(files, path, text) == files
  {
    assert files[path] == FileEntry(text, files[path].ownerOnly);
  }

  /** Writing the certificate files where they already hold that text
      changes nothing. */
  lemma WriteCertificatesFixpoint(files: map<string, FileEntry>, dir: string, chain: seq<X509>, nl: string, crypto: Crypto)
    requires chain != []
    requires Combine(dir, CertPem) in files && files[Combine(dir, CertPem)].text == CertificatePem(crypto, chain[0])
    requires Combine(dir, ChainPem) in files && files[Combine(dir, ChainPem)].text == ChainText(crypto, chain[1..], nl)
    requires Combine(dir, FullchainPem) in files && files[Combine(dir, FullchainPem)].text == ChainText(crypto, chain, nl)
    ensures WriteCertificates(crypto, files, dir, chain, nl) == files
  {
    WriteTextFixpoint(files, Combine(dir, CertPem), CertificatePem(crypto, chain[0]));
    WriteTextFixpoint(files, Combine(dir, ChainPem), ChainText(crypto, chain[1..], nl));
    WriteTextFixpoint(files, Combine(dir, FullchainPem), ChainText(crypto, chain, nl));
  }

  /** Writing the key files where they already hold that text, and on Linux
      are already narrowed to their owner, changes nothing. */
  lemma WriteKeysFixpoint(files: map<string, FileEntry>, dir: string, fullChain: string, key: string, nl: string, platform: Platform)
    requires Combine(dir, PrivkeyPem) in files && files[Combine(dir, PrivkeyPem)].text == key
    requires Combine(dir, FullkeychainPem) in files && files[Combine(dir, FullkeychainPem)].text == fullChain + key + nl
    requires platform.Linux? ==> files[Combine(dir, PrivkeyPem)].ownerOnly && files[Combine(dir, FullkeychainPem)].ownerOnly
    ensures WriteKeys(files, dir, fullChain, key, nl, platform) == files
  {
    var p1 := Combine(dir, PrivkeyPem);
    var p2 := Combine(dir, FullkeychainPem);
    if platform.Linux? {
      StoreFilesDistinct(dir);
      assert files[p1] == FileEntry(key, true);
      assert files[p2] == FileEntry(fullChain + key + nl, true);
      var f1 := WriteText(CreateUserOnly(platform, files, p1), p1, key);
      assert f1 == files;
    } else {
      WriteTextFixpoint(files, p1, key);
      WriteTextFixpoint(files, p2, fullChain + key + nl);
    }
  }

  /** Saving the same chain again changes nothing more: `Save` is
      idempotent. */
  lemma SaveIdempotent(st: HostState, basePath: string, cert: CertificateDetails, chain: seq<X509>, platform: Platform, crypto: Crypto)
    requires SaveSpec(st, basePath, cert, chain, platform, crypto).1.Ok?
    ensures var (st1, r1) := SaveSpec(st, basePath, cert, chain, platform, crypto);
      SaveSpec(st1, basePath, cert, chain, platform, crypto) == (st1, r1)
  {
    var dir := Combine(basePath, cert.certificateName.value);
    var nl := NewLine(platform);
    var st1 := SaveSpec(st, basePath, cert, chain, platform, crypto).0;
    SaveLayout(st, basePath, cert, chain, platform, crypto);
    ChainTextCons(crypto, chain, nl);
    WriteCertificatesFixpoint(st1.files, dir, chain, nl, crypto);
    if chain[0].HasPrivateKey() {
      WriteKeysFixpoint(st1.files, dir, ChainText(crypto, chain, nl), PrivateKeyPem(crypto, chain[0]).value, nl, platform);
    }
  }

  /** After a successful `Save`, `Exists` reports the certificate present,
      provided `cert.pem` reads back as a certificate with the expected
      thumbprint. */
  lemma ExistsAfterSave(st: HostState, basePath: string, cert: CertificateDetails, chain: seq<X509>, platform: Platform,
                        crypto: Crypto, readCertificate: string -> Option<X509>)
    requires SaveSpec(st, basePath, cert, chain, platform, crypto).1.Ok?
    requires chain != [] && readCertificate(CertificatePem(crypto, chain[0])).Some?
    requires EqualsIgnoreCaseOpt(cert.thumbprint, Some(readCertificate(CertificatePem(crypto, chain[0])).value.thumbprint))
    ensures Exists(SaveSpec(st, basePath, cert, chain, platform, crypto).0.files, basePath, cert, readCertificate) == Ok(true)
  {
    var dir := Combine(basePath, cert.certificateName.value);
    Combine3IsNested(basePath, cert.certificateName.value, CertPem);
    SaveLayout(st, basePath, cert, chain, platform, crypto);
  }
}
