/** The collaborators the program reaches through .NET: the exceptions it
    catches or lets escape, the operating system it runs on, X.509
    certificates as records, and the machine state it changes (directories,
    files, and the Windows certificate stores). */
module Runtime {
  import opened Wrappers

  /** The exception types whose handling the program distinguishes. */
  datatype Exc =
    | RequestFailed          // Azure.RequestFailedException
    | CredentialUnavailable  // Azure.Identity.CredentialUnavailableException
    | NotSupported           // System.NotSupportedException
    | Format                 // System.FormatException (malformed base64)
    | Cryptographic          // CryptographicException (PKCS#12 or PEM import)
    | ArgumentNull           // System.ArgumentNullException
    | Argument               // System.ArgumentException (duplicate key, empty path)
    | IndexOutOfRange        // ArgumentOutOfRangeException on chain[0]
    | NullReference          // System.NullReferenceException
    | MoreThanOneMatch       // InvalidOperationException from SingleOrDefault
    | IO                     // IOException and friends

  datatype Platform = Windows | Linux | MacOS

  /** `Environment.NewLine`, which `StringBuilder.AppendLine` appends. */
  function NewLine(p: Platform): (nl: string)
    ensures nl == "\n" || nl == "\r\n"
    ensures p.Windows? <==> |nl| == 2
  {
    if p.Windows? then "\r\n" else "\n"
  }

  /** The private key a certificate carries: none, an RSA key (with its
      PKCS#8 export), or a key of another algorithm. */
  datatype KeyInfo = NoKey | RsaKey(pkcs8: seq<bv8>) | OtherKey

  /** An X.509 certificate as the program sees it, with its DER encoding. */
  datatype X509 = X509(
    subject: string,
    issuer: string,
    thumbprint: string,
    friendlyName: string,
    der: seq<bv8>,
    key: KeyInfo)
  {
    predicate HasPrivateKey() { !key.NoKey? }
  }

  /** `X509KeyStorageFlags` as the program uses them. */
  datatype KeyStorageFlags = DefaultKeySet | Exportable

  /** Foreign encoders and decoders: `Convert.FromBase64String`,
      `X509Certificate2Collection.Import` and `PemEncoding.Write` (a label
      and the bytes to encode give the text of a PEM block). */
  datatype Crypto = Crypto(
    fromBase64: string -> Option<seq<bv8>>,
    importPkcs12: (seq<bv8>, KeyStorageFlags) -> Result<seq<X509>, Exc>,
    pemWrite: (string, seq<bv8>) -> string)

  /** A file's text and whether its permissions were narrowed to owner
      read/write. */
  datatype FileEntry = FileEntry(text: string, ownerOnly: bool)

  datatype StoreLocation = CurrentUser | LocalMachine
  datatype StoreName = My | Root | CertificateAuthority

  /** The machine state the program changes. A store that is not in `stores`
      is empty. */
  datatype HostState = HostState(
    dirs: set<string>,
    files: map<string, FileEntry>,
    stores: map<(StoreLocation, StoreName), seq<X509>>)
  {
    function Store(loc: StoreLocation, name: StoreName): seq<X509>
    {
      if (loc, name) in stores then stores[(loc, name)] else []
    }
  }

  /** The machine itself, changed in place by the stores and the flows. */
  class Host {
    var dirs: set<string>
    var files: map<string, FileEntry>
    var stores: map<(StoreLocation, StoreName), seq<X509>>

    function State(): HostState
      reads this
    {
      HostState(dirs, files, stores)
    }

    constructor (initial: HostState)
      ensures State() == initial
    {
      dirs, files, stores := initial.dirs, initial.files, initial.stores;
    }

    /** `File.WriteAllText`: replaces the text and keeps the permissions of a
        file that already exists. */
    method WriteAllText(path: string, text: string)
      modifies this
      ensures State() == old(State()).(files := WriteText(old(files), path, text))
    {
      files := WriteText(files, path, text);
    }

    /** `Directory.CreateDirectory`. */
    method CreateDirectory(path: string)
      modifies this
      ensures State() == old(State()).(dirs := old(dirs) + {path})
    {
      dirs := dirs + {path};
    }
  }

  /** The file map after `File.WriteAllText(path, text)`. */
  function WriteText(files: map<string, FileEntry>, path: string, text: string): (r: map<string, FileEntry>)
    ensures r.Keys == files.Keys + {path}
    ensures r[path].text == text
    ensures r[path].ownerOnly == (path in files && files[path].ownerOnly)
    ensures forall p | p in files && p != path :: r[p] == files[p]
  {
    files[path := FileEntry(text, path in files && files[path].ownerOnly)]
  }
}
