/** `ICertificateStore` (Stores/ICertificateStore.cs): the two places a
    certificate can be kept, each answering whether a certificate is already
    there and saving a chain. */
module Stores {
  import opened Wrappers
  import opened Runtime
  import opened Identity
  import opened Results
  import FileStore
  import WindowsStore

  datatype CertificateStore =
    | FileCertificateStore(path: string)
    | WindowsCertificateStore(location: StoreLocation)

  /** `store.Exists(cert)`. */
  function Exists(store: CertificateStore, st: HostState, cert: CertificateDetails, readCertificate: string -> Option<X509>)
    : (r: Result<bool, Exc>)
    ensures store.FileCertificateStore? ==> r == FileStore.Exists(st.files, store.path, cert, readCertificate)
    ensures store.WindowsCertificateStore? ==> r == WindowsStore.Exists(st, store.location, cert)
  {
    match store
    case FileCertificateStore(path) => FileStore.Exists(st.files, path, cert, readCertificate)
    case WindowsCertificateStore(location) => WindowsStore.Exists(st, location, cert)
  }

  /** `store.Save(cert, chain)` on the machine state. */
  function SaveSpec(store: CertificateStore, st: HostState, cert: CertificateDetails, chain: seq<X509>, platform: Platform, crypto: Crypto)
    : (HostState, Result<DownloadResult, Exc>)
  {
    match store
    case FileCertificateStore(path) => FileStore.SaveSpec(st, path, cert, chain, platform, crypto)
    case WindowsCertificateStore(location) => WindowsStore.SaveSpec(st, location, cert, chain)
  }

  /** `store.Save(cert, chain)` on the machine. */
  method Save(store: CertificateStore, host: Host, cert: CertificateDetails, chain: seq<X509>, platform: Platform, crypto: Crypto)
    returns (r: Result<DownloadResult, Exc>)
    modifies host
    ensures (host.State(), r) == SaveSpec(store, old(host.State()), cert, chain, platform, crypto)
  {
    match store
    case FileCertificateStore(path) =>
      r := FileStore.Save(host, path, cert, chain, platform, crypto);
    case WindowsCertificateStore(location) =>
      r := WindowsStore.Save(host, location, cert, chain);
  }

  /** Either store reports a successful save as Downloaded for that
      certificate. */
  lemma SaveReportsDownloaded(store: CertificateStore, st: HostState, cert: CertificateDetails, chain: seq<X509>, platform: Platform, crypto: Crypto)
    requires SaveSpec(store, st, cert, chain, platform, crypto).1.Ok?
    ensures var r := SaveSpec(store, st, cert, chain, platform, crypto).1.value;
      r.status == Downloaded && r.certificateName == cert.certificateName && r.thumbprint == cert.thumbprint
  {
  }
}
