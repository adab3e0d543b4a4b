/** The outcome of downloading one certificate (Models/DownloadResult.cs). */
module Results {
  import opened Wrappers
  import Identity

  datatype DownloadStatus = Downloaded | AlreadyExists | Error

  /** Every field is fixed at construction except `path`, which starts unset
      and is filled in afterwards by an object initializer. */
  datatype DownloadResult = DownloadResult(
    status: DownloadStatus,
    certificateName: Option<string>,
    thumbprint: Option<string>,
    path: Option<string>)

  /** `new DownloadResult(status, cert)`, where `cert` may be omitted. */
  function NewResult(status: DownloadStatus, cert: Option<Identity.CertificateDetails>): (r: DownloadResult)
    ensures r.status == status
    ensures r.path.None?
    ensures cert.Some? ==> r.certificateName == cert.value.certificateName && r.thumbprint == cert.value.thumbprint
    ensures cert.None? ==> r.certificateName.None? && r.thumbprint.None?
  {
    if cert.Some? then DownloadResult(status, cert.value.certificateName, cert.value.thumbprint, None)
    else DownloadResult(status, None, None, None)
  }

  /** `new DownloadResult(...) { Path = p }`: sets the path and nothing else. */
  function WithPath(r: DownloadResult, p: string): (q: DownloadResult)
    ensures q.path == Some(p)
    ensures q.status == r.status && q.certificateName == r.certificateName && q.thumbprint == r.thumbprint
  {
    r.(path := Some(p))
  }
}
