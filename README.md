# keyvault-certsync in Dafny

keyvault-certsync is a command-line tool. It keeps TLS certificates stored in an
Azure Key Vault in step with the machines that use them. This project models its
core and proves properties of the model:

- **Downloading** (`DownloadFlow`). The tool lists the vault's certificate secrets,
  optionally narrowed to the names given with `--name`. It fetches each PKCS#12
  secret and saves it into a certificate store. It then runs an optional post hook
  over the certificates it actually downloaded.
- **The two certificate stores** (`Stores`):
  - The PEM file store (`FileStore`) writes `cert.pem`, `chain.pem` and
    `fullchain.pem`. When the leaf has a private key it also writes `privkey.pem`
    and `fullchain.privkey.pem`, owner-only on Linux.
  - The Windows X509 store (`WindowsStore`) replaces the leaf in `My` by
    thumbprint. It adds each chain certificate, unless already present, to `Root`
    when it is self-signed and to `CertificateAuthority` otherwise.
- **Uploading** (`UploadFlow`). The tool reads a PEM certificate, key and optional
  chain. It decides whether the vault's copy must be replaced, and under which
  secret name.
- **Listing** (`ListFlow`) and **syncing** (`SyncFlow`, which replays every
  saved `download_*.json` configuration).
- **Certificate identity**: the `CertificateDetails` model (`Identity`) and its
  legacy twin (`LegacyIdentity`).
- **Support code**:
  - the vault helpers (`CertificateExtensions`);
  - the deploy and post hooks (`Hooks`);
  - the saved Azure environment (`Config`);
  - the flow base class (`Flows`).

The machine is a value, `Runtime.HostState`, that holds three things:
- existing directories;
- files, each with its text and an owner-only bit;
- the X509 stores, keyed by location and store name.

It is wrapped in the class `Runtime.Host`, whose fields the imperative operations
update. Each method that changes the machine has a pure specification function
(`…Spec`, `DownloadAll`, `Replay`), and its `ensures` ties the new state and the
result to that function. The lemmas then prove what the tool promises about those
functions:
- what each file holds after a save;
- that saving twice changes nothing;
- that a saved certificate is then found as existing;
- that stores never gain duplicate thumbprints;
- which exit code a run ends with.

Exceptions are `Result` errors (`Runtime.Exc`). The flow base class turns any
escaping exception into the exit code -1.

Behaviour outside the repository is a function-typed field of a context datatype.
This covers:
- the vault's listing, `GetSecret` and `SetSecret`;
- base64 and PKCS#12 decoding;
- PEM writing and reading;
- JSON reading and writing;
- process launch.

The store interface `ICertificateStore` is a datatype with one variant per
implementation, and calls dispatch on it.

## Model

| member | source | states |
|---|---|---|
| Flows.VaultUri | Flows/BaseFlow.cs:20 | the client URI is `https://`, then the vault name, then `.vault.azure.net`, with the name at a fixed offset |
| Flows.VaultUriInjective | Flows/BaseFlow.cs:20 | two vault names that give the same URI are the same name |
| Flows.Run | Flows/BaseFlow.cs:24-45 | a normal return passes the flow's code through; any exception gives -1; a code other than -1 always comes from a normal return |
| Flows.SelectCertificates | Flows/DownloadFlow.cs:34-51 | with `--name`, the comma-split names go to the vault; the selection fails with -1 exactly when some requested name matches no returned certificate; otherwise every name is matched; without a name, all the vault's certificates are selected |
| Flows.FlowBase.constructor | Flows/BaseFlow.cs:13-16 | the parameterless constructor creates no vault client |
| Flows.FlowBase.Connect | Flows/BaseFlow.cs:18-22 | the client is bound to the vault's URI |
| CertificateExtensions.DetailsOf | CertificateExtensions.cs:16 | one details record per secret, in order, each built by the `CertificateDetails` constructor |
| CertificateExtensions.GetCertificateDetails | CertificateExtensions.cs:13-17 | a listing failure propagates; otherwise one details record per listed secret, in order |
| CertificateExtensions.SingleByNameAsWritten | CertificateExtensions.cs:19-23 | as written: the lookup fails with NullReference or MoreThanOneMatch only; any certificate without a name makes it fail; when it answers, it answers as the corrected lookup |
| CertificateExtensions.SingleByName | CertificateExtensions.cs:19-23 | corrected: lookup by name, ignoring case: an error exactly when two or more certificates match; no result exactly when none matches; otherwise a matching certificate |
| CertificateExtensions.SingleByNameUnique | CertificateExtensions.cs:22 | when the lookup finds a certificate, it is the only one whose name matches |
| CertificateExtensions.GetCertificateDetailsByNameAsWritten | CertificateExtensions.cs:19-23 | as written: a listing failure propagates; any listed secret without a certificate name makes the lookup fail; when it answers, it answers as the corrected lookup |
| CertificateExtensions.GetCertificateDetailsByName | CertificateExtensions.cs:19-23 | corrected: a listing failure propagates; otherwise the single-or-none lookup over every listed secret, unnamed secrets matching nothing |
| CertificateExtensions.ByNameAgrees | CertificateExtensions.cs:19-23 | when every listed secret yields a certificate name, the lookup as written and the corrected lookup agree |
| CertificateExtensions.SingleByNameAgrees | CertificateExtensions.cs:22 | when every certificate has a name, the lookup as written and the corrected lookup agree |
| CertificateExtensions.UntaggedSecretBreaksLookup | CertificateExtensions.cs:22 | one secret without a CertificateId tag makes the lookup as written throw NullReference, where the corrected lookup finds nothing |
| CertificateExtensions.Combine | CertificateExtensions.cs:27 | `Path.Combine`: an empty part is skipped; a rooted second part wins; otherwise the parts are joined with exactly one `/` |
| CertificateExtensions.Combine3IsNested | CertificateExtensions.cs:32 | the three-part combine is the two-part combine applied twice |
| CertificateExtensions.GetPath | CertificateExtensions.cs:25-28 | a certificate without a name throws ArgumentNull; otherwise the path is the base path combined with the name |
| CertificateExtensions.FilePathInDirectory | CertificateExtensions.cs:30-33 | a store file's path lies in the certificate's directory, and fails exactly when that directory's path fails |
| CertificateExtensions.StorageFlags | CertificateExtensions.cs:45-48 | the import uses Exportable exactly when an exportable key is asked for |
| CertificateExtensions.GetCertificate | CertificateExtensions.cs:35-54 | a GetSecret failure propagates; a content type other than PKCS#12 (ignoring case) throws NotSupported |
| CertificateExtensions.RefusedBeforeDecoding | CertificateExtensions.cs:39-53 | a secret that is not PKCS#12 is refused with NotSupported whatever the decoders would do |
| CertificateExtensions.ImportedWithFlags | CertificateExtensions.cs:39-50 | a PKCS#12 secret is base64-decoded and imported, with Exportable exactly when asked |
| CertificateExtensions.PrivateKeyPem | CertificateExtensions.cs:63-69 | succeeds exactly for an RSA key, giving its PKCS#8 bytes as a `PRIVATE KEY` PEM block; otherwise NullReference |
| CertificateExtensions.MissingNames | Flows/DownloadFlow.cs:40 | exactly the requested names that no returned certificate matches, ignoring case |
| Config.SetVariable | Models/Config.cs:17 | setting a process variable to "" removes it; any other value stores it; other variables are unchanged |
| Config.Applied | Models/Config.cs:14-18 | after applying the saved environment, each saved non-empty value is set, each saved empty value is removed, and unsaved variables are unchanged |
| Config.ApplyOne | Models/Config.cs:16-17 | applying one more saved entry is one more variable assignment |
| Config.EnvironmentRefreshAdds | Models/Config.cs:20-34 | over an enumeration of all process variables with no conflicting saved value, whatever the order, the refreshed environment is the saved one plus every `AZURE_` process variable, and a change is reported exactly when one of them was not saved |
| Config.RefreshAdds | Models/Config.cs:20-34 | with no conflicting value, the refreshed environment is the saved one plus every `AZURE_` variable, and it reports a change exactly when some `AZURE_` variable was not saved |
| Config.RefreshConflict | Models/Config.cs:26-28 | an `AZURE_` variable saved with a different value makes the refresh throw Argument, because `Dictionary.Add` is used on a key that is present |
| Config.RefreshKeeps | Models/Config.cs:20-34 | the refresh never changes or removes a saved entry, and its only failure is Argument |
| Config.RefreshAfterApply | Models/Config.cs:14-34 | a refresh right after applying the same saved environment never throws |
| Config.StopsAfter | Models/Config.cs:23-31 | once the refresh has thrown, later variables change nothing |
| Config.Settings.SetEnvironment | Models/Config.cs:14-18 | the process environment becomes the saved environment applied to the old one |
| Config.Settings.GetEnvironment | Models/Config.cs:20-34 | for an enumeration that lists every process variable exactly once, the saved environment and the result are the refresh of the old saved environment against the process variables |
| Config.LoadConfig | Models/Config.cs:36-53 | no file, or a file that does not parse to a configuration, gives none; otherwise the parsed environment |
| Config.SaveConfig | Models/Config.cs:55-72 | reports success exactly when the write succeeds; on success the file holds the serialised environment; on failure nothing changes |
| Config.SaveThenLoad | Models/Config.cs:36-72 | saving, then loading the same file, gives back the environment, given a serialiser that round-trips |
| DownloadFlow.FileStoreIgnoresMarkExportable | Flows/DownloadFlow.cs:71 | with a path, the download does the same with or without `--mark-exportable`: the file store always gets an exportable key |
| DownloadFlow.ChooseStore | Flows/DownloadFlow.cs:84-104 | a path selects the file store; otherwise a store location selects the Windows store on Windows only; otherwise no store |
| DownloadFlow.AlreadyExistsWritesNothing | Flows/DownloadFlow.cs:106-107 | an AlreadyExists result comes only without `--force`, from a store that reports the certificate, and leaves the machine unchanged |
| DownloadFlow.ForceNeverSkips | Flows/DownloadFlow.cs:106-109 | with `--force` a certificate is never reported AlreadyExists |
| DownloadFlow.AlreadyExistsOnlyWithoutForce | Flows/DownloadFlow.cs:106-107 | AlreadyExists implies `--force` was not given |
| DownloadFlow.ErrorWritesNothing | Flows/DownloadFlow.cs:68-104 | an Error result carries no certificate and leaves the machine unchanged |
| DownloadFlow.ResultNamesCertificate | Flows/DownloadFlow.cs:66-110 | every result that is not an Error names the processed certificate and its thumbprint |
| DownloadFlow.DownloadCertificate | Flows/DownloadFlow.cs:66-110 | the new machine state and the result are those of the per-certificate specification |
| DownloadFlow.OneResultPerCertificate | Flows/DownloadFlow.cs:53-58 | a completed loop gives one result per certificate, in order, each an Error or naming its certificate |
| DownloadFlow.DownloadAllStops | Flows/DownloadFlow.cs:53-58 | an exception from one certificate ends the loop; later certificates are not touched |
| DownloadFlow.DownloadedOnly | Flows/DownloadFlow.cs:61 | exactly the Downloaded results |
| DownloadFlow.DownloadedOnlySingle | Flows/DownloadFlow.cs:61 | one result is kept exactly when it is Downloaded |
| DownloadFlow.DownloadedOnlyAppend | Flows/DownloadFlow.cs:61 | the filter distributes over concatenation, so the Downloaded results keep their order and their repetitions |
| DownloadFlow.Finish | Flows/DownloadFlow.cs:60-63 | with a Downloaded result and a post hook, the hook's code over the Downloaded results decides; otherwise 0 exactly when no result is an Error, and -1 exactly when one is |
| DownloadFlow.StopsBeforeDownloading | Flows/DownloadFlow.cs:28-46 | a missing directory, or a requested name the vault lacks, returns -1 with the machine unchanged |
| DownloadFlow.DownloadCertificates | Flows/DownloadFlow.cs:53-58 | the loop's final state and results are those of the download specification |
| DownloadFlow.RunFlow | Flows/DownloadFlow.cs:26-64 | the flow's final state and outcome are those of its specification |
| FileStore.Exists | Stores/FileCertificateStore.cs:27-47 | a certificate without a name throws ArgumentNull; otherwise true exactly when its `cert.pem` exists, reads as a certificate, and has the same thumbprint, ignoring case |
| FileStore.ExistsIgnoresKey | Stores/FileCertificateStore.cs:27-47 | the file store's existence check never looks at a private key |
| FileStore.ChainTextCons | Stores/FileCertificateStore.cs:56-71 | the full chain is the leaf's PEM and a line break, then the rest of the chain |
| FileStore.ChainTextSnoc | Stores/FileCertificateStore.cs:69-70 | each chain certificate appends its PEM and a line break |
| FileStore.CreateUserOnly | Stores/FileCertificateStore.cs:94-102 | on Linux the file is created empty and owner-only; on other platforms nothing changes |
| FileStore.Save | Stores/FileCertificateStore.cs:49-92 | the new machine state and the result are those of the save specification |
| FileStore.SaveCertificates | Stores/FileCertificateStore.cs:56-74 | returns the full chain text and writes the three certificate files |
| FileStore.BuildChains | Stores/FileCertificateStore.cs:64-71 | the loop builds the chain text (without the leaf) and the full chain text (with it) |
| FileStore.SaveKeys | Stores/FileCertificateStore.cs:76-86 | creates and writes the key file and the full key chain file |
| FileStore.CreateFileWithUserReadWrite | Stores/FileCertificateStore.cs:94-102 | the machine changes as the owner-only create specifies |
| FileStore.CombineDistinct | Stores/FileCertificateStore.cs:14-18 | two different relative file names give two different paths in one directory |
| FileStore.StoreFilesDistinct | Stores/FileCertificateStore.cs:14-18 | the five store files have five distinct paths, so no write overwrites another |
| FileStore.CertificatesLayout | Stores/FileCertificateStore.cs:60-74 | `cert.pem` holds the leaf, `chain.pem` the rest of the chain, and `fullchain.pem` both; permission bits are kept; every other file is unchanged |
| FileStore.KeysLayout | Stores/FileCertificateStore.cs:76-86 | `privkey.pem` holds the key and `fullchain.privkey.pem` the full chain then the key; both are owner-only on Linux; every other file is unchanged |
| FileStore.SaveResult | Stores/FileCertificateStore.cs:49-92 | a successful save needs a named certificate and a non-empty chain; it creates the directory, leaves the X509 stores alone, and returns Downloaded with the directory as path |
| FileStore.SaveLayout | Stores/FileCertificateStore.cs:56-86 | after a successful save, the certificate files hold the leaf, the chain and the full chain; when the leaf has a key, the key files hold the key and the chain plus key, owner-only on Linux |
| FileStore.SaveIdempotent | Stores/FileCertificateStore.cs:49-92 | saving the same certificate again leaves the machine unchanged and gives the same result |
| FileStore.ExistsAfterSave | Stores/FileCertificateStore.cs:27-92 | after a successful save, the file store reports the certificate as existing when the leaf's PEM reads back with the certificate's thumbprint |
| Hooks.SplitCommand | Hooks.cs:36 | the program name has no space; arguments are present exactly when the command has a space; program, space and arguments give back the command |
| Hooks.NewStartInfo | Hooks.cs:38 | the request inherits every parent environment variable unchanged |
| Hooks.AddVariable | Hooks.cs:40-44 | adding a variable that is already present throws Argument; otherwise only that variable is added |
| Hooks.DeployStartInfo | Hooks.cs:34-47 | fails exactly when a deploy variable is already inherited; otherwise sets the name, the thumbprint and, when present, the path, and keeps the parent's variables |
| Hooks.NamesOf | Hooks.cs:58 | the certificate names of the results, in order |
| Hooks.ThumbprintsOf | Hooks.cs:59 | the thumbprints of the results, in order |
| Hooks.PostStartInfo | Hooks.cs:52-62 | fails exactly when a post variable is already inherited; otherwise sets the comma-joined names and thumbprints and keeps the parent's variables |
| Hooks.PostHookPairs | Hooks.cs:58-59 | splitting the two post variables at commas gives back, position by position, each result's name and thumbprint |
| Hooks.RunHook | Hooks.cs:67-93 | a process that fails to start gives -1; otherwise its exit code; 0 exactly on a clean exit |
| Hooks.DeployHookOutcome | Hooks.cs:34-50 | the deploy hook throws Argument exactly when its request cannot be built; otherwise it gives the process's code |
| Hooks.PostHookOutcome | Hooks.cs:52-65 | the post hook throws Argument exactly when its request cannot be built; otherwise it gives the process's code |
| Hooks.RunAllSucceeds | Hooks.cs:22-32 | the run reports no failure exactly when every hook exits 0 |
| Hooks.RunAllCompletes | Hooks.cs:22-32 | the run completes exactly when no hook throws |
| Hooks.RunAllFirstError | Hooks.cs:25-29 | the first hook that throws decides the exception |
| Hooks.RunAllStops | Hooks.cs:25-29 | an exception stops the loop |
| Hooks.RunAllStep | Hooks.cs:27-28 | each hook run marks a failure exactly when it returns nonzero |
| Hooks.PostHooks.constructor | Hooks.cs:12 | the registry starts empty |
| Hooks.PostHooks.AddPostHook | Hooks.cs:14-20 | a new command is registered at the end; the results are appended to that command's list; the registry invariant is kept |
| Hooks.PostHooks.RunPostHooks | Hooks.cs:22-32 | returns -1 when some hook returned nonzero and 0 otherwise, or the first exception |
| Identity.Tag | Models/CertificateDetails.cs:35-37 | a tag's value when present, otherwise null |
| Identity.NameFromId | Models/CertificateDetails.cs:32-33 | a name exactly when the certificate id contains `/`, and then its last segment |
| Identity.FromSecret | Models/CertificateDetails.cs:21-38 | the version is the id's last `/` segment; the name, state, serial and thumbprint are read from the tags; the name is absent exactly when the CertificateId tag is absent or has no `/` |
| Identity.ToStringLines | Models/CertificateDetails.cs:40-49 | the long description is its seven captioned lines joined by a line break and a tab |
| Identity.ShortStringLines | Models/CertificateDetails.cs:51-56 | the short description is the first three of those lines |
| Identity.VersionStringLines | Models/CertificateDetails.cs:58-66 | the version description is its six captioned lines joined by a line break and two tabs |
| LegacyIdentity.FromSecret | CertificateDetails.cs:20-33 | throws NullReference exactly when the CertificateId tag is absent; otherwise the fields, with the name as the id's last `/` segment |
| LegacyIdentity.NameWithoutSlash | CertificateDetails.cs:28-29 | for an id without `/`, the legacy record names the certificate by the whole id, where the current record has no name |
| LegacyIdentity.AgreesWithIdentity | CertificateDetails.cs:20-44 | for an id with `/`, both records have the same name and the same description |
| ListFlow.Listing | Flows/ListFlow.cs:42-43 | one printed line per certificate: its long description |
| ListFlow.ListingOutcome | Flows/ListFlow.cs:20-46 | -1 prints nothing; 0 prints every selected certificate in order; without a name, and when listing succeeds, every secret is printed |
| ListFlow.ListingSnoc | Flows/ListFlow.cs:42-43 | each loop iteration prints one more line |
| ListFlow.RunFlow | Flows/ListFlow.cs:20-46 | the loop's outcome and printed lines are those of the listing specification |
| Results.NewResult | Models/DownloadResult.cs:10-15 | a result carries its status and, from the certificate when given, its name and thumbprint; it has no path |
| Results.WithPath | Models/DownloadResult.cs:7 | setting the path changes nothing else |
| Runtime.NewLine | Stores/FileCertificateStore.cs:61 | the line break that `AppendLine` writes is two characters on Windows and one elsewhere |
| Runtime.WriteText | Stores/FileCertificateStore.cs:62 | writing a file sets its text, keeps its permission bit, and changes no other file |
| Runtime.Host.WriteAllText | Stores/FileCertificateStore.cs:62 | the machine's files change as the write specifies |
| Runtime.Host.CreateDirectory | Stores/FileCertificateStore.cs:51-52 | the directory is added |
| Stores.Exists | Stores/ICertificateStore.cs:8 | dispatches the existence check to the chosen store |
| Stores.Save | Stores/ICertificateStore.cs:10 | the new machine state and the result are those of the chosen store's save |
| Stores.SaveReportsDownloaded | Flows/DownloadFlow.cs:109 | a successful save in either store reports Downloaded with the certificate's name and thumbprint |
| SyncFlow.ConfigFiles | Flows/SyncFlow.cs:26 | exactly the file names matching `download_*.json` |
| SyncFlow.Configured | Flows/SyncFlow.cs:49-50 | `--force` turns the configuration's force on and changes nothing else |
| SyncFlow.ReplaySnoc | Flows/SyncFlow.cs:35-56 | each loop iteration appends one code, which is -1 when the file cannot be loaded |
| SyncFlow.ReplayCodes | Flows/SyncFlow.cs:35-56 | a completed replay gives one code per file, -1 for each file that cannot be loaded |
| SyncFlow.ReplayStops | Flows/SyncFlow.cs:35-56 | an exception from one configuration ends the replay |
| SyncFlow.SyncExitCode | Flows/SyncFlow.cs:21-59 | the sync returns 0 exactly when every file loads and every download flow returns 0; with no configuration files it returns 0 and changes nothing |
| SyncFlow.RunFlow | Flows/SyncFlow.cs:21-59 | the loop's final state and outcome are those of the sync specification |
| Text.Split | Flows/DownloadFlow.cs:37 | splitting gives at least one part, and no part contains the separator |
| Text.JoinSplit | Flows/DownloadFlow.cs:37 | joining the parts with the separator gives back the string |
| Text.SplitFirst | Hooks.cs:36 | splitting into at most two parts at the first separator loses nothing |
| Text.SplitJoin | Hooks.cs:58-59 | splitting a join of separator-free parts gives back the parts |
| Text.LastOfSplit | Models/CertificateDetails.cs:24 | the last part of a split is the last segment after the separator |
| Text.LastSegmentUnique | Models/CertificateDetails.cs:24 | a string has one last segment |
| Text.Lower | CertificateExtensions.cs:22 | the folded string has no ASCII capital, and a string without capitals folds to itself |
| Text.LowerIdempotent | CertificateExtensions.cs:22 | folding twice is folding once |
| Text.EqualsIgnoreCaseEquivalence | CertificateExtensions.cs:22 | the ignore-case comparison is reflexive, symmetric and transitive, and a string equals its folded form |
| UploadFlow.CheckFiles | Flows/UploadFlow.cs:21-37 | the flow continues exactly when the certificate and key files exist, and the chain file exists when one is given |
| UploadFlow.ReadAllText | Flows/UploadFlow.cs:43 | reading a null path throws ArgumentNull, an empty path throws Argument, and an existing file gives its text |
| UploadFlow.ReadChainAsWritten | Flows/UploadFlow.cs:39-49 | a chain that is read starts with the leaf read from the certificate and key |
| UploadFlow.ReadChain | Flows/UploadFlow.cs:39-49 | corrected: without `--chain` the chain is the leaf alone; with `--chain` it agrees with the code as written |
| UploadFlow.PublishDecision | Flows/UploadFlow.cs:51-94 | given a lookup that answered, nothing is uploaded exactly when the vault holds the name with the same thumbprint and `--force` is absent; the upload reuses the existing secret name or a fresh name-plus-guid key, and returns -1 exactly when `SetSecret` fails |
| UploadFlow.RunWith | Flows/UploadFlow.cs:19-95 | failed file checks or a failed read give -1 and no upload, before the vault is consulted; otherwise the publish decision on the lookup's answer |
| UploadFlow.ChainlessUploadFails | Flows/UploadFlow.cs:43 | as written, an upload without `--chain` always ends with -1 and uploads nothing |
| UploadFlow.ChainlessUploadPublishes | Flows/UploadFlow.cs:39-49 | corrected, an upload without `--chain` publishes the leaf alone; with `--chain`, and every listed secret named, it behaves as written |
| UploadFlow.UnnamedSecretFailsUpload | Flows/UploadFlow.cs:51 | as written, once the files check and the chain reads, a vault listing a secret without a certificate name makes the upload throw before anything is uploaded |
| UploadFlow.RunFlow | Flows/UploadFlow.cs:19-95 | corrected: the outcome and upload are those of the upload specification with the corrected chain reading and the corrected lookup |
| WindowsStore.FirstMatch | Stores/WindowsCertificateStore.cs:21-24 | the first certificate whose thumbprint matches, ignoring case, or none when there is no match |
| WindowsStore.Get | Stores/WindowsCertificateStore.cs:16-27 | a null thumbprint throws ArgumentNull; otherwise the first match in `My` |
| WindowsStore.Exists | Stores/WindowsCertificateStore.cs:29-37 | true exactly when `My` has a matching certificate and that certificate has a private key |
| WindowsStore.RemoveMatching | Stores/WindowsCertificateStore.cs:47-55 | keeps exactly the certificates that do not match the thumbprint |
| WindowsStore.RemoveMatchingSameThumbprint | Stores/WindowsCertificateStore.cs:47 | thumbprints that differ only in case remove the same certificates |
| WindowsStore.RemoveMatchingTwice | Stores/WindowsCertificateStore.cs:47-55 | removing twice is removing once |
| WindowsStore.RemoveMatchingNoDuplicates | Stores/WindowsCertificateStore.cs:47-55 | removal keeps a store free of duplicate thumbprints |
| WindowsStore.AddToStore | Stores/WindowsCertificateStore.cs:60 | the added certificate is in the store; a new thumbprint is appended at the end |
| WindowsStore.AddIfAbsent | Stores/WindowsCertificateStore.cs:83-92 | a thumbprint already in the store leaves it unchanged; otherwise the certificate is appended |
| WindowsStore.Save | Stores/WindowsCertificateStore.cs:39-111 | the new machine state and the result are those of the save specification |
| WindowsStore.Find | Stores/WindowsCertificateStore.cs:47 | exactly the certificates that match the thumbprint |
| WindowsStore.RemoveMatchingNone | Stores/WindowsCertificateStore.cs:48 | with no match, removal leaves the store as it was |
| WindowsStore.RemoveAll | Stores/WindowsCertificateStore.cs:47-55 | the loop leaves exactly the store without the matching certificates |
| WindowsStore.PlaceOne | Stores/WindowsCertificateStore.cs:78-107 | one chain certificate goes to `Root` when self-signed and to `CertificateAuthority` otherwise, unless already there |
| WindowsStore.AddChain | Stores/WindowsCertificateStore.cs:75-108 | the loop places every chain certificate after the leaf |
| WindowsStore.SaveStores | Stores/WindowsCertificateStore.cs:39-111 | `My` loses the old matches and gains the leaf under the certificate's name; `Root` and `CertificateAuthority` receive the rest of the chain |
| WindowsStore.DistributeGrows | Stores/WindowsCertificateStore.cs:75-108 | the trust stores only grow at the end, `Root` with self-signed chain certificates and `CertificateAuthority` with the others |
| WindowsStore.DistributePlacesAll | Stores/WindowsCertificateStore.cs:75-108 | afterwards every chain certificate's thumbprint is in its store |
| WindowsStore.DistributeStable | Stores/WindowsCertificateStore.cs:75-108 | a chain whose certificates are all present changes nothing |
| WindowsStore.SaveAgainKeepsTrustStores | Stores/WindowsCertificateStore.cs:75-108 | saving the same chain twice leaves `Root` and `CertificateAuthority` as the first save left them |
| WindowsStore.AddToStoreNoDuplicates | Stores/WindowsCertificateStore.cs:60 | adding keeps a store free of duplicate thumbprints |
| WindowsStore.AddToStoreMembers | Stores/WindowsCertificateStore.cs:60 | adding brings in no certificate other than the one added |
| WindowsStore.DistributeNoDuplicates | Stores/WindowsCertificateStore.cs:75-108 | placing the chain keeps both trust stores free of duplicate thumbprints |
| WindowsStore.SaveNoDuplicates | Stores/WindowsCertificateStore.cs:39-111 | a save keeps `My`, `Root` and `CertificateAuthority` free of duplicate thumbprints |
| WindowsStore.SaveTrustStores | Stores/WindowsCertificateStore.cs:39-111 | a successful save reports Downloaded without a path, and only appends chain certificates to the trust stores |
| WindowsStore.ExistsAfterSave | Stores/WindowsCertificateStore.cs:29-111 | after a save, the first match in `My` is the renamed leaf, so the certificate exists exactly when the leaf has a private key |

## Left out

- Logging (Serilog) and console output other than the listing are left out. The listing is a sequence of printed lines.
- Case-insensitive comparison is modelled as ASCII case folding. Culture-specific folding is not modelled.
- Environment-variable names and file paths are case-sensitive, as on Linux. Windows' case-insensitive lookup is not modelled.
- Path handling is Unix-only: `/` is the only separator, and a rooted part is one that starts with `/`. Drive letters are not modelled.
- The enumeration order of the process environment is a parameter of `Config.Settings.GetEnvironment`. The order of `Directory.GetFiles` is the order of the listing that `SyncFlow` is given.
- The glob quirks of `Directory.GetFiles` (8.3 names, `?`) are not modelled. A configuration file is a name with the prefix `download_` and the suffix `.json`.
- The static post-hook dictionary in `Hooks.cs` is iterated in insertion order. `Dictionary` promises no order, but keys are never removed.
- JSON serialisation and deserialisation are oracle functions. `Config.SaveThenLoad` assumes a serialiser that round-trips.
- `Config.Settings.SetEnvironment`: a null value from JSON is not modelled. Values are strings, and "" removes the variable.
- Process execution is an oracle: a process either fails to start or exits with a code.
- Base64, PKCS#12 import, PEM writing and PEM reading are oracle functions. So are the vault's `GetPropertiesOfSecrets`, `GetSecret` and `SetSecret`.
- The overload `GetCertificateDetails(names)`, used by the list and download flows, is not part of this model. Its result is an oracle of the vault client.
- `ToKeyVaultSecret` is not part of this model. It is an oracle of the upload context.
- Timestamps (`NotBefore`, `ExpiresOn`) are opaque text. Date formatting is not modelled.
- The constructor `BaseFlow(opts, credential)` that `DownloadFlow` calls is not part of this model. A download flow's client is the vault that its configuration names.
- `SyncFlow.ReplayOne`: a configuration file that deserialises to null is taken to throw NullReference. With `--force` the source dereferences it at once; without `--force`, the dereference happens in the constructor above.
- `WindowsStore.Save`: the check after the add, which only logs a warning when the private key was not persisted, is not modelled. It changes no state.
- `Program.cs`, the option classes, `DeleteFlow`, `FileType` and the Serilog enrichers are not part of this model. The flows take their options as datatypes.
- Credentials and authentication failures are not modelled separately. They are exceptions that `Flows.Run` maps to -1.
- CertificateExtensions.GetCertificateDetails: the listing is all or nothing. The source pages lazily, so certificates from earlier pages may already be saved or printed when a later page fails; the model fails before any of them (this also holds for `DownloadFlow.RunSpec` and `ListFlow.RunSpec`).
- Runtime.Host.WriteAllText, Runtime.Host.CreateDirectory and WindowsStore.Save: file-system and X509 store failures (`Open`, `Remove`, `Add`) are not modelled. Each write succeeds, so partial writes followed by an escaping exception are not captured.
- Config.SetVariable: the ArgumentException that `SetEnvironmentVariable` throws for an empty key or a key containing `=` is not modelled. Saved keys are taken as valid variable names.
- CertificateExtensions.CertificatePem: PEM writing is an oracle of the crypto context, so it has no partner to be proved against.
- The model follows `Models/CertificateDetails.cs`. `CertificateExtensions.cs` does not import `keyvault_certsync.Models`, so in the snapshot it binds the legacy `CertificateDetails.cs` (modelled as `LegacyIdentity`), whose constructor throws on an untagged secret while listing. The mixed-revision build is not modelled.

## Findings

| source | as written | input that shows it | evidently intended | confidence | as-written member | corrected member |
|---|---|---|---|---|---|---|
| Flows/UploadFlow.cs:43 | `ImportFromPemFile(opts.Chain)` is called even when `--chain` is not given. Reading a null path throws, and the upload returns -1. | `upload -v vault -n name -c cert.pem -k key.pem` with no `--chain`, both files present | `--chain` is optional (`Required = false`), and the file check at lines 33-37 already skips a missing chain, so the import should run only when a chain is given | not executed | UploadFlow.ReadChainAsWritten, UploadFlow.ChainlessUploadFails | UploadFlow.ReadChain, UploadFlow.ChainlessUploadPublishes |
| CertificateExtensions.cs:19-23 | The name lookup calls `CertificateName.Equals` on every secret. A secret without a CertificateId tag, or whose id has no `/`, has a null name, so the lookup throws NullReference. | a vault with one plain secret (no CertificateId tag) plus an upload of any name | the constructor at Models/CertificateDetails.cs:32-33 deliberately leaves the name null for such secrets, so the lookup should skip them, comparing with `string.Equals(a, b, …)` | not executed | CertificateExtensions.GetCertificateDetailsByNameAsWritten, UploadFlow.UnnamedSecretFailsUpload | CertificateExtensions.GetCertificateDetailsByName, CertificateExtensions.ByNameAgrees |
