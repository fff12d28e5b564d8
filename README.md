# Shelly-ALPM core, modelled in Dafny

Shelly is a package manager front end for Arch Linux. It drives libalpm, the pacman library,
through a managed wrapper (`AlpmManager`) and builds and installs AUR packages. It has a
command-line client and a desktop client. This project models the parts of it that make
decisions:

- **Version comparison** (`VersionComparer`) splits an Arch version `epoch:version-release`
  and compares two such versions. The comparison is segment by segment. Pre-release tags
  rank below padding, padding ranks below text, and text ranks below numbers.
- **The libalpm session** (`AlpmManager`) covers four things:
  - how `Initialize` configures a handle and registers the repositories and their servers;
  - how each package operation drives a libalpm transaction: begin, add or remove, prepare,
    commit, release;
  - how the callbacks turn native events, questions and progress into notices;
  - how the download callback places a fetched file through its `.part` file.
- **The AUR manager** (`AurPackageManager`) covers the update list, the PKGBUILD review
  before an update, the download/build/install loop with its progress notices, and removal.
- **The `search` command** filters, ranks and caps the results, then parses the interactive
  selection.
- **The desktop client's credential cache** (`CredentialManager`).
- **`StringExtensions.Truncate`**, from the command-line client.

The model is split into modules:

| module | what it holds |
|---|---|
| `Wrappers` | `Option`, `Outcome` and `Result`. |
| `Text` | The .NET string and number primitives the code relies on: `IndexOf`, `TryParse` with `NumberStyles.Integer`, `Path.Combine`, `Split` with `RemoveEmptyEntries`, and others. They are stated as functions with contracts. |
| `VersionComparer` | Pure functions, a segment-splitting method with a loop, and lemmas showing that the order is a total preorder. |
| `StringExtensions` | `Truncate` with its exception path. |
| `Credentials` | `CredentialManager` as a class whose methods update its fields. |
| `AlpmTypes`, `AlpmEvents`, `AlpmSession`, `AlpmDownloads`, `AlpmTransactions` | The libalpm vocabulary. Each libalpm call the wrapper makes is an `Act`, and the native library is a `Native` value that says which calls it refuses and what its databases hold. Every operation is also a function from its inputs to the calls it makes and its outcome. |
| `Alpm` | `AlpmManager` as a class. Its handle, registered databases, open transaction and the files on disk are fields. Its `trace` field is the log of libalpm calls and raised notices. Each method is proved to make exactly the calls that the matching function describes. |
| `AlpmTransactionProperties` | What those call sequences guarantee. A transaction that was begun is released exactly once, as the last call. Names are resolved before anything is begun. Steps stop at the first refusal. A loaded package is freed once, counting the free that `TransRelease` makes once the transaction owns it. |
| `Search` | The query pipeline and `Execute` of the `search` command. |
| `Aur` | `AurPackageManager` as a class over a `World` value. The world answers for the HTTP requests, the `makepkg`/`rm` processes and libalpm. |

## Model

Source paths are relative to the repository root.

| member | source | states |
|---|---|---|
| VersionComparer.SplitVersion | PackageManager/Utilities/VersionComparer.cs:107-141 | The character loop returns exactly the segments of the left-to-right scanner `Segments`. |
| VersionComparer.SegmentsShape | PackageManager/Utilities/VersionComparer.cs:107-141 | Each segment is non-empty and contains no `.`, `-`, `_` or `+`. Each segment is all digits or has no digit. Concatenated, the segments spell the version with its separators removed. |
| VersionComparer.FindTagIsFirstMatch | PackageManager/Utilities/VersionComparer.cs:203 | The search over the regex alternatives returns the first alternative that matches, and fails only when none matches. |
| VersionComparer.GetPreReleaseOrder | PackageManager/Utilities/VersionComparer.cs:198-219 | The rank is in -1..6. |
| VersionComparer.PreReleaseOrderIsPatternMatch | PackageManager/Utilities/VersionComparer.cs:198-219 | The rank is non-negative exactly when the lower-cased part is one of the ten tags followed by digits. The rank is then the rank of the first alternative that matches. |
| VersionComparer.TagStartsWithLetter | PackageManager/Utilities/VersionComparer.cs:203 | A part with a tag rank starts with an ASCII letter. |
| VersionComparer.NumberIsNotTag | PackageManager/Utilities/VersionComparer.cs:159-172 | A part with a tag rank never parses as a 64-bit number, so the numeric branch and the tag branch never compete. |
| VersionComparer.ComparePart | PackageManager/Utilities/VersionComparer.cs:143-196 | The segment comparison only yields -1, 0 or 1. |
| VersionComparer.ComparePartByKey | PackageManager/Utilities/VersionComparer.cs:143-196 | The segment comparison equals an independent key order. Tags rank by tag rank, below the empty padding, below text compared ignoring case, below numbers compared by value. |
| VersionComparer.ComparePartAntisymmetric | PackageManager/Utilities/VersionComparer.cs:143-196 | Swapping the two segments negates the result. |
| VersionComparer.ComparePartTransitive | PackageManager/Utilities/VersionComparer.cs:143-196 | "Not above" is transitive on segments. |
| VersionComparer.ComparePartReflexive | PackageManager/Utilities/VersionComparer.cs:143-196 | Every segment compares equal to itself. |
| VersionComparer.ComparePartIsPreorder | PackageManager/Utilities/VersionComparer.cs:143-196 | The segment comparison is a total preorder. |
| VersionComparer.NonDigitSegmentIsText | PackageManager/Utilities/VersionComparer.cs:159-160 | A segment without digits never takes the numeric branch. |
| VersionComparer.OverlongNumberRanksBelowNumbers | PackageManager/Utilities/VersionComparer.cs:159-180 | A digit run too long for `long.TryParse` is compared as text, so it ranks below every number. |
| VersionComparer.ComparePartsFromRange | PackageManager/Utilities/VersionComparer.cs:94-104 | The list comparison only yields values its segment comparison yields. |
| VersionComparer.ComparePartsFromAntisymmetric | PackageManager/Utilities/VersionComparer.cs:94-104 | With padding by empty segments, the list comparison over a preorder is antisymmetric. |
| VersionComparer.ComparePartsFromTransitive | PackageManager/Utilities/VersionComparer.cs:94-104 | With padding by empty segments, the list comparison over a preorder is transitive. |
| VersionComparer.ComparePartsFromReflexive | PackageManager/Utilities/VersionComparer.cs:94-104 | A segment list compares equal to itself. |
| VersionComparer.ComparePartsStep | PackageManager/Utilities/VersionComparer.cs:95-103 | One loop step: a difference at index i decides, and a tie moves on to i+1. |
| VersionComparer.CompareVersionParts | PackageManager/Utilities/VersionComparer.cs:89-105 | The loop returns the list order of the two segment lists. The first difference decides, and the shorter list is padded with empty segments. |
| VersionComparer.ParseEpoch | PackageManager/Utilities/VersionComparer.cs:68-76 | The remaining version is a suffix of the input. |
| VersionComparer.EpochRoundTrip | PackageManager/Utilities/VersionComparer.cs:68-76 | `e:rest`, with e a 32-bit integer, parses back to e and rest. |
| VersionComparer.ParsePkgrel | PackageManager/Utilities/VersionComparer.cs:78-87 | The release contains no '-' unless it is the default "0". |
| VersionComparer.PkgrelRoundTrip | PackageManager/Utilities/VersionComparer.cs:78-87 | `u-k`, with u non-empty and k free of '-', splits back into u and k. |
| VersionComparer.Order | PackageManager/Utilities/VersionComparer.cs:25-32 | Null and empty versions are equal to each other and rank below every other version. |
| VersionComparer.Compare | PackageManager/Utilities/VersionComparer.cs:25-51 | The method returns the order of its two arguments: null/empty first, then epoch, then version, then release. |
| VersionComparer.IsNewer | PackageManager/Utilities/VersionComparer.cs:56 | True exactly when the order is positive. |
| VersionComparer.IsOlder | PackageManager/Utilities/VersionComparer.cs:61 | True exactly when the order is negative. |
| VersionComparer.AreEqual | PackageManager/Utilities/VersionComparer.cs:66 | True exactly when the order is zero. |
| VersionComparer.OrderRange | PackageManager/Utilities/VersionComparer.cs:20-24 | `Compare` only returns -1, 0 or 1. |
| VersionComparer.ReleaseOrderAntisymmetric | PackageManager/Utilities/VersionComparer.cs:43-50 | Swapping two epoch-less versions negates their order. |
| VersionComparer.ReleaseOrderReflexive | PackageManager/Utilities/VersionComparer.cs:43-50 | Every epoch-less version equals itself. |
| VersionComparer.ReleaseOrderTransitive | PackageManager/Utilities/VersionComparer.cs:43-50 | The version-then-release order is transitive. |
| VersionComparer.OrderAntisymmetric | PackageManager/Utilities/VersionComparer.cs:25-51 | `Compare(a, b) == -Compare(b, a)`, so `IsNewer(a, b)` exactly when `IsOlder(b, a)`. |
| VersionComparer.OrderReflexive | PackageManager/Utilities/VersionComparer.cs:25-51 | Every version, null included, compares equal to itself. |
| VersionComparer.OrderTransitive | PackageManager/Utilities/VersionComparer.cs:25-51 | "Not newer than" is transitive, so sorting by `Compare` is well defined. |
| VersionComparer.OrderOfNonEmpty | PackageManager/Utilities/VersionComparer.cs:35-50 | Two non-empty versions are ordered by epoch first, then by version and release. |
| VersionComparer.EpochDominates | PackageManager/Utilities/VersionComparer.cs:38-40 | A larger epoch wins, whatever follows it. |
| VersionComparer.ImplicitEpochIsZero | PackageManager/Utilities/VersionComparer.cs:68-76 | A version without ':' equals the same version written with "0:". |
| VersionComparer.ReleaseOrderSameParts | PackageManager/Utilities/VersionComparer.cs:43-50 | Two versions that split into the same version and release are equal. |
| VersionComparer.MissingPkgrelIsZero | PackageManager/Utilities/VersionComparer.cs:78-87 | A version without a release equals the same version with release "-0". |
| Text.Lower | PackageManager/Utilities/VersionComparer.cs:200 | `ToLowerInvariant` keeps the length and maps each character by `LowerChar`. |
| Text.CompareOrdinal | Shelly-CLI/Commands/Standard/SearchCommand.cs:81 | Ordinal comparison yields -1, 0 or 1, and 0 exactly on equal strings. |
| Text.CompareOrdinalAntisymmetric | Shelly-CLI/Commands/Standard/SearchCommand.cs:81 | Swapping the strings negates the ordinal comparison. |
| Text.CompareOrdinalTransitive | Shelly-CLI/Commands/Standard/SearchCommand.cs:81 | Ordinal "not above" is transitive. |
| Text.IndexOf | PackageManager/Utilities/VersionComparer.cs:70 | Returns -1 exactly when the character is absent. Otherwise returns its first index. |
| Text.LastIndexOf | PackageManager/Utilities/VersionComparer.cs:81 | Returns -1 exactly when the character is absent. Otherwise returns its last index. |
| Text.ReplaceAbsent | PackageManager/Alpm/AlpmManager.cs:180-182 | `Replace` leaves a text without the pattern unchanged. |
| Text.TryParseInteger | PackageManager/Utilities/VersionComparer.cs:71 | A parsed value lies within the type's range. |
| Text.ParsedTextHasAsciiDigit | PackageManager/Utilities/VersionComparer.cs:159 | A text without ASCII digits never parses. |
| Text.LeadingLetterNeverParses | PackageManager/Utilities/VersionComparer.cs:159-160 | A text that starts with an ASCII letter never parses as a number. |
| Text.DecimalStringParses | PackageManager/Alpm/AlpmManager.Events.cs:22 | Formatting an in-range integer and parsing it back gives the integer. |
| Text.Trim | Shelly-CLI/Commands/Standard/SearchCommand.cs:128 | The result is a slice `s[a..b]` of the input such that everything before `a` and from `b` on is white space. It has no white space at either end, so exactly the white space at both ends is removed. |
| Text.Tokens | Shelly-CLI/Commands/Standard/SearchCommand.cs:138 | `Split(' ', RemoveEmptyEntries)` yields non-empty tokens without the separator. |
| Text.SplitAllJoins | Shelly-CLI/Commands/Standard/SearchCommand.cs:138 | The pieces of a plain `Split` have no separator, and joined with it they give the input back. So they are exactly the runs between separators, in order. |
| Text.TokensAreRuns | Shelly-CLI/Commands/Standard/SearchCommand.cs:138 | The tokens are the pieces of the plain `Split`, in order, with the empty ones left out. So they are the maximal separator-free runs of the input. |
| Text.Combine | PackageManager/Alpm/AlpmManager.Downloads.cs:52 | An empty side gives the other side. A rooted second path replaces the first. Otherwise the result is the directory, without its trailing '/' if it has one, then exactly one '/', then the file name. The result is empty only when both sides are. |
| Text.GetFileName | PackageManager/Alpm/AlpmManager.Downloads.cs:40 | The file name contains no '/' and ends the path. |
| Text.FileNameIsLastSegment | PackageManager/Alpm/AlpmManager.Downloads.cs:40 | The file name is the whole path, or it directly follows a '/'. So it is the longest suffix without '/'. |
| Text.FileNameOfCombine | PackageManager/Alpm/AlpmManager.Downloads.cs:40-52 | The file name of a directory combined with a name that has no '/' is that name. |
| StringExtensions.Truncate | Shelly-CLI/Program.cs:539-544 | Null or empty values come back as given. A value that fits comes back unchanged. A longer one is cut to exactly `maxLength` characters: its first `maxLength - 3` characters followed by "...". The call fails (an `ArgumentOutOfRangeException` in the source) exactly when a cut is needed and `maxLength < 3`. |
| StringExtensions.TruncateIdempotent | Shelly-CLI/Program.cs:542 | Truncating a second time with the same width changes nothing. |
| StringExtensions.TruncateNeverLonger | Shelly-CLI/Program.cs:542 | The result is never longer than the input and, when cut, never longer than `maxLength`. |
| Credentials.CredentialManager.constructor | Shelly-UI/Services/CredentialManager.cs:8-13 | A new manager has no password, is not validated and has no pending request. |
| Credentials.CredentialManager.StorePassword | Shelly-UI/Services/CredentialManager.cs:37-44 | `GetPassword` then returns the password. Credentials count as stored exactly when it is non-empty. The validation flag is reset. Nothing else changes. |
| Credentials.CredentialManager.ClearCredentials | Shelly-UI/Services/CredentialManager.cs:54-67 | The password is dropped and the flag cleared, so nothing is stored. Requests are untouched. |
| Credentials.CredentialManager.MarkAsValidated | Shelly-UI/Services/CredentialManager.cs:69-75 | Sets the flag and nothing else. |
| Credentials.CredentialManager.MarkAsInvalid | Shelly-UI/Services/CredentialManager.cs:77-90 | Clears the password and the flag. |
| Credentials.CredentialManager.RequestCredentials | Shelly-UI/Services/CredentialManager.cs:94-116 | Returns at once, raising nothing, exactly when validated credentials are stored. Otherwise it replaces the pending request with a fresh one and raises the request with its reason. |
| Credentials.CredentialManager.CompleteCredentialRequest | Shelly-UI/Services/CredentialManager.cs:118-129 | Hands the result to the pending request, if there is one, and clears it. A second call is a no-op. |
| AlpmTypes.NormalizeFlags | PackageManager/Alpm/AlpmManager.Operations.cs:169-173 | With `DbOnly` set, `NoDeps`, `NoExtract`, `NoPkgSig` and `NoCheckSpace` are added. Without it, the flags are unchanged. |
| AlpmTypes.NormalizeFlagsIdempotent | PackageManager/Alpm/AlpmManager.Operations.cs:169-173 | Normalising twice is normalising once. Only the four implied flags are ever added, and `DbOnly` is never added. |
| AlpmTypes.Lookup | PackageManager/Alpm/AlpmManager.Operations.cs:301 | `DbGetPkg` finds a package of that name exactly when the cache has one. |
| AlpmEvents.DecodeEvent | PackageManager/Alpm/AlpmManager.Events.cs:83-91 | A type is an event kind exactly in 1..37, and decodes to the kind with that value. |
| AlpmEvents.EventCodeRoundTrip | PackageManager/Alpm/AlpmEventType.cs:8-44 | Every `AlpmEventType` member is in 1..37 and decodes back to itself. |
| AlpmEvents.EventNoticesMeaning | PackageManager/Alpm/AlpmManager.Events.cs:57-126 | A notice is raised exactly for transaction start (9) and transaction done (10) on a live handle. It carries that kind and no package name. |
| AlpmEvents.DecodeQuestion | PackageManager/Alpm/AlpmManager.Events.cs:12 | A question type decodes to a kind exactly when some kind has that value. |
| AlpmEvents.UnknownQuestionTextNamesCode | PackageManager/Alpm/AlpmManager.Events.cs:22 | A type without a prompt of its own is shown as "Unknown question type: " followed by its number, and the number can be read back. |
| AlpmEvents.QuestionTextInjective | PackageManager/Alpm/AlpmManager.Events.cs:14-23 | Distinct question types get distinct prompts. |
| AlpmEvents.QuestionAnswer | PackageManager/Alpm/AlpmManager.Events.cs:25-32 | The answer written back is the observer's response, or 1 when no observer changed it. |
| AlpmEvents.ProgressNoticesMeaning | PackageManager/Alpm/AlpmManager.Events.cs:35-55 | One report forwards code, percent, count and index unchanged. Its name is null exactly when the pointer is null. A read fault raises nothing. |
| AlpmEvents.ReadPackageNamePrefersNew | PackageManager/Alpm/AlpmManager.Events.cs:266-287 | The new package is read whenever its pointer is non-null, the old one only otherwise, and null comes back when both are null. |
| AlpmSession.ResolveArchMeaning | PackageManager/Alpm/AlpmManager.cs:110-119 | "auto" in any case becomes "aarch64" on Arm64 and "x86_64" otherwise. Any other setting is kept. The result is never "auto". |
| AlpmSession.EffectiveSigLevel | PackageManager/Alpm/AlpmManager.cs:155-157 | A repository level of exactly `None` or `UseDefault` means the default level. Any other level is kept. |
| AlpmSession.UpToSlash | PackageManager/Alpm/AlpmManager.cs:169 | The greedy `[^/]+` capture is the longest slash-free prefix. |
| AlpmSession.FindSuffix | PackageManager/Alpm/AlpmManager.cs:169 | Finds the leftmost position where `\$arch([^/]+)` can match, or none. |
| AlpmSession.ArchSuffixMeaning | PackageManager/Alpm/AlpmManager.cs:169-173 | The captured suffix is non-empty and slash-free, and is taken at the leftmost `$arch` followed by a non-'/'. There is no suffix exactly when no `$arch` is so followed. |
| AlpmSession.ResolveServerPlain | PackageManager/Alpm/AlpmManager.cs:180-182 | A server URL without `$repo` or `$arch` is registered unchanged. |
| AlpmSession.Registered | PackageManager/Alpm/AlpmManager.cs:153-165 | The handle holds at most one database per configured repository. |
| AlpmSession.ServerCallsMeaning | PackageManager/Alpm/AlpmManager.cs:167-187 | Every server is added with `$repo` and `$arch` resolved. An architecture is added for each URL with a suffix. Nothing else is called. |
| AlpmSession.RepoCallsMeaning | PackageManager/Alpm/AlpmManager.cs:153-188 | Every repository is offered with its effective level, even after a failed one. All servers of a registered repository are added. No server is added to a repository that failed to register. |
| AlpmSession.InitializeSetsLevels | PackageManager/Alpm/AlpmManager.cs:67-101 | An open error releases the handle and configures nothing. The default level and the local-file level are each among the calls exactly when the default is not `None`. The remote-file level is always set. The GnuPG directory is set only as root. |
| AlpmSession.InitializeRegistersArch | PackageManager/Alpm/AlpmManager.cs:110-125 | A non-empty resolved architecture is registered together with "any". "auto" always resolves to a non-empty one. |
| AlpmDownloads.Delete | PackageManager/Alpm/AlpmManager.Downloads.cs:208-215 | A deletable path is gone afterwards, and no other path changes. |
| AlpmDownloads.DeleteTwice | PackageManager/Alpm/AlpmManager.Downloads.cs:208-215 | Deleting twice is deleting once. |
| AlpmDownloads.MoveOver | PackageManager/Alpm/AlpmManager.Downloads.cs:178 | The destination holds the source's content, the source is gone, and no other path changes. |
| AlpmDownloads.ReadCount | PackageManager/Alpm/AlpmManager.Downloads.cs:120 | The read loop stops at the first empty chunk or failing read, or at the end of the stream. |
| AlpmDownloads.ReadSnoc | PackageManager/Alpm/AlpmManager.Downloads.cs:120-143 | One more chunk appends its bytes to the body and makes one more loop step. |
| AlpmDownloads.ReadAllMeaning | PackageManager/Alpm/AlpmManager.Downloads.cs:118-143 | The byte count is the sum of the chunk sizes. Every report names the file and the known length, and the percentages strictly increase. There are no reports when the length is unknown or zero. |
| AlpmDownloads.FinalReportIs100 | PackageManager/Alpm/AlpmManager.Downloads.cs:145-156 | A download read to the end reports 100 last. When the length is exact, 100 is reported exactly once. |
| AlpmDownloads.DestinationMeaning | PackageManager/Alpm/AlpmManager.Downloads.cs:34-69 | A given directory is used as is. Otherwise databases and their signatures go to `sync` under the database path, and other files go to the cache directory. The file keeps its URL's name, and a missing URL yields no destination. |
| AlpmDownloads.DownloadTouchesOnlyItsPaths | PackageManager/Alpm/AlpmManager.Downloads.cs:89-219 | A download changes no path except the destination, its `.part` file and, for a database, the signature and its `.part` file. |
| AlpmDownloads.DownloadFailureKeepsDestination | PackageManager/Alpm/AlpmManager.Downloads.cs:101-105 | A failed download (-1) leaves the destination as it was. A non-success status changes and reports nothing. The result is always 0 or -1. |
| AlpmDownloads.DownloadSuccessContents | PackageManager/Alpm/AlpmManager.Downloads.cs:159-188 | A body that needs replacing ends up at the destination with no `.part` left behind. Otherwise the destination is untouched and the `.part` file is removed. A failed rename returns -1 and keeps the `.part` file. |
| AlpmDownloads.DownloadReadFailureCleansUp | PackageManager/Alpm/AlpmManager.Downloads.cs:204-218 | A stream or write failure deletes the `.part` file and returns -1, with no final 100 report. |
| AlpmDownloads.DatabaseSignatureFollows | PackageManager/Alpm/AlpmManager.Downloads.cs:194-202 | After a database is replaced, its signature is fetched. A failure removes the stale signature, a success stores the new one, and the result stays 0 either way. |
| AlpmTransactions.RunSteps | PackageManager/Alpm/AlpmManager.Operations.cs:183-200 | The calls made are a prefix of the steps. They are all the steps when none is refused, and otherwise they end with the refused step. |
| AlpmTransactions.RunStepsStopsAtFirstRefusal | PackageManager/Alpm/AlpmManager.Operations.cs:183-200 | Every step made before the failing one was accepted, and the failing one was refused. |
| AlpmTransactions.AddAll | PackageManager/Alpm/AlpmManager.Operations.cs:260-269 | One `AddPkg` per package, in order. |
| AlpmTransactions.RemoveAll | PackageManager/Alpm/AlpmManager.Operations.cs:329-337 | One `RemovePkg` per package, in order. |
| AlpmTransactions.FindInCaches | PackageManager/Alpm/AlpmManager.Operations.cs:146-165 | Finds a package of that name exactly when some sync database has one. |
| AlpmTransactions.ResolveAll | PackageManager/Alpm/AlpmManager.Operations.cs:216-240 | A successful resolution yields one package per name. |
| AlpmTransactions.ResolveAllMeaning | PackageManager/Alpm/AlpmManager.Operations.cs:297-309 | Resolution succeeds exactly when every name resolves, and then yields the packages in order. On failure it reports the first name that does not resolve. |
| AlpmTransactions.ReplacesNotices | PackageManager/Alpm/AlpmManager.Operations.cs:445-459 | Only replacement notices are raised. |
| AlpmTransactions.Upgradable | PackageManager/Alpm/AlpmManager.Operations.cs:548-566 | At most one package per name. |
| AlpmTransactions.Accepted | PackageManager/Alpm/AlpmManager.Operations.cs:573-576 | The transaction gains only offered packages whose `AddPkg` is accepted. |
| AlpmTransactions.LocalInstallShape | PackageManager/Alpm/AlpmManager.Operations.cs:461-505 | A failed load throws with only the load made. A refused init frees the package and throws. Otherwise add, prepare and commit run inside the `try`, a failure is rethrown wrapped, and the release comes last. |
| AlpmTransactions.InstallLocalPackageRefresh | PackageManager/Alpm/AlpmManager.Operations.cs:506-510 | The refresh runs only once the `try` is entered, comes last, and its failure replaces the outcome. |
| AlpmTransactionProperties.BeginOutsideShape | PackageManager/Alpm/AlpmManager.Operations.cs:176-206 | A refused `TransInit` throws with nothing to release. Otherwise the calls are init, a prefix of the steps, and one final release. The operation succeeds exactly when every step was accepted, and otherwise fails for the refused step. |
| AlpmTransactionProperties.InstallPackageDiscipline | PackageManager/Alpm/AlpmManager.Operations.cs:141-207 | An unknown name throws before any call. Otherwise init with normalised flags comes first, and the transaction is released exactly once, last, exactly when the init was accepted. |
| AlpmTransactionProperties.InstallPackageStepOrder | PackageManager/Alpm/AlpmManager.Operations.cs:183-200 | Add, prepare and commit run in that order and stop at the first refusal. All three are made on success, and a failure names the last step made. |
| AlpmTransactionProperties.RemovePackageDiscipline | PackageManager/Alpm/AlpmManager.Operations.cs:359-406 | An unknown name throws before any call. The flags are passed unnormalised. The release discipline is as for installs. |
| AlpmTransactionProperties.InstallPackagesResolvesFirst | PackageManager/Alpm/AlpmManager.Operations.cs:216-242 | If a name is missing, the operation throws for a missing name before any call. An empty list makes no call. |
| AlpmTransactionProperties.InstallPackagesDiscipline | PackageManager/Alpm/AlpmManager.Operations.cs:246-287 | Once all names resolve, init with normalised flags comes first, and the transaction is released once, last, exactly when the init was accepted. |
| AlpmTransactionProperties.InstallPackagesAddsInOrder | PackageManager/Alpm/AlpmManager.Operations.cs:260-269 | On success the package found for each name was added, in the order named. |
| AlpmTransactionProperties.RemovePackagesResolvesFirst | PackageManager/Alpm/AlpmManager.Operations.cs:297-311 | As for installs, over the local database. |
| AlpmTransactionProperties.RemovePackagesDiscipline | PackageManager/Alpm/AlpmManager.Operations.cs:315-356 | Init with normalised flags comes first, and the transaction is released once, last, exactly when the init was accepted. |
| AlpmTransactionProperties.AnnounceAndCommitReleases | PackageManager/Alpm/AlpmManager.Operations.cs:427-442 | After a prepared upgrade, the notices, the commit and the release end with exactly one release. |
| AlpmTransactionProperties.SyncSystemUpdateDiscipline | PackageManager/Alpm/AlpmManager.Operations.cs:408-443 | The refresh comes first, then init. The transaction is released exactly once, last, even when init is refused. |
| AlpmTransactionProperties.SyncSystemUpdateWrapsFailures | PackageManager/Alpm/AlpmManager.Operations.cs:435-438 | Every failure is rethrown wrapped. |
| AlpmTransactionProperties.SyncSystemUpdateNoticesBetweenPrepareAndCommit | PackageManager/Alpm/AlpmManager.Operations.cs:421-433 | On the accepted path the calls are refresh, init, sysupgrade, prepare, the replacement notices of the upgrade, commit, release. |
| AlpmTransactionProperties.SysupgradePrepared | PackageManager/Alpm/AlpmManager.Operations.cs:415-425 | A prepared upgrade transaction adds exactly what the upgrade adds. |
| AlpmTransactionProperties.ReplacesNoticesMeaning | PackageManager/Alpm/AlpmManager.Operations.cs:445-459 | A notice is raised for a package exactly when it replaces something, carrying its name, repository and replaced list. |
| AlpmTransactionProperties.UpgradableMeaning | PackageManager/Alpm/AlpmManager.Operations.cs:548-566 | Collects the newer version of each installed named package that has one, and only those. |
| AlpmTransactionProperties.CommitUnlessEmptyReleases | PackageManager/Alpm/AlpmManager.Operations.cs:579-599 | The end of every update releases once, last. An empty transaction is only released. |
| AlpmTransactionProperties.OfferAllReleases | PackageManager/Alpm/AlpmManager.Operations.cs:568-599 | Offering packages releases once, last, whether or not init is accepted. |
| AlpmTransactionProperties.UpdatePackagesDiscipline | PackageManager/Alpm/AlpmManager.Operations.cs:538-600 | `UpdatePackages` refreshes first and releases exactly once, last, on every path. |
| AlpmTransactionProperties.OfferAllAddsAll | PackageManager/Alpm/AlpmManager.Operations.cs:568-576 | After an accepted init every package is offered, in order, before anything else. |
| AlpmTransactionProperties.UpdatePackagesAddsAll | PackageManager/Alpm/AlpmManager.Operations.cs:573-576 | Every collected package is offered, whatever the engine answers to each. |
| AlpmTransactionProperties.OfferAllNothingToDo | PackageManager/Alpm/AlpmManager.Operations.cs:578-582 | With no package accepted, the offer succeeds and only the release follows the adds. |
| AlpmTransactionProperties.UpdatePackagesNothingToDo | PackageManager/Alpm/AlpmManager.Operations.cs:578-582 | With nothing accepted, `UpdatePackages` succeeds without preparing or committing. |
| AlpmTransactionProperties.MarkAndCommitDiscipline | PackageManager/Alpm/AlpmManager.Operations.cs:602-645 | `UpdateSinglePackage` and `UpdateAll` refresh first, then init, and release exactly once, last, on every path. |
| AlpmTransactionProperties.MarkAndCommitNothingToDo | PackageManager/Alpm/AlpmManager.Operations.cs:621-625 | An empty transaction after the mark succeeds without preparing or committing. |
| AlpmTransactionProperties.UpdateAllNothingToDo | PackageManager/Alpm/AlpmManager.Operations.cs:664-668 | An upgrade that adds nothing succeeds without preparing or committing. |
| AlpmTransactionProperties.UpdateSinglePackageNotInstalled | PackageManager/Alpm/AlpmManager.Operations.cs:615-619 | For a package that is not installed, a null pointer is added and refused, and the add step fails after init, followed by the release. |
| AlpmTransactionProperties.InstallLocalPackageReleasesThenRefreshes | PackageManager/Alpm/AlpmManager.Operations.cs:506-510 | After an accepted init, the transaction is released once and then the session is refreshed. |
| AlpmTransactionProperties.InstallLocalPackageAsWrittenFreesTwice | PackageManager/Alpm/AlpmManager.Operations.cs:483-510 | As written, after an accepted init, the method itself frees the loaded package twice when `AddPkg` is refused, once when `TransPrepare` or `TransCommit` is refused, and never on success. Counting the free `TransRelease` makes for a package the transaction owns, every failing path frees it twice and success once. |
| AlpmTransactionProperties.InstallLocalPackageFreesOnce | PackageManager/Alpm/AlpmManager.Operations.cs:474-510 | Corrected, the loaded package is freed exactly once on every path, counting the free `TransRelease` makes for a package the transaction owns. |
| AlpmTransactionProperties.InstallLocalPackageOwnFrees | PackageManager/Alpm/AlpmManager.Operations.cs:474-505 | Corrected, the method itself frees the package exactly once when `TransInit` or `AddPkg` refused it, and never otherwise. |
| AlpmTransactionProperties.ForeignMeaning | PackageManager/Alpm/AlpmManager.Operations.cs:46-86 | The foreign packages are exactly the installed ones in no sync database, in local order. |
| AlpmTransactionProperties.AvailableMeaning | PackageManager/Alpm/AlpmManager.Operations.cs:88-117 | The available packages are exactly those of the valid databases. |
| Alpm.AlpmManager.constructor | PackageManager/Alpm/AlpmManager.cs:21-30 | A new manager holds no handle and has made no call. |
| Alpm.AlpmManager.Call | PackageManager/Alpm/AlpmManager.Operations.cs:184-188 | One logged call. Its result is whether the engine accepted it, and the transaction follows. |
| Alpm.AlpmManager.RunCalls | PackageManager/Alpm/AlpmManager.Operations.cs:183-200 | The guarded steps make exactly the calls of `RunSteps`. |
| Alpm.AlpmManager.Release | PackageManager/Alpm/AlpmManager.Operations.cs:202-206 | `TransRelease` is logged and ends the transaction. |
| Alpm.AlpmManager.ReleaseLiveHandle | PackageManager/Alpm/AlpmManager.cs:45-49 | A live handle is released and zeroed. |
| Alpm.AlpmManager.Initialize | PackageManager/Alpm/AlpmManager.cs:43-189 | Releases any live handle and deletes the lock file when it can. Then it makes the calls of `InitializeCalls`. It fails exactly on an open error, leaving no handle, and otherwise holds a new handle with the registered databases. |
| Alpm.AlpmManager.OpenHandle | PackageManager/Alpm/AlpmManager.cs:67-189 | Opening, configuring and registering make exactly `InitializeCalls`. |
| Alpm.AlpmManager.Configure | PackageManager/Alpm/AlpmManager.cs:75-188 | The setup calls, then the repository calls. The databases are the registered ones. |
| Alpm.AlpmManager.SetLevels | PackageManager/Alpm/AlpmManager.cs:75-101 | Makes exactly the GnuPG and signature-level calls. |
| Alpm.AlpmManager.SetPlatform | PackageManager/Alpm/AlpmManager.cs:103-150 | Makes exactly the cache directory, architecture and callback calls. |
| Alpm.AlpmManager.RegisterRepos | PackageManager/Alpm/AlpmManager.cs:153-188 | The repository loop makes `RepoCalls` and keeps the databases that register. |
| Alpm.AlpmManager.RegisterRepo | PackageManager/Alpm/AlpmManager.cs:155-187 | Registers one repository and keeps it only when the engine accepts it. |
| Alpm.AlpmManager.AddServers | PackageManager/Alpm/AlpmManager.cs:167-187 | The server loop makes `ServerCalls`. |
| Alpm.AlpmManager.AddServerOf | PackageManager/Alpm/AlpmManager.cs:169-186 | One server: its architecture suffix, if any, then the server. |
| Alpm.AlpmManager.Refresh | PackageManager/Alpm/AlpmManager.cs:194-203 | Releases the live handle, then makes the same calls as `Initialize()`. |
| Alpm.AlpmManager.Dispose | PackageManager/Alpm/AlpmManager.cs:212-217 | Releases a live handle once. On a zero handle it does nothing. |
| Alpm.AlpmManager.EnsureInitialized | PackageManager/Alpm/AlpmManager.Operations.cs:144 | Initializes only on a zero handle. It fails only when that open fails. |
| Alpm.AlpmManager.FindSyncPackage | PackageManager/Alpm/AlpmManager.Operations.cs:146-160 | The database walk returns `FindInCaches` over the registered databases. |
| Alpm.AlpmManager.ResolveSyncNames | PackageManager/Alpm/AlpmManager.Operations.cs:216-240 | The resolution loop returns `ResolveAll` over the sync databases. |
| Alpm.AlpmManager.ResolveLocalNames | PackageManager/Alpm/AlpmManager.Operations.cs:296-309 | The resolution loop returns `ResolveAll` over the local database. |
| Alpm.AlpmManager.BeginOutsideThenRun | PackageManager/Alpm/AlpmManager.Operations.cs:176-206 | Makes exactly the calls of `BeginOutside` and ends with no open transaction. |
| Alpm.AlpmManager.InstallPackage | PackageManager/Alpm/AlpmManager.Operations.cs:141-207 | After the lazy initialisation, makes exactly the calls of `InstallPackageRun` and ends as it does. |
| Alpm.AlpmManager.InstallFound | PackageManager/Alpm/AlpmManager.Operations.cs:146-207 | On a live handle, looks the name up in the sync databases and then runs the transaction. |
| Alpm.AlpmManager.InstallPackages | PackageManager/Alpm/AlpmManager.Operations.cs:209-288 | Likewise for `InstallPackagesRun`. |
| Alpm.AlpmManager.InstallResolved | PackageManager/Alpm/AlpmManager.Operations.cs:214-287 | On a live handle, resolves the names and then runs the transaction. |
| Alpm.AlpmManager.RemovePackages | PackageManager/Alpm/AlpmManager.Operations.cs:290-357 | Likewise for `RemovePackagesRun`. |
| Alpm.AlpmManager.RemoveResolved | PackageManager/Alpm/AlpmManager.Operations.cs:295-356 | On a live handle, resolves the names and then runs the transaction. |
| Alpm.AlpmManager.RemovePackage | PackageManager/Alpm/AlpmManager.Operations.cs:359-406 | Likewise for `RemovePackageRun`. |
| Alpm.AlpmManager.CheckTransactionReplaces | PackageManager/Alpm/AlpmManager.Operations.cs:445-459 | Raises the replacement notices of the transaction's add list. |
| Alpm.AlpmManager.SyncSystemUpdate | PackageManager/Alpm/AlpmManager.Operations.cs:408-443 | Likewise for `SyncSystemUpdateRun`. |
| Alpm.AlpmManager.SystemUpgrade | PackageManager/Alpm/AlpmManager.Operations.cs:411-442 | The system update after the lazy initialisation. |
| Alpm.AlpmManager.AnnounceAndCommit | PackageManager/Alpm/AlpmManager.Operations.cs:427-442 | Notices, commit and release of a prepared upgrade. |
| Alpm.AlpmManager.CollectUpgrades | PackageManager/Alpm/AlpmManager.Operations.cs:548-566 | The collection loop returns `Upgradable`. |
| Alpm.AlpmManager.AddIgnoringRefusals | PackageManager/Alpm/AlpmManager.Operations.cs:573-576 | Every package is offered. The transaction gains the accepted ones. |
| Alpm.AlpmManager.AddOne | PackageManager/Alpm/AlpmManager.Operations.cs:575 | One offer. The package is added when it is accepted. |
| Alpm.AlpmManager.UpdatePackages | PackageManager/Alpm/AlpmManager.Operations.cs:538-600 | Likewise for `UpdatePackagesRun`. |
| Alpm.AlpmManager.UpgradeNamed | PackageManager/Alpm/AlpmManager.Operations.cs:543-599 | `UpdatePackages` after the lazy initialisation. |
| Alpm.AlpmManager.OfferAll | PackageManager/Alpm/AlpmManager.Operations.cs:568-599 | Init, then every package offered, then the end of the update. |
| Alpm.AlpmManager.AddAndCommit | PackageManager/Alpm/AlpmManager.Operations.cs:573-599 | The adds, then commit unless the transaction is empty. |
| Alpm.AlpmManager.MarkAndCommit | PackageManager/Alpm/AlpmManager.Operations.cs:606-644 | Makes exactly the calls of `MarkAndCommitRun`. |
| Alpm.AlpmManager.CommitUnlessEmpty | PackageManager/Alpm/AlpmManager.Operations.cs:578-599 | An empty transaction is released. Any other is prepared, committed and released. |
| Alpm.AlpmManager.UpdateSinglePackage | PackageManager/Alpm/AlpmManager.Operations.cs:602-645 | Likewise for `UpdateSinglePackageRun`. |
| Alpm.AlpmManager.UpdateAll | PackageManager/Alpm/AlpmManager.Operations.cs:647-688 | Likewise for `UpdateAllRun`. |
| Alpm.AlpmManager.InstallLocalPackage | PackageManager/Alpm/AlpmManager.Operations.cs:461-511 | After the lazy initialisation, makes the corrected `InstallLocalPackageRun`, whose refresh re-initialises the handle. |
| Alpm.AlpmManager.InstallLocalThenRefresh | PackageManager/Alpm/AlpmManager.Operations.cs:466-510 | On a live handle, the install followed by the refresh. |
| Alpm.AlpmManager.LoadAndInstall | PackageManager/Alpm/AlpmManager.Operations.cs:466-508 | The load, init and `try`. It also reports whether the `try` was entered. |
| Alpm.AlpmManager.BeginAndInstall | PackageManager/Alpm/AlpmManager.Operations.cs:474-508 | A refused init frees the package and throws. Otherwise the `try` runs. |
| Alpm.AlpmManager.AddPrepareCommit | PackageManager/Alpm/AlpmManager.Operations.cs:480-508 | Add, prepare and commit. A refusal is rethrown wrapped, and the release follows. The method frees the package itself only when `AddPkg` refused it; otherwise the transaction owns it. |
| Alpm.AlpmManager.GetForeignPackages | PackageManager/Alpm/AlpmManager.Operations.cs:46-86 | After the lazy initialisation, returns the installed packages in no sync database. |
| Alpm.AlpmManager.ForeignPackages | PackageManager/Alpm/AlpmManager.Operations.cs:56-83 | The outer loop returns `Foreign`. |
| Alpm.AlpmManager.InSomeSyncDb | PackageManager/Alpm/AlpmManager.Operations.cs:59-76 | The inner loop tells whether some sync database has the name. |
| Alpm.AlpmManager.GetAvailablePackages | PackageManager/Alpm/AlpmManager.Operations.cs:88-117 | After the lazy initialisation, returns the packages of the valid registered databases, in order. |
| Alpm.AlpmManager.HandleEvent | PackageManager/Alpm/AlpmManager.Events.cs:57-242 | Raises exactly `EventNotices`. |
| Alpm.AlpmManager.HandleQuestion | PackageManager/Alpm/AlpmManager.Events.cs:9-33 | Raises the question with its prompt and writes the answer back. |
| Alpm.AlpmManager.HandleProgress | PackageManager/Alpm/AlpmManager.Events.cs:35-55 | Raises exactly `ProgressNotices`. |
| Alpm.AlpmManager.DownloadFile | PackageManager/Alpm/AlpmManager.Downloads.cs:12-83 | Returns -1 and touches nothing when there is no destination. Otherwise it performs the download into the destination. |
| Alpm.AlpmManager.DestinationOf | PackageManager/Alpm/AlpmManager.Downloads.cs:34-69 | Returns `Destination`. A destination is non-empty and comes with a URL. |
| Alpm.AlpmManager.PerformDownload | PackageManager/Alpm/AlpmManager.Downloads.cs:89-219 | The files and reports are exactly those of `DownloadSpec`. |
| Alpm.AlpmManager.ReadBody | PackageManager/Alpm/AlpmManager.Downloads.cs:111-143 | The `.part` file holds the chunks read, and the reports are those of `ReadAll`. |
| Alpm.AlpmManager.WriteChunk | PackageManager/Alpm/AlpmManager.Downloads.cs:120-143 | One loop step: the chunk is appended and at most one report is made. |
| Alpm.AlpmManager.ReplaceDestination | PackageManager/Alpm/AlpmManager.Downloads.cs:159-202 | Deletes or renames the `.part` file, then fetches a database's signature. |
| Alpm.AlpmManager.DownloadSignatureFile | PackageManager/Alpm/AlpmManager.Downloads.cs:227-289 | Failures are swallowed, removing the `.part` file and the stale signature. |
| Search.Filter | Shelly-CLI/Commands/Standard/SearchCommand.cs:75-78 | The filtered list is no longer than the input. |
| Search.FilterMeaning | Shelly-CLI/Commands/Standard/SearchCommand.cs:75-78 | A package is kept exactly when its name or description contains the query, ignoring case. |
| Search.RankCompare | Shelly-CLI/Commands/Standard/SearchCommand.cs:79-81 | The rank order yields -1, 0 or 1. |
| Search.RankAntisymmetric | Shelly-CLI/Commands/Standard/SearchCommand.cs:79-81 | Swapping two packages negates their rank order. |
| Search.RankTransitive | Shelly-CLI/Commands/Standard/SearchCommand.cs:79-81 | The rank order is transitive. |
| Search.RankMeaning | Shelly-CLI/Commands/Standard/SearchCommand.cs:79-81 | The sort is ordered by rank and keeps every package, duplicates included. |
| Search.Take | Shelly-CLI/Commands/Standard/SearchCommand.cs:82 | `Take(n)` returns the first min(n, count) elements, and none for n <= 0. |
| Search.ResultsMeaning | Shelly-CLI/Commands/Standard/SearchCommand.cs:72-83 | The results are matching packages, at most `limit` of them, ranked. They are the best-ranked prefix of a ranking of all matches. |
| Search.PrefixMatchesFirst | Shelly-CLI/Commands/Standard/SearchCommand.cs:79 | A result whose name starts with the query precedes every result whose name does not. |
| Search.Pick | Shelly-CLI/Commands/Standard/SearchCommand.cs:142-145 | A token picks at most one result, and only one of the listed results. |
| Search.Selected | Shelly-CLI/Commands/Standard/SearchCommand.cs:137-150 | At most one pick per token. |
| Search.SelectedAppend | Shelly-CLI/Commands/Standard/SearchCommand.cs:140-150 | The picks of a line are the picks of its parts, in order. |
| Search.ParseSelection | Shelly-CLI/Commands/Standard/SearchCommand.cs:137-150 | The selection loop returns `Selected`. |
| Search.Names | Shelly-CLI/Commands/Standard/SearchCommand.cs:158 | The package names, in order. |
| Search.Run | Shelly-CLI/Commands/Standard/SearchCommand.cs:35-205 | The command returns what `Execute` describes. |
| Search.ExecuteMeaning | Shelly-CLI/Commands/Standard/SearchCommand.cs:37-198 | A blank query fails with 1 before searching. Installation is requested exactly when the typed line selects something and it is confirmed, or confirmation is off. The names requested are those of the selection, in the order typed. The code is 0 exactly when the install does not throw. |
| Search.SelectedNone | Shelly-CLI/Commands/Standard/SearchCommand.cs:152-156 | With no results nothing can be selected. |
| Aur.FirstNamed | PackageManager/Aur/AurPackageManager.cs:85 | Returns an installed package of that name exactly when one exists. |
| Aur.UpdateEntries | PackageManager/Aur/AurPackageManager.cs:83-99 | At most one entry per AUR record. |
| Aur.UpdateEntriesAppend | PackageManager/Aur/AurPackageManager.cs:83-99 | Entries keep the order of the AUR response. |
| Aur.UpdateEntriesMeaning | PackageManager/Aur/AurPackageManager.cs:83-98 | An entry is reported exactly for a record with an installed namesake and a newer version. |
| Aur.EntryFacts | PackageManager/Aur/AurPackageManager.cs:85-97 | An entry carries the installed version and the strictly newer AUR version. A missing URL or description becomes "". The download size is 0. |
| Aur.PackageActs | PackageManager/Aur/AurPackageManager.cs:177-291 | Two to five notices per package. |
| Aur.PackageProtocol | PackageManager/Aur/AurPackageManager.cs:177-291 | Each package opens with `Downloading` and closes with its only terminal notice, carrying its name, position and total throughout. It completes exactly when download, build and install succeed. |
| Aur.PackageInstallsFirstFile | PackageManager/Aur/AurPackageManager.cs:245-270 | Only the first built file is installed, once, right after `Installing` and just before the terminal notice. |
| Aur.InstallMarks | PackageManager/Aur/AurPackageManager.cs:172-293 | Every package gets exactly one `Downloading` and one terminal notice, numbered 1..n in input order. A failure never stops later packages. |
| Aur.InstallActsSnoc | PackageManager/Aur/AurPackageManager.cs:172-293 | The notices of a package do not depend on the fate of the packages before it. |
| Aur.Kept | PackageManager/Aur/AurPackageManager.cs:106-144 | The kept names are no more than those asked for. |
| Aur.KeptMeaning | PackageManager/Aur/AurPackageManager.cs:106-144 | A package is updated exactly when it was asked for and not vetoed. |
| Aur.KeptAppend | PackageManager/Aur/AurPackageManager.cs:106-144 | The kept packages form a subsequence of the input: keeping distributes over concatenation. |
| Aur.UnsubscribedKeepsAll | PackageManager/Aur/AurPackageManager.cs:124-141 | Without a diff handler nothing is asked and every package is installed. |
| Aur.RemovalsAll | PackageManager/Aur/AurPackageManager.cs:295-326 | When no removal throws, every package is removed, in input order. |
| Aur.RemovalsStop | PackageManager/Aur/AurPackageManager.cs:297-300 | The first removal that throws is the last call, and no later package is removed. |
| Aur.CleanupFollowsRemoval | PackageManager/Aur/AurPackageManager.cs:300-324 | A cache is cleaned only right after its package was removed, and only when the cache exists. |
| Aur.AurPackageManager.constructor | PackageManager/Aur/AurPackageManager.cs:43-48 | A new manager has raised nothing. |
| Aur.AurPackageManager.GetPackagesNeedingUpdate | PackageManager/Aur/AurPackageManager.cs:78-102 | The loop returns `UpdateEntries`. |
| Aur.AurPackageManager.UpdatePackages | PackageManager/Aur/AurPackageManager.cs:104-150 | The diff requests, then one install run over the kept packages if there are any. |
| Aur.AurPackageManager.InstallPackages | PackageManager/Aur/AurPackageManager.cs:172-293 | Produces exactly `InstallActs`. |
| Aur.AurPackageManager.InstallOne | PackageManager/Aur/AurPackageManager.cs:177-291 | One pass of the loop produces exactly `PackageActs`. |
| Aur.AurPackageManager.RemovePackages | PackageManager/Aur/AurPackageManager.cs:295-326 | Produces exactly `RemoveActs`. It reports failure exactly when a removal threw. |

## Left out

- VersionComparer.ComparePart: the text fallback `string.Compare(..., OrdinalIgnoreCase)` is modelled by its sign only. .NET can return other magnitudes, and `Compare`/`CompareVersionParts` pass them through. The model's `Compare` therefore returns -1/0/1 where the source may return another value of the same sign. `IsNewer`, `IsOlder` and `AreEqual` are unaffected.
- StringExtensions.Truncate: lengths are counted in Unicode scalar values (`string` is a sequence of `char`), not in C#'s UTF-16 code units. A value with characters outside the Basic Multilingual Plane can therefore fit in the model and not in the source. For example, "😀😀" with `maxLength` 3 comes back unchanged here, while the source sees length 4 and returns "...". The source can also cut a surrogate pair in half; the model cannot. The same holds for every length and index in `Text`.
- Text.Lower: case mapping covers ASCII letters only. `ToLowerInvariant` and `OrdinalIgnoreCase` also fold other Unicode letters.
- Search.RankCompare: the final `ThenBy(p => p.Name)` uses the current culture's comparer in the source. The model compares names ordinally. Sort stability for equal ranks is built into `Insert`, but it is not stated as a lemma.
- Alpm.AlpmManager.InstallLocalPackage: modelled with the double `PkgFree` removed (see Findings). It frees the package only where `TransInit` or `AddPkg` refused it, and the `catch` frees nothing. The as-written behaviour is kept in `AlpmTransactions.InstallLocalPackageAsWritten`.
- Credentials.CredentialManager.RequestCredentials: the `TaskCompletionSource` the caller awaits is modelled as the request number completed by `CompleteCredentialRequest`. The asynchronous wait and the lock are not modelled.
- The question kinds use libalpm's `alpm_question_type_t` values. `PackageManager/Alpm/AlpmQuestionType.cs` is not part of this model.
- `AurPackageDto` and the AUR search/info client are not part of this model. The AUR response is an input to `GetPackagesNeedingUpdate`.
- The PKGBUILD fetch and the `makepkg`, `tar` and `rm` processes are oracles in `Aur.World`. So are the AUR snapshot download and the libalpm calls the AUR manager makes. Their console output is not modelled.
- Notices are recorded whether or not a handler is subscribed. This holds for the progress notices of the AUR manager and for what `HandleEvent`, `HandleProgress` and `HandleQuestion` of the Alpm manager raise. The source raises them with `?.Invoke`, which does nothing without a subscriber. The model keeps no list of subscribers, so that null check is not modelled. For a question, the answer written back comes from the `response` input, which is `None` (the default answer) when no handler changed it.
- `TransRelease` freeing a package that `AddPkg` handed to the transaction is libalpm's own behaviour (its transaction release frees the added packages). The library is not part of this model. `AlpmTransactions.TimesFreed` counts that free explicitly.
- The pacman.conf parser is not modelled. The configuration is the input `PacmanConf`.
- `Sync`/`IntializeWithSync`, `GetInstalledPackages`, `GetPackagesNeedingUpdate` of `AlpmManager` and `GetPackageNameFromProvides` are not modelled.
- `ReadStringFromEvent` and `GetErrorMessage` are not modelled. Error messages are the `Error` datatype, not engine strings.
- Native memory is modelled by the `StrPtr`/`PkgPtr`/`EventPtr` values: null, readable or faulting.
- `Uri` parsing is the oracle `Env.uriLocalPath`. `DoFileReplace` is the oracle `Env.replaceNeeded`.
- `Directory.CreateDirectory` is not modelled.
- The HTTP response is a sequence of chunks, so the 8192-byte buffer size is not modelled.
- The percentage is unbounded here. The source casts it to `int` and keeps the byte count in a `long`, so overflow is not modelled.
- Console logging, JSON output and Spectre console rendering are not modelled.
- Threads, locks and `async` are not modelled.

## Findings

| source | as written | input that shows it | evidently intended | confidence | as-written member | corrected member |
|---|---|---|---|---|---|---|
| PackageManager/Alpm/AlpmManager.Operations.cs:483-510 | When `AddPkg` is refused, the branch at line 485 calls `PkgFree` on the loaded package and throws, and the `catch` at line 503 frees the same package again. When `TransPrepare` or `TransCommit` is refused, the package already belongs to the transaction: the `catch` at line 503 frees it, and `TransRelease` at line 508 frees it again. | A package file that loads and an accepted `TransInit`, followed by a refused `AddPkg`; or by an accepted `AddPkg` and a refused `TransPrepare`. | Free the package only in the `AddPkg` branch at line 485 (and after a refused `TransInit`). Once the transaction owns it, leave the free to `TransRelease`. | not executed | AlpmTransactionProperties.InstallLocalPackageAsWrittenFreesTwice | AlpmTransactionProperties.InstallLocalPackageFreesOnce |
