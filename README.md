# APK store: inventory, routing and client state, modelled in Dafny

The APK store is a small distribution portal. Its Express server (`server.js`)
scans a package directory for `.apk` files. It answers `GET /api/apks` with one
JSON record per package: `id`, display `name`, `filename`, `size` and
`downloadUrl`. It serves the packages under `/apks` and the built client from
`dist`, and it sends every other path to the client's `index.html` (the "shell").
The React client (`src/App.jsx`) fetches the listing, filters it by a search
term and picks an icon for each app.

The model has six modules:

- `Wrappers` (wrappers.dfy) holds `Option` and `Result`.
- `Seqs` (seqs.dfy) models JavaScript's `Array.prototype.filter` and the subsequence relation.
- `Strings` (strings.dfy) models `endsWith`, `indexOf`, `includes`, `replace` with a string pattern, ASCII `toLowerCase` and decimal numerals.
- `Inventory` (inventory.dfy) models the `/api/apks` handler. The scan is a set of pure functions from the directory listing to the records, or to the first error. `PackageDir` is a class whose method `HandleInventory` creates a missing directory.
- `Gateway` (gateway.dfy) models the four handlers as an ordered rule list with first-match dispatch.
- `Catalog` (catalog.dfy) models `filteredApps` and `getAppIcon`. `AppState` is a class with the `apps`, `loading`, `error` and `searchTerm` state, and `FetchApps` is one of its methods.

The file system is an abstract state, not real calls. `PackageDir` holds:

- whether the directory exists;
- the listing, one `(name, stat result)` pair per name;
- the message `readdirSync` would throw, if any;
- the message `mkdirSync` would throw, if any.

The client's `fetch` is a parameter, `FetchOutcome`: an ok response with its data, a response that is not ok, or a thrown message.

Three behaviours of the code a reader may not expect, all modelled as written:

- The display name removes the **first** `.apk` of the file name (`String.replace` with a string pattern). It does not remove the suffix. So `My.apk-v2.apk` is shown as `My v2.apk`.
- A download of a file missing from the package directory does not get a not-found response. `express.static` falls through by default, the client mount finds nothing at that path either, and the catch-all answers with the shell. See `Gateway.MissingPackageGetsShell`.
- Names are not checked to be files. A sub-directory whose name ends in `.apk` is stat-ed and listed like a file. In the model, a listing entry is just a name and its stat result.

The size label is `(bytes / 1048576).toFixed(2)`. Dividing by a power of two is exact in binary64, and `toFixed` picks the nearest hundredth, taking the larger one on a tie. So the label is exactly the hundredth nearest to `bytes / 2^20`, ties upward. `SizeHundredths` computes that in integers, and its contract states the nearest-with-ties-up bounds.

## Model

| member | source | states |
|---|---|---|
| `Seqs.Filter` | server.js:34 | `files.filter(...)`: every kept element is in the input and satisfies the predicate, and every input element that satisfies it is kept |
| `Seqs.FilterIsSubsequence` | server.js:34 | filtering only deletes elements: the result is a subsequence of the input, in input order |
| `Seqs.FilterAppend` | server.js:34 | filtering distributes over concatenation, so each element is judged on its own |
| `Seqs.FilterSkip` | server.js:34 | an element the predicate rejects can be dropped without changing the filtered list |
| `Seqs.FilterPairwise` | src/App.jsx:31-33 | two lists that agree pointwise on the predicate and on a key filter to lists of the same length that agree pointwise on that key |
| `Strings.IsSuffix` | server.js:34 | `endsWith`: a suffix is exactly an occurrence at the last possible position |
| `Strings.IndexFrom` | server.js:44 | the first position at or after `k` where the pattern occurs; none if there is no occurrence |
| `Strings.IndexOf` | server.js:44 | `indexOf`: the position found is an occurrence with none before it, and none is found exactly when the pattern occurs nowhere |
| `Strings.IndexOfAt` | server.js:44 | an occurrence with no earlier copy of the pattern's first character is the first occurrence `replace` finds |
| `Strings.Contains` | src/App.jsx:32 | `includes` holds exactly when the pattern occurs at some position |
| `Strings.RemoveFirst` | server.js:44 | `replace(pat, '')` with a string pattern: the string is unchanged when the pattern is absent, and otherwise it is the string with its first occurrence cut out, one pattern length shorter |
| `Strings.Lower` | src/App.jsx:32 | `toLowerCase` on ASCII: same length, each character lowered on its own |
| `Strings.NatToString` | server.js:40 | the integer part printed by `toFixed` is a non-empty digit string without leading zeros |
| `Strings.NatToStringRoundTrip` | server.js:40 | reading the printed digits back gives the number |
| `Inventory.IsApk` | server.js:34 | a name is kept exactly when `.apk` occurs at its end; such a name contains `.apk`, so the display name always removes something |
| `Inventory.ApkFiles` | server.js:34 | the kept names are all `.apk` names of the listing, every `.apk` name is kept, and listing order is kept |
| `Inventory.SeparatorsToSpaces` | server.js:44 | `.replace(/[_-]/g, ' ')`: same length, each `_` and `-` becomes a space, every other character is kept |
| `Inventory.DisplayName` | server.js:44 | the `name` field is four characters shorter than the file name when that contains `.apk`, as long otherwise, and holds no `_` or `-` |
| `Inventory.Fixed2` | server.js:40 | `toFixed(2)` prints an integer part of digits, a point and exactly two fraction digits |
| `Inventory.SizeLabel` | server.js:46 | the `size` field ends in ` MB` and has a point six characters from its end; `Inventory.SizeLabelReadsBack` proves that the digits around the point read back as the rounded size |
| `Inventory.MakeEntry` | server.js:42-48 | the record for the file at 0-based position `index`: id `index + 1`, the file name as on disk, the URL `/apks/` followed by the file name, the derived name and the size label |
| `Inventory.SizeHundredths` | server.js:40 | the size in hundredths of a MiB is the nearest hundredth to `bytes / 1048576`, ties upward (`toFixed(2)`) |
| `Inventory.Derive` | server.js:37-49 | the map over the `.apk` files succeeds iff every stat succeeds; the record at index `i` has id `i + 1` and fields built from the file; otherwise the error is the message of the first failing stat |
| `Inventory.Scan` | server.js:31-49 | a scan succeeds iff every `.apk` name can be stat-ed; it then gives one record per `.apk` name in listing order, with ids 1..n, `filename` the on-disk name, `downloadUrl` `/apks/` + filename, the derived name and the size label; otherwise the error is the first failing stat's message |
| `Inventory.InventoryResponse` | server.js:23-56 | a missing directory gives `[]`, or an error if mkdir fails; a failed listing gives the 500 `{error: "Erro ao listar APKs", details}` with the thrown message; a listed directory gives exactly the records of its scan, or the 500 response carrying the first failing stat's message; the response is a list exactly when nothing failed, and there is never a partial list |
| `Inventory.PackageDir.constructor` | server.js:21-31 | the directory state the handler sees: whether the directory exists, its listing, and what `readdirSync` and `mkdirSync` would throw; a missing directory lists nothing |
| `Inventory.PackageDir.HandleInventory` | server.js:19-57 | the response is `InventoryResponse` of the state; the directory exists afterwards iff it existed or mkdir succeeded; nothing else changes |
| `Inventory.FirstRequestsOnMissingDirectory` | server.js:25-28 | the first request on a missing directory creates it and answers `[]` with status 200; a later request lists the new, empty directory |
| `Inventory.DisplayNameOfApk` | server.js:44 | for a name ending in `.apk`, the display name is the name with its first `.apk` cut out and separators spaced; it is 4 shorter and holds no `_` or `-` |
| `Inventory.DisplayNameOfPlainApk` | server.js:44 | when `.apk` occurs only as the suffix, the display name is the rest of the name with separators turned into spaces |
| `Inventory.DisplayNameExample` | server.js:44 | `My_App-2.apk` is shown as `My App 2` |
| `Inventory.DisplayNameRemovesFirstOccurrence` | server.js:44 | only the first `.apk` is removed: `My.apk-v2.apk` is shown as `My v2.apk` |
| `Inventory.SizeLabelWholeMegabytes` | server.js:40 | `k * 1048576` bytes are labelled `k.00 MB` |
| `Inventory.SizeLabelExamples` | server.js:40 | 1048576 bytes give `1.00 MB`, 2621440 give `2.50 MB`, 3145728 give `3.00 MB` and 512000 give `0.49 MB` |
| `Inventory.SizeLabelReadsBack` | server.js:40-46 | every size label is digits, `.`, exactly two digits and ` MB`, and its digits read back as the rounded hundredths |
| `Inventory.ScanIgnoresOtherNames` | server.js:34-39 | a name not ending in `.apk` is never stat-ed: adding it, even with a failing stat, does not change the scan |
| `Inventory.ScanInListingOrder` | server.js:34-37 | when every `.apk` name can be stat-ed, so the scan succeeds, the file names it lists are the `.apk` names of the listing in listing order (a subsequence of all names), and each ends in `.apk` |
| `Inventory.ScanListsFileOnce` | server.js:37-45 | with unique names in the directory and every `.apk` name stat-able, an `.apk` file in the listing appears in the scan, and no two records share a file name |
| `Gateway.MountRelative` | server.js:60 | a mount matches the path equal to it and the paths below it; it passes on the empty path for the mount itself and the rest after the `/` for a path below it |
| `Gateway.StaticFile` | server.js:60-63 | the file `express.static` looks up for a relative path is the path itself when that names a file, and the path followed by `index.html` when it is empty or ends in `/`; it is never itself a directory path |
| `Gateway.StaticHit` | server.js:60-63 | a static mount serves the file it looks up for the relative path exactly when that file is in its directory, and serves no other file |
| `Gateway.Answer` | server.js:19-68 | the catch-all always answers with the shell; the API route answers its own path only, with the scanner; a static mount answers only with a file, and only with one of its own directory; no rule answers with not-found |
| `Gateway.Dispatch` | server.js:19-68 | no answer at all happens exactly when no rule answers |
| `Gateway.DispatchFirst` | server.js:19-68 | the first rule that answers a path decides it, whatever the later rules would say |
| `Gateway.Route` | server.js:19-68 | every path is answered, and `/api/apks` by the scanner |
| `Gateway.RoutePrecedence` | server.js:19-68 | `/api/apks` is answered by the scanner and nothing else is; otherwise a package hit wins, then a client-file hit; the shell answers exactly the paths no earlier rule answers; no path is left unanswered |
| `Gateway.PackageMountWins` | server.js:60-63 | a file of the package directory is served from it even when the client has a file at the same path |
| `Gateway.MissingPackageGetsShell` | server.js:60-68 | a download of a file that is not in the package directory, with no client file at that path, is answered with the shell |
| `Gateway.RootGetsIndex` | server.js:63 | `/` gets the client's `index.html` through the client mount |
| `Gateway.ClientRoutesGetTheShell` | server.js:63-68 | an unmatched client route such as `/some/random/route` gets the shell, the same document as `/` |
| `Catalog.NameMatches` | src/App.jsx:32 | an app matches exactly when the lower-cased term occurs somewhere in its lower-cased name; the empty term matches every app |
| `Catalog.FilteredApps` | src/App.jsx:29-34 | the empty-term shortcut gives the same list as the filter: the apps whose lower-cased name contains the lower-cased term |
| `Catalog.FilteredAppsKeepsMatches` | src/App.jsx:31-33 | an app is kept iff its lower-cased name contains the lower-cased term; the result is a subsequence of `apps` |
| `Catalog.FilteredAppsEmptyTerm` | src/App.jsx:30 | an empty search term shows exactly `apps` |
| `Catalog.FilteredAppsIgnoresTermCase` | src/App.jsx:32 | terms with the same lower-case form give the same list |
| `Catalog.FilteredAppsLowerTerm` | src/App.jsx:32 | searching for a term and for its lower-case form gives the same list |
| `Catalog.FilteredAppsIgnoresNameCase` | src/App.jsx:32 | when two lists differ entry by entry at most in the case of the names, their filtered lists have the same length and again differ entry by entry at most in the case of the names |
| `Catalog.FirstIcon` | src/App.jsx:60-68 | an if-chain of keyword rules gives the default icon or the icon of a rule that fires |
| `Catalog.AppIcon` | src/App.jsx:58-69 | `getAppIcon` gives 📱 or the icon of a keyword pair found in the lower-cased name |
| `Catalog.FirstIconAt` | src/App.jsx:60-68 | in an if-chain of keyword rules, the first rule that fires selects the icon |
| `Catalog.FirstIconDefault` | src/App.jsx:60-68 | an if-chain whose rules do not carry the default icon gives the default exactly when no rule fires |
| `Catalog.AppIconFirstMatch` | src/App.jsx:58-67 | `getAppIcon` gives the icon of the first keyword pair, in the order game/jogo, music/musica, video/player, photo/camera, social/chat, tool/util, browser/web, office/work, found in the lower-cased name |
| `Catalog.AppIconDefault` | src/App.jsx:68 | `getAppIcon` gives 📱 exactly when no keyword occurs in the lower-cased name |
| `Catalog.AppIconExample` | src/App.jsx:60-65 | `Tool Game` gets 🎮: the game rule comes before the tool rule |
| `Catalog.AppIconIgnoresCase` | src/App.jsx:59 | the icon depends only on the lower-cased name |
| `Catalog.AppState.constructor` | src/App.jsx:5-8 | the initial state: no apps, loading, no error, empty search term |
| `Catalog.AppState.Visible` | src/App.jsx:142 | the list on screen is a subsequence of `apps` |
| `Catalog.AppState.BeginFetch` | src/App.jsx:16-17 | at the start of a fetch, `loading` is true and `error` is null |
| `Catalog.AppState.CompleteFetch` | src/App.jsx:18-26 | on success `apps` becomes the data and `error` is untouched; on a not-ok response or a throw, `apps` is kept and `error` is the message; `loading` ends false |
| `Catalog.AppState.FetchApps` | src/App.jsx:14-27 | after a fetch nothing is loading; `error` is null iff the fetch succeeded; `apps` is the data on success and unchanged otherwise |
| `Catalog.AppState.SetSearchTerm` | src/App.jsx:130 | the search box sets the term |

## Left out

- The Express framework and `express.static` are not modelled beyond the order of the handlers and file lookup by relative path, with `index.html` for directory paths. Left out are case-insensitive and trailing-slash route matching, URL decoding, dotfile rules, redirects of directory paths, methods other than GET, content types and byte streaming. These are library behaviour, not code of this repository.
- `res.sendFile` and the bytes of a download are not modelled. A target names the file that would be sent.
- `fs.existsSync`, `readdirSync`, `statSync`, `mkdirSync`, `path.join` and `fileURLToPath` are replaced by the `PackageDir` state. A failed recursive `mkdirSync` leaves no trace in the model, even if it created some parent directories.
- The logging middleware and every `console.log`/`console.error` are I/O with no logic.
- `app.listen` and the port are process start-up and networking.
- Inventory.SizeHundredths: byte counts of 2^53 or more are not modelled. There the double loses precision, and from 10^21 MiB `toFixed` prints exponent notation. The model computes exactly for every size.
- JSON encoding of the response and JSON parsing on the client are left out. A response is a datatype, and `Delivered` carries the records.
- `formatFileSize` is left out because it relies on `parseFloat` and float division.
- `handleDownload` is left out because it is DOM manipulation and `navigator.vibrate`.
- The JSX rendering, `useEffect`, `useMemo` memoisation and the async scheduling of `fetch` are UI and concurrency. `FetchApps` runs the two halves of `fetchApps` back to back; `BeginFetch` states the state in between.
- `toLowerCase` maps only the ASCII letters A–Z; Unicode case mapping is not modelled. `includes` compares every character exactly.
- Concurrent requests and changes to the directory during a scan are not modelled. Each scan sees one fixed listing.
