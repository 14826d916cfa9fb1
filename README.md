# sftp-provider metadata model

A Dafny model of the metadata side of `SFTPProvider`, the fox-finder provider in `src/index.ts`. That side has three parts:

- `listFile` reads a remote directory over the transfer protocol, keeps the entries whose name contains an optional trimmed keyword, and turns each one into the canonical `IFile` record.
- `getChildrenFilesRWState` and `checkAccess` send permission probes (`find` and `[ -r ]`/`[ -w ]` shell commands) over the exec channel and read their output back.
- `stat` builds an `IFileStat` record for one path. For a directory, a loop counts its immediate children by type.

Remote calls are modelled by what they settle to: `Outcome<T>` is `Resolved(value)`, `Rejected(reason)` or `Pending`. `Pending` means the callback is never called and the promise never settles.

The exec channel is a function `exec` from a command line to its outcome, so every probe result is tied to the exact command string the provider builds. The transfer protocol's `readdir` and `stat` replies, the size probe and the client library's `list` are passed in as outcomes.

Node's `path.basename` and `path.extname` (POSIX, one argument) are modelled after Node's algorithm. So are the JavaScript string built-ins the code relies on: `trim`, `includes`, `substr`, `split` and `String(n)`.

Modules follow the code's structure:

- `Sequences` holds order-preserving `filter`; `Results` holds the outcome and option types.
- `JsString` and `PosixPath` hold the built-ins.
- `Records` holds the record types.
- `Probes` covers lines 56-74.
- `Listing` covers `listFile`, lines 106-150.
- `Status` covers `stat`, lines 161-207.

The child count in `stat` is the one imperative part of the core, so it is a method with a loop (`Status.CountChildren`) proved against recursive counting functions.

Behaviour of the code that the model keeps as it is:

- `sshExec` resolves with the first chunk of standard output (`src/index.ts:43`), and later chunks are dropped. `exec` gives that first chunk.
- `checkAccess` is `Boolean(output)`, true for any non-empty output. The command always echoes `true\n` or `false\n`, so an answered check is always true, whatever the test decided (`Probes.CheckAccessIgnoresVerdict`).
- In `stat`, the access checks, the size probe and the child listing are awaited inside the `async` callback handed to the transfer protocol's `stat`. If one of them rejects, only the callback's own promise rejects, and nothing handles it. The promise `stat` returned is never resolved or rejected, so the model gives `Pending` (`Status.StatProbeFailureNeverSettles`).
- `gid` is set from the owner id, like `uid` (`src/index.ts:145`, `186`).

## Model

| member | source | states |
|---|---|---|
| Sequences.Filter | src/index.ts:115 | `filter` keeps a subsequence of its input, every kept element satisfies the predicate, and no satisfying element is missing |
| Sequences.FilterCount | src/index.ts:115 | each element satisfying the predicate occurs in the result exactly as often as in the input; other elements do not occur |
| JsString.Trim | src/index.ts:112 | `trim` returns a slice of its input surrounded only by white space or line terminators, and neither its first nor its last character is one |
| JsString.TrimEmptyIff | src/index.ts:112-114 | a keyword trims to the empty (falsy) string exactly when all of its characters are white space |
| JsString.TrimIdempotent | src/index.ts:112 | trimming a trimmed keyword changes nothing |
| JsString.Substr | src/index.ts:124-125 | `substr(start, length)` has length `length` clipped to what is left after `start` (none when `start` is past the end), and its characters are those of the string from `start` on |
| JsString.Includes | src/index.ts:115 | `includes` searches position by position and succeeds exactly when the substring occurs at some index |
| JsString.IncludesInfix | src/index.ts:115 | a string includes every infix of it |
| JsString.IncludesEmptyAndSelf | src/index.ts:115 | a string includes the empty string and itself |
| JsString.Split | src/index.ts:60 | `split('\n')` yields at least one piece, no piece holds a newline, and joining the pieces with newlines gives the output back |
| JsString.SplitJoin | src/index.ts:60 | splitting a join of newline-free pieces gives exactly those pieces back |
| JsString.SplitNonEmpty | src/index.ts:60 | the result of the split and the `!!name` filter holds only non-empty, newline-free pieces, keeps their order, and holds every non-empty piece as often as the split does |
| JsString.DecimalString | src/index.ts:144 | `String(n)` is a non-empty string of decimal digits without a leading zero |
| JsString.DecimalRoundTrip | src/index.ts:144-145 | reading the digits of `String(n)` back gives `n` |
| PosixPath.Basename | src/index.ts:171 | `path.basename` returns the separator-free run of the path that ends where its trailing separators begin and starts after the separator before it (empty for a path made only of separators) |
| PosixPath.LastSegmentUnique | src/index.ts:171 | only one separator-free name is the last segment of a path in that sense, so the contract of `Basename` fixes its result |
| PosixPath.BasenameIdempotent | src/index.ts:171 | the basename of a basename is itself |
| PosixPath.SegmentExtname | src/index.ts:134 | a non-empty extension is a proper suffix of the name that starts at a dot after the first character and holds no other dot |
| PosixPath.Extname | src/index.ts:134 | `path.extname` is empty or a dot followed by dot-free, separator-free characters, and it is a proper suffix of the basename |
| PosixPath.ExtnameOfStemAndSuffix | src/index.ts:134 | the extension of a non-empty stem, a dot and a dot-free suffix is the dot and that suffix, except for the name `..` |
| PosixPath.DotfileHasNoExtname | src/index.ts:134 | a name whose only dot is its first character has no extension |
| Records.Extension | src/index.ts:133-135 | `extname(...).substr(1)` has no dot and no separator; it is empty when `extname` is, and otherwise `extname` is a dot followed by it |
| Records.ExtensionOfDotFreeName | src/index.ts:133-135 | a name without a dot, such as `Makefile`, has an empty extension |
| Records.ExtensionOfName | src/index.ts:134 | the extension field of a stem, a dot and a dot-free suffix is that suffix, and it is empty for a dotfile |
| Records.ExtensionOfBasename | src/index.ts:171-176 | a path and its basename have the same extension, so a stat record's extension is that of its own name |
| Records.IdString | src/index.ts:144-145 | the owner string is a non-empty string of decimal digits without a leading zero that denotes the owner id, which determines it |
| Probes.FindCommand | src/index.ts:57 | the `find` command is 41 characters longer than the pattern, starts with `find `, holds the pattern verbatim, unquoted, at index 5 and the `readable`/`writable` test 14 characters after it |
| Probes.FindOptions | src/index.ts:57 | the `find` options after the pattern have a fixed length and carry the `readable`/`writable` test at a fixed position |
| Probes.FindCommandInjective | src/index.ts:57-58 | different patterns or tests give different `find` commands, so the two probes are distinct commands |
| Probes.AccessOpening | src/index.ts:70 | the text before the path is eight characters long and carries the `r`/`w` flag at index 6 |
| Probes.AccessCommand | src/index.ts:70 | the access command is 51 characters longer than the path, carries the `r`/`w` flag at index 6 and holds the path verbatim, unquoted, at index 8 |
| Probes.AccessCommandInjective | src/index.ts:70 | different paths or modes give different access commands |
| Probes.ProbeNames | src/index.ts:59-61 | every name read from a probe is non-empty and holds no newline |
| Probes.ProbeNamesOfPrinted | src/index.ts:57-61 | output printing each name followed by a newline (`-printf "%f\n"`) parses back to exactly those names, in order |
| Probes.ChildrenAccess | src/index.ts:56-66 | the readable probe runs first and the writable probe only after it answers; either rejection is passed through; the call is pending exactly when a probe never answers; a settled result holds the names parsed from each reply |
| Probes.CheckAccess | src/index.ts:68-74 | the check settles exactly when the command's reply does; a rejection is passed through; an answered check is true exactly when the output is non-empty |
| Probes.CheckAccessIgnoresVerdict | src/index.ts:70-72 | an echoed `true` and an echoed `false` both make the check true |
| Listing.KeptEntries | src/index.ts:112-117 | without a keyword, or with one that trims to nothing, all entries are kept; otherwise the kept entries are a subsequence of the listing, all contain the trimmed keyword, and no entry containing it is missing |
| Listing.BlankKeywordKeepsAll | src/index.ts:112-117 | a keyword made only of white space keeps the whole listing |
| Listing.KeptEntriesCount | src/index.ts:114-116 | each matching entry is kept as often as it occurs in the listing, and no other entry is kept |
| Listing.EntryKind | src/index.ts:124-129 | an entry is a directory exactly when its long line starts with `d` |
| Listing.EntryModeStat | src/index.ts:125 | the symbolic mode is characters 1 to 9 of the long line, or as many of them as the line has |
| Listing.NormalizeEntry | src/index.ts:123-147 | a record keeps the entry's name and size and joins its path; it is a directory exactly when the long line starts with `d`; it has no extension exactly when it is a directory, and otherwise the dot-free extension of its name; times are in milliseconds and there is no creation time; readable/writeable hold exactly when the name is in the matching probe list; its mode comes from the long line; uid and gid are both the owner id's digits |
| Listing.NormalizeEntries | src/index.ts:123-148 | `map` yields one record per entry, in the same order |
| Listing.ListFile | src/index.ts:106-150 | a rejected `readdir` is passed through; a pending one stays pending; after `readdir` answers, the listing settles exactly when the probes do and passes a probe rejection through; a settled listing holds exactly one normalised record per kept entry, in order |
| Listing.NormalizeFilterCommute | src/index.ts:115-130 | filtering the records by name equals normalising the filtered entries, since a record keeps its entry's name |
| Listing.ListFileWithKeyword | src/index.ts:112-148 | a listing with a keyword settles exactly when the unfiltered listing does, and its records are the unfiltered records whose name contains the trimmed keyword, in order |
| Listing.ListEmptyDirectory | src/index.ts:106-149 | an empty directory whose probes answer lists no records |
| Status.StatRecord | src/index.ts:167-188 | the record's kind follows `isDirectory()`; its name is the basename and its extension that of its name (none for a directory); times are in milliseconds with no creation time; the mode comes from the mode codec, applied to the decimal digits of the numeric mode; uid and gid are both the owner id's digits |
| Status.CountsPartition | src/index.ts:195-201 | every child is counted once, as file or as directory |
| Status.DirectoryCountIsFilter | src/index.ts:195-201 | the directory count is the number of children whose type is `d` |
| Status.CountChildren | src/index.ts:191-201 | the loop leaves the counters at the number of non-`d` children and of `d` children |
| Status.StatOutcome | src/index.ts:161-207 | a rejected protocol reply is passed through and a pending one stays pending; a settled stat needs the reply and both access checks answered and carries the record built from them; it settles whenever those answered and, for a directory, the size probe and the child listing did too |
| Status.Stat | src/index.ts:161-207 | `stat` settles to the outcome built from the protocol reply, both access checks and, for a directory only, the size probe and the children's counts |
| Status.StatDirectoryFields | src/index.ts:190-203 | a settled stat carries directory fields exactly for a directory; then file and directory counts add up to the number of children, the directory count is the number of `d` children, and the total size is the size probe's result |
| Status.StatOfFileIgnoresDirectoryProbes | src/index.ts:190-203 | for anything but a directory, the size probe and the child listing have no effect on the result |
| Status.StatProbeFailureNeverSettles | src/index.ts:163-203 | once the protocol has answered, stat never rejects; a rejected access check, size probe or child listing leaves it pending |
| Status.StatAccessFromEcho | src/index.ts:180-181 | a stat whose access commands both echo `false` still reports the path readable and writable |

## Left out

- `sshExec`, `connect`, `ensureAvailability` and the constructor (`src/index.ts:32-54`, `92-96`) are network and stream I/O. The exec channel is the `exec` oracle, which gives the first chunk of standard output, a rejection or nothing.
- `makeDir`, `writeFile`, `readFile`, `copy`, `move`, `rename`, `remove` and `chmod` (`src/index.ts:98-104`, `152-159`, `209-227`) delegate directly to the transfer protocol or the shell, with no local logic.
- `transformStatModeToOctal` and `transformOctalModeToStat` belong to the shared model package, which is not part of this model. They are uninterpreted fields of `Records.Foreign`.
- Records.Foreign: the mode codec and `path.join` are total functions here. If the codec throws on a malformed mode (a long line shorter than ten characters gives a mode string of fewer than nine), the throw inside `.then(async …)` would reject `listFile`, and inside the `stat` callback it would leave `stat` pending. The model does not capture either.
- `path.join` is also an uninterpreted field of `Records.Foreign`. Its normalisation of `..` and repeated separators is not modelled.
- JsString: strings are sequences of Unicode scalar values, whereas JavaScript's `substr`, `includes` and `trim` index UTF-16 code units. The two differ on characters outside the Basic Multilingual Plane, for example in where `substr(1, 9)` cuts a long line that holds one.
- The shell's behaviour is not modelled: `exec` is an arbitrary function of the command. Two consequences of how the shell behaves fall outside what the lemmas state. For an empty directory, or one holding only dotfiles, the glob `<dir>/*` stays unexpanded, so `find` would write to standard error, the probe would reject, and so would `listFile`. `Listing.ListEmptyDirectory` assumes the probes answer. And a file name containing a newline is printed over two lines, so the probe reads it back as two names. `Probes.ProbeNamesOfPrinted` requires names without newlines.
- `getSize` (`src/index.ts:84-90`) is left out: its `du` command and the `parseInt` of its output are remote. The total size is an input outcome, and a `NaN` result is not modelled.
- The result of `stats.isDirectory()` and the type string of each child in the `list` reply are computed by the client libraries. They are inputs.
- JavaScript numbers are modelled as unbounded integers. Sizes, ids and the millisecond times are never rounded, and a negative or fractional attribute is not modelled.
- Node's reaction to the unhandled rejection in `stat` (a warning or the end of the process) is outside the model. Only the never-settling promise is modelled.
- The interleaving of concurrently issued calls on the shared session is not modelled. Within one call, the model keeps the order of the awaited steps.
- JsString.Substr: models only the non-negative arguments the code passes.
- JsString.Split: models only the one-character separator the code uses.
- `dev/index.ts` is a demonstration script that only calls the provider.
