# Verification model of the OpenDAL extension

The extension gives DuckDB a file system and a set of table functions over object stores. A C++ side
(`src/`) speaks DuckDB's interfaces, a Rust side (`opendal/src/`) drives the storage library. This
project models the parts with real algorithms and state and proves what they promise. The storage
services and DuckDB appear only as contracts: a store is a finite map from paths to bytes, a listing
returns its entries in any order, and every call to a backend may fail.

`dafny verify dfyconfig.toml` checks everything.

| file | subject |
|---|---|
| `Bytes.dfy` | byte strings, searching and trimming, the byte-wise order, sorted iteration |
| `Glob.dfy`, `GlobMeaning.dfy` | the language of a pattern, the memoised matcher that decides it, and what patterns mean byte by byte |
| `Url.dfy`, `UrlMeaning.dfy` | `resolve` and `od_url_build`: percent-encoding, UTF-8, the round trip, and exactly which URLs are accepted |
| `Spaces.dfy`, `Store.dfy` | how the storage library reads a path, and the contracts of stores, listings and stats |
| `GlobSearch.dfy` | pruning a search and `OpenDalFileSystem::Glob` |
| `Paging.dfy`, `TableScan.dfy` | rows in output vectors, and the always-recursive listing cursor that fills them |
| `ListScan.dfy` | `opendal_ls` from the URL to the rows, and how it agrees with the file system's glob |
| `CacheKey.dfy`, `KeyLimits.dfy` | the cache key, and exactly how far it determines a request |
| `OperatorCache.dfy` | the locking protocol around the cache |
| `Secrets.dfy`, `Options.dfy` | secrets, global settings, their merge and the split into sections |
| `Writer.dfy` | the Rust writer and the C++ file handle as one machine |
| `Reader.dfy` | ranged, sequential and positioned reads |
| `CopyStream.dfy`, `Copy.dfy`, `CopyRun.dfy` | copying one object, planning `opendal_copy`, and whole runs of it |
| `Du.dfy` | the per-directory rollup of `opendal_du` |

Code that changes state is a class or a method with loops; each method is tied to a specification
function, and the properties of whole runs are lemmas about those functions. Failures are not
probabilities but parameters: an operation that calls a backend takes the backend's answer as an
argument, about which nothing is assumed, so a statement for all arguments is a statement for every
behaviour of the backend.

## What the proofs show about the code

- **A pattern means what its tokens mean.** The matcher's memo is keyed by two lengths only, and
  is sound all the same: both arguments are always suffixes of the initial pair. The matcher
  decides the declarative language within 1 + 3(|p|+1)(|v|+1) calls.
- **`**/` is not anchored at a segment.** Since `**` may take any bytes first, `**` and `**/`
  denote the same language: `**/a` matches `ba` (`DoubleStarSlashStep`).
- **`?` cannot be written, and its escape is not searched for everywhere.**
  docs/table-functions.md offers `?` as a wildcard, but `resolve` refuses every URL with a raw `?`
  (`RawQuestionMarkRejected`). The escape `%3F` is a wildcard to the table functions, which look
  at the resolved path, and not to the file system, which looks at the URL as written:
  `s3://b/a%3F` lists `ax` and is globbed as a file named `a?` (`EscapedQuestionMark`). A path
  with a wildcard is always searched by the table function, and by the file system exactly when
  the URL holds a raw `*` or `[`; then both find the same files (`TheTwoGlobs`).
- **A backslash does not survive a URL.** `resolve` turns it into a slash and the printer does not
  encode it. The round trip holds exactly for paths without one (`RoundTripExactly`); the printer
  itself never confuses two paths (`BuildInjective`).
- **The cache key is decodable up to two ambiguities.** The boundary between configuration and
  options leaves no trace (`BoundaryIsNotMarked`). For a request whose scheme and authority hold
  no `|`, it is recoverable if and only if the keys are ordered so that no entry next to it could
  stand on the other side (`KeyDeterminesRequest`). An authority with `|` can imitate frames:
  every registered scheme has two requests with one key, and both URLs resolve
  (`CollisionCanBeRequested`). But a request in which no value holds the frame of its own scheme
  shares its key with no such imitation, whatever the other request looks like
  (`UnspoofedKeyDecodes`). So the caller of such a request can tell from it alone whether its
  operator was built from it (`AnswerWasBuiltForRequest`), and where the keys do not mark the
  boundary, some run hands it another one (`UnmarkedGetsAnother`).
- **Odd spellings defeat the relative paths of a copy.** docs/table-functions.md promises that
  each file keeps its path relative to the fixed part of the source. The code strips that part
  literally from paths the storage library has read its own way: it trims whitespace and drops
  empty segments. The promise holds exactly when the fixed part is the root, or is spelled as the
  library keeps it and, if the destination has no prefix, the relative path does not begin with
  whitespace (`RelativePathKept`).
- **Without a destination prefix two files can become one.** The library trims `a/ x` copied from
  `a/` to a root down to `x`, where `a/x` goes too (`TrimmingMergesFiles`). Under a prefix this
  cannot happen; without one it happens exactly when two relative paths are the same behind
  leading whitespace (`TargetsAreDistinct`).
- **A failing copy callback loses rows, exactly those before the failure.** A callback fails
  exactly when one of the rows that would fill its vector fails. If row k is the first, its k
  predecessors in the vector have been committed and are not returned (`CopyRun.CopyScan.Scan`,
  `CopyRun.RunScan`).
- **Copies that feed each other forget.** A plan that writes to no place twice leaves at every
  destination what its source held before the copy began if and only if every row that overwrites
  the source of a later one leaves there what that row meant to copy (`ExecuteCopiesOriginals`;
  `LosslessExactly` for every plan). Copying `a/` to `a/z` when both `a/f` and `a/z/f` exist
  breaks this without an error (`ChainForgetsTheMiddle`).
- **Only the destructor can lose data silently.** Every other path either throws or has published
  (`NoSilentLoss`); the destructor publishes exactly if the handle is committable and the close
  succeeds, and reports nothing (`DestroyPublishes`).
- **`Seek` accepts offsets it cannot represent.** An offset beyond the signed range becomes a
  negative position, and the next sequential read may overflow; `SeekMayWrap` says exactly when.
- **Keys that differ in case only do not survive `CREATE SECRET`.** The host keeps the entries of
  a secret in a map that compares keys without case: the first spelling stays, the last value
  wins. A parameter comes out as it went in if and only if no two of its different keys are the
  same up to case (`CreatedSecretComesApart`).
- **A secret of another extension may be unusable.** The options are refused exactly when the
  secret holds an entry of neither the service nor one of the four sections (`EffectiveOptions`);
  a secret made by this extension never does (`CreatedSecretIsAccepted`).

## Model

| member | source | states |
|---|---|---|
| Glob.DoubleStarCase | opendal/src/table.rs:325-328 | the three alternatives tried for `**`, with or without a slash behind it, cover exactly the strings cut into anything and a match of the rest |
| Glob.DoubleStarSlashStep | opendal/src/table.rs:325-328 | skipping the slash behind `**` or keeping it denotes one language, so `**/` is not anchored at a segment |
| Glob.StarCase | opendal/src/table.rs:329-331 | `*` stands for exactly the strings without a slash |
| Glob.QuestionCase | opendal/src/table.rs:332-333 | `?` stands for exactly the single bytes other than a slash |
| Glob.ClassCase | opendal/src/table.rs:334-357 | a class ends at the first `]`, accepts one byte that is not a slash according to its ranges and negation, and without a `]` accepts nothing |
| Glob.MatchClass | opendal/src/table.rs:341-354 | the loop over the items finds the byte exactly if one of the ranges or single bytes contains it |
| Glob.Matcher.Run | opendal/src/table.rs:318-364 | every stored answer is right for the suffixes its two lengths stand for, the result decides the language, and each key stored pays for at most three calls |
| Glob.Matcher.Expand | opendal/src/table.rs:323-361 | the case analysis decides the language; only an unclosed class is not stored, and then nothing has been called |
| Glob.GlobMatches | opendal/src/table.rs:317-366 | true exactly when the value can be cut into one piece per token, each accepted by its token, within 1 + 3(\|p\|+1)(\|v\|+1) calls |
| GlobMeaning.LiteralMeans | opendal/src/table.rs:358-360 | any byte but `*`, `?` and `[` stands for itself |
| GlobMeaning.QuestionMeans | opendal/src/table.rs:332-333 | `?` takes one byte that is not a slash |
| GlobMeaning.StarMeans | opendal/src/table.rs:329-331 | `*` takes any bytes but a slash, and the rest matches what is left |
| GlobMeaning.DoubleStarMeans | opendal/src/table.rs:325-328 | `**` takes any bytes |
| GlobMeaning.DoubleStarSlashMeans | opendal/src/table.rs:325-328 | `**/` takes any bytes too |
| GlobMeaning.UnclosedMeans | opendal/src/table.rs:334-337 | a class without its end matches nothing |
| GlobMeaning.ClassThenRest | opendal/src/table.rs:334-357 | a class takes one byte, and the pattern behind its first `]` goes on with the next |
| GlobMeaning.NegatedClassMeans | opendal/src/table.rs:338-357 | behind `!` or `^` a class matches, of the bytes other than the slash, exactly those it does not match without; none matches the slash |
| GlobMeaning.EmptyClassMeans | opendal/src/table.rs:338-357 | `[]` matches nothing, `[!]` and `[^]` every byte but the slash |
| GlobMeaning.RangeThenItems | opendal/src/table.rs:348-351 | a first byte followed by a dash and another byte is a range, and counts besides the items behind it |
| GlobMeaning.ByteThenItems | opendal/src/table.rs:352-355 | any other first byte counts as itself, besides the items behind it |
| GlobMeaning.NegatedBytes | opendal/src/table.rs:338-357 | `[!abc]` and `[^abc]` match any byte but the slash and those |
| GlobMeaning.Bytewise | opendal/src/table.rs:338-357 | `[abc]` matches one of those bytes |
| GlobMeaning.OneRange | opendal/src/table.rs:338-357 | `[a-z]` matches the bytes from one end to the other, its negations all others but the slash |
| GlobSearch.LiteralPrefix | opendal/src/table.rs:358-360 | a prefix without wildcards matches itself only, whatever pattern follows |
| GlobSearch.StaysInSegment | src/opendal_filesystem.cpp:755-768 | a pattern without a slash and without `**` matches only inside one path segment |
| GlobSearch.MatchIsUnderRoot | opendal/src/table.rs:694-702 | matching a pattern is the same as lying under its static directory and matching what follows it |
| GlobSearch.PruningIsComplete | src/opendal_filesystem.cpp:753-778 | every matching file lies under the directory that is listed, on its top level when the listing is not recursive; so neither cut nor choice loses a match |
| GlobSearch.KeyOfListDir | src/opendal_filesystem.cpp:753-772 | the C++ spelling of the static directory and the Rust one denote the same prefix of the store, doubled slashes included |
| GlobSearch.ListsOneLevel | src/opendal_filesystem.cpp:757-770 | the directory in front of the last slash before the first wildcard is listed, and one level of it exactly if behind it stand neither a slash nor two stars side by side |
| GlobSearch.SortUniqueIsSorted | src/opendal_filesystem.cpp:803-807 | sorting and removing equal neighbours yields the strictly increasing list of the distinct elements |
| GlobSearch.Collect | src/opendal_filesystem.cpp:784-802 | the loop collects the URLs of exactly the listed files that match, directories skipped |
| GlobSearch.Search | src/opendal_filesystem.cpp:753-808 | for every store, pattern and listing order the result is the strictly increasing list of the URLs of exactly the files that match; not-found is no match, any other failure throws |
| GlobSearch.GlobUrl | src/opendal_filesystem.cpp:730-809 | an unresolvable URL has no match; a URL written without wildcards is itself the match exactly if it names a file of the store, and is taken as it is without a client context; anything else is searched; it throws exactly if no operator can be built or the stat or listing fails |
| GlobSearch.UrlsAreDistinct | src/opendal_filesystem.cpp:799-807 | removing duplicates never merges two distinct files |
| TableScan.TableCursor.Next | opendal/src/table.rs:617-678 | yields the next item of the lister that is neither the listed directory nor a non-match, in lister order, and reports an error where the lister does |
| TableScan.VisibleMeans | opendal/src/table.rs:645-665 | an item is left out exactly if it is the listed directory, with or without its slash, or does not match; the order is kept |
| TableScan.SelfIsNoMatch | opendal/src/table.rs:647-660 | skipping the listed directory never drops a matching file |
| TableScan.GlobPathsAgree | opendal/src/table.rs:556-678 | on every store the files the always-recursive cursor yields for a pattern are exactly the matching ones |
| TableScan.EntryScan.Scan | src/opendal_table_functions.cpp:231-256 | a callback returns the longest error-free run of pending rows that fits its vector and consumes just that; a run that ends in an error throws; after the end the cursor is not touched |
| Paging.ChunkIsSlice | src/opendal_table_functions.cpp:231-256 | chunk k holds the rows from k times the vector size on: full until the rows run out, empty from then on |
| Paging.PagingIsExact | src/opendal_table_functions.cpp:231-256 | the chunks put together are the rows once each, in lister order, for every vector size and number of calls |
| TableScan.ScanRun | src/opendal_table_functions.cpp:231-256 | any number of callbacks returns the entries chunk by chunk up to the callback that reaches the first error; that one fails |
| ListScan.OpenUrl | src/opendal_table_functions.cpp:155-194 | a path with a wildcard is listed recursively from its static directory, any other as asked, leaving out the listed path; nothing opens without an operator, a resolvable URL and a lister |
| ListScan.PlainListing | opendal/src/table.rs:468-541 | a listing that is no glob shows the files under the directory, directly or at any depth as asked, but never the listed path itself |
| ListScan.ListUrl | src/opendal_table_functions.cpp:155-256 | a listing scanned to its end fails exactly if it cannot be opened or the lister breaks off, having returned only rows in front of the error; otherwise a glob returns every matching file and no other, once each if the lister repeats nothing |
| ListScan.RawWildcards | src/opendal_filesystem.cpp:737 | an accepted URL holds a raw wildcard exactly if it holds `*` or `[` |
| ListScan.TheTwoGlobs | src/opendal_filesystem.cpp:737-751 | a wildcard in the path is always searched for by the table function, and by the file system if and only if the URL as written holds one; then both find the same files, otherwise the file system takes the path literally |
| ListScan.EscapedQuestionMark | src/opendal_table_functions.cpp:183-184 | a URL that lists a file by its escaped `?` and is globbed as a literal |
| Url.Utf8Cut | opendal/src/uri.rs:22-34 | cutting UTF-8 text at an ASCII separator leaves UTF-8 text on both sides |
| Url.DecodeEncode | opendal/src/lib.rs:56-61 | percent-decoding undoes percent-encoding on every byte string |
| Url.EncodeIsPlain | opendal/src/lib.rs:56-61 | encoded text is ASCII without `?`, `#`, NUL or an encoded slash, whatever was encoded |
| Url.EncodeBySegment | opendal/src/lib.rs:131-137 | encoding segment by segment and joining again is encoding the whole path |
| Url.DecodeAcrossSlash | opendal/src/uri.rs:45-50 | no escape reaches across a slash |
| Url.DecodeKeepsSegments | opendal/src/uri.rs:34-55 | splitting the decoded path at slashes is decoding each segment of the encoded path, since encoded slashes are refused |
| UrlMeaning.AcceptedExactly | opendal/src/uri.rs:15-66 | a URL with a path is accepted exactly if it is text without `?` and `#`, its scheme is registered in small letters, its authority has no `@`, its path no escaped slash, and the decoded path is text without NUL; it resolves to these parts, and the slashes of the path are those of the URL |
| UrlMeaning.AcceptedWithoutPath | opendal/src/uri.rs:34 | without a slash behind the authority the path is empty |
| UrlMeaning.NoSeparatorRejected | opendal/src/uri.rs:22-25 | without `://` nothing is accepted |
| UrlMeaning.HexMeans | opendal/src/uri.rs:47 | capital and small hexadecimal digits have the same values |
| UrlMeaning.DecodeMeans | opendal/src/uri.rs:47 | an escape stands for the byte its digits write |
| UrlMeaning.DecodeOther | opendal/src/uri.rs:47 | every other byte stands for itself, a percent sign without two digits included |
| UrlMeaning.EncodeMeans | opendal/src/lib.rs:56-61 | graphic ASCII but for `"`, `#`, `%` and `?` is written as it is, and every other byte as an escape with capital digits |
| UrlMeaning.SplitMeans | opendal/src/lib.rs:131-137 | a path is cut at every slash and only there |
| UrlMeaning.CharacterMeans | opendal/src/uri.rs:47-54 | text is UTF-8: characters in their shortest form, no surrogates, up to U+10FFFF |
| UrlMeaning.SpaceMeans | docs/configuration.md:120 | what is trimmed from the ends of a path are the white-space characters of Unicode |
| UrlMeaning.OnlyTextIsBuilt | opendal/src/lib.rs:122-145 | a URL is built exactly from text, and is text |
| Url.RoundTrip | opendal/src/uri.rs:15-66 | resolving a built URL gives back scheme, authority and path, the backslashes of the path turned into slashes |
| Url.RoundTripExactly | opendal/src/uri.rs:15-66 | the round trip returns the very path if and only if the path has no backslash |
| Url.BuildInjective | opendal/src/lib.rs:122-145 | within one service the URL determines the path |
| Url.ResolvedIsGood | opendal/src/uri.rs:15-66 | whatever is accepted has a registered lower-case scheme, an authority without separators and a UTF-8 path without NUL |
| Url.ResolveIsStable | opendal/src/uri.rs:15-66 | building and resolving again fixes the parts of every accepted URL, exactly if the path has no backslash |
| Url.RawQuestionMarkRejected | opendal/src/uri.rs:16-21 | no URL with a raw `?` is accepted |
| CacheKey.Builder.Add | src/opendal_filesystem.cpp:263-271 | appends the length-prefixed frame of a value and folds its bytes and an end mark into the hash |
| CacheKey.Builder.Append | src/opendal_filesystem.cpp:272-277 | appends the frames of all keys and values of a map in key order |
| CacheKey.ConfigIdentity | src/opendal_filesystem.cpp:258-283 | the running text and hash end up as the key and namespace of the request |
| CacheKey.MixIsReversible | src/opendal_filesystem.cpp:265-268 | a step of the hash loses neither the hash before it nor the byte |
| CacheKey.OneByteChangesHash | src/opendal_filesystem.cpp:263-281 | requests whose values differ in one byte have different cache namespaces |
| CacheKey.HashOfOneByte | src/opendal_filesystem.cpp:261-281 | where the hash starts, and two hashes worked out |
| CacheKey.DecimalMeans | src/opendal_filesystem.cpp:264 | lengths are written in decimal without leading zeros |
| CacheKey.FrameInjective | src/opendal_filesystem.cpp:263-271 | a frame can be told from whatever follows it |
| CacheKey.FramesInjective | src/opendal_filesystem.cpp:263-281 | a list of frames determines the list of values |
| CacheKey.PairsInjective | src/opendal_filesystem.cpp:272-277 | the entries in key order determine the map |
| CacheKey.IdentityDecodes | src/opendal_filesystem.cpp:258-283 | for schemes and authorities without `\|`, two keys are equal if and only if scheme, authority and the joined list of entries are |
| CacheKey.IdentityInjective | src/opendal_filesystem.cpp:258-283 | two requests that both keep service keys outside and option keys inside the option sections have equal keys only if they and their cache namespaces are equal |
| KeyLimits.PlainKeyDecodes | src/opendal_filesystem.cpp:258-283 | any request whatever with the key of a request without `\|` has its scheme, authority and joined entries, and no `\|` in scheme or authority |
| KeyLimits.UnspoofedKeyDecodes | src/opendal_filesystem.cpp:258-283 | so has any request with a slash-free scheme and the key of a request in which no value holds the frame of the scheme, whether or not its keys and values hold `\|` |
| KeyLimits.Unmarked | src/opendal_filesystem.cpp:279-281 | where the order of the keys does not give the boundary away, another request with the same key exists |
| KeyLimits.MarkedIsUnique | src/opendal_filesystem.cpp:279-281 | where it does, none exists |
| KeyLimits.KeyDeterminesRequest | src/opendal_filesystem.cpp:258-283 | a request is the only one with its key, among those with allowed option keys, if and only if its own keys mark the boundary |
| KeyLimits.BoundaryIsNotMarked | src/opendal_filesystem.cpp:280-281 | any entries give the same key as configuration and as options |
| KeyLimits.PipeInAuthorityCollides | src/opendal_filesystem.cpp:262-271 | for every scheme and configuration key two different requests with one key, the authority of one spelling out the frames of the other |
| KeyLimits.CollisionCanBeRequested | opendal/src/uri.rs:15-66 | with every registered plain scheme the URLs of two such requests resolve to their authorities |
| OperatorCache.Cache.Publish | src/opendal_filesystem.cpp:393-401 | the first handle under a key stays; a later one is freed once and the first returned instead |
| OperatorCache.Cache.Destroy | src/opendal_filesystem.cpp:168-176 | every entry is freed once and the cache is empty |
| OperatorCache.Cache.BuildOperator | src/opendal_filesystem.cpp:311-402 | without another thread: a hit changes nothing, a miss publishes what was built, a failed build leaves no trace, nothing is freed |
| OperatorCache.StepMeans | src/opendal_filesystem.cpp:335-401 | what each critical section, build and step of the destructor changes, and that it changes nothing else |
| OperatorCache.EveryCallCanBeAnswered | src/opendal_filesystem.cpp:311-402 | from every state before the destructor a thread that asks gets an answer with at most three steps of its own, if its build succeeds |
| OperatorCache.StepKeepsInv | src/opendal_filesystem.cpp:335-402 | each critical section, each build and each step of the destructor keeps ownership, bindings and answers consistent, for any number of threads |
| OperatorCache.RunKeepsInv | src/opendal_filesystem.cpp:335-402 | so does every interleaving |
| OperatorCache.BindingsAreStable | src/opendal_filesystem.cpp:393-401 | until destruction a published key is never bound to another handle; answers and builds are never forgotten |
| OperatorCache.SameKeySameHandle | src/opendal_filesystem.cpp:335-402 | in every interleaving all successful callers with one key get one handle |
| OperatorCache.ExactlyOneOwner | src/opendal_filesystem.cpp:363-402 | at every moment each operator built is held by its builder, or published, or freed once, and exactly one of these |
| OperatorCache.AnswersStayAlive | src/opendal_filesystem.cpp:393-402 | no handle returned to a caller is freed before the destructor begins |
| OperatorCache.AllFreedInTheEnd | src/opendal_filesystem.cpp:168-176 | after a quiescent destructor the operators freed are those built, once each |
| OperatorCache.AnswerWasBuiltForRequest | src/opendal_filesystem.cpp:311-402 | in every interleaving a request in which no value holds the frame of its scheme and whose keys mark the boundary gets an operator built from its own scheme, authority, configuration and options, in its own namespace, whatever other threads ask for |
| OperatorCache.UnmarkedGetsAnother | src/opendal_filesystem.cpp:335-401 | a request whose keys do not mark the boundary gets, in some run, an operator built from another request |
| Secrets.Secret.CopyMap | src/opendal_secret.cpp:14-25 | each entry of a parameter is put under its prefix into a map that compares keys without case; an absent or NULL parameter changes nothing |
| Secrets.FirstSpellingIsKept | src/opendal_secret.cpp:19-24 | a key is kept in the spelling that came first |
| Secrets.LastValueIsKept | src/opendal_secret.cpp:19-24 | with the value that came last in any spelling |
| Secrets.KeptExactly | src/opendal_secret.cpp:19-24 | a parameter is kept as given if and only if no two of its different keys are the same up to case |
| Secrets.Secret.constructor | src/opendal_secret.cpp:27-36 | the five parameters and the scheme are stored side by side |
| Options.GlobalConfigSnapshot | src/opendal_filesystem.cpp:64-73 | every section of the settings can be read back from the flat map unchanged, and the flat map holds nothing else |
| Options.ApplySecret | src/opendal_filesystem.cpp:238-249 | service entries go to the configuration without their prefix, the scheme mark nowhere, all others over the options |
| Options.SeenUnderItsName | opendal/src/config/mod.rs:31-42 | what is stored under one name is read back under that name unchanged, dotted keys included, and under no other name |
| Options.SectionOfKey | opendal/src/config/mod.rs:32-37 | the text before the first dot is a section exactly if the key starts with a section's prefix |
| Options.Parse | opendal/src/config/mod.rs:31-51 | accepts exactly when every key belongs to a section, and then each section holds its entries and no others; otherwise the first stray key is reported |
| Options.EffectiveOptions | src/opendal_filesystem.cpp:311-351 | service configuration is the secret's alone; each section holds the secret's entry where it has one, else the global setting, else nothing; refused exactly when the secret has a stray entry |
| Options.EffectiveMeans | src/opendal_filesystem.cpp:238-249 | a key of a section has the secret's value if the secret has the key, else the global one, else none |
| Options.PrefixesMean | opendal/src/config/mod.rs:36-38 | the sections are `io`, `retry`, `timeout` and `cache`; `config.` and `__scheme` are no options |
| Secrets.CreatedSecretComesApart | src/opendal_secret.cpp:27-36 | each parameter of a created secret comes out as it is kept, whatever dots its keys hold and whatever else was declared: as it went in if and only if no two of its different keys are the same up to case |
| Secrets.ParametersByName | src/opendal_secret.cpp:27-36 | the five parameters by name and the five prefixes they come out under |
| Secrets.CreatedSecretIsAccepted | src/opendal_secret.cpp:27-36 | a created secret holds no stray entry |
| Writer.OdWriter.Write | opendal/src/writer.rs:121-175 | an empty write does nothing, a finished writer refuses, a failed write aborts |
| Writer.OdWriter.Close | opendal/src/writer.rs:184-209 | only an open writer reaches the backend; a failed close aborts |
| Writer.OdWriter.Abort | opendal/src/writer.rs:217-241 | only an open writer reaches the backend |
| Writer.FileHandle.Write | src/opendal_filesystem.cpp:506-537 | refuses a finished or detached writer, a wrong offset and an overflow without touching anything; otherwise counts exactly what was accepted |
| Writer.FileHandle.Sync | src/opendal_filesystem.cpp:545-557 | publishes once; afterwards, and on a detached handle, does nothing |
| Writer.FileHandle.Close | src/opendal_filesystem.cpp:132-163 | finishes an unfinished writer, by a close if the handle is committable and by an abort otherwise, frees it, and throws only if asked to |
| Writer.OpenForWriting | src/opendal_filesystem.cpp:450-472 | a handle is returned open and committable; if opening fails later, the writer has been aborted |
| Writer.DoKeepsInv | src/opendal_filesystem.cpp:132-163 | every operation under every backend outcome keeps handle flags, Rust state, counter and backend log consistent |
| Writer.RunKeepsInv | src/opendal_filesystem.cpp:506-557 | so does every sequence of operations |
| Writer.BackendSeesWellFormedLog | opendal/src/writer.rs:34-57 | in every run the backend sees at most one close and one abort, nothing after an abort, and after a close or a failed write nothing but the abort its failure draws |
| Writer.PublishedIsAccepted | src/opendal_filesystem.cpp:523-537 | in every run a published object is exactly the accepted bytes, as many as the handle counts, within 64 bits; a failed write publishes nothing; an attached handle is finished exactly if the Rust writer is not open |
| Writer.WrittenWhereAsked | src/opendal_filesystem.cpp:506-537 | a positioned write that did not throw put its bytes at the offset asked for, and no later call moves or removes them |
| Writer.NoSilentLoss | src/opendal_filesystem.cpp:506-557 | if nothing threw and the handle was synced or closed, the object holds all bytes written, in order |
| Writer.DestroyPublishes | src/opendal_filesystem.cpp:124-163 | the destructor of an unfinished handle publishes the accepted bytes exactly if the handle is committable and the close succeeds, and nothing otherwise |
| Writer.AppendAtThrowsFor | src/opendal_filesystem.cpp:506-537 | a positioned write throws exactly if the handle is detached or finished, the offset is not the running one, the counter would leave 64 bits, or the backend fails it |
| Writer.CallsThrowFor | src/opendal_filesystem.cpp:124-163 | every other call throws exactly if the backend fails it or a write meets a closed handle or the end of the counter; the destructor never does |
| Writer.CallsReachBackend | opendal/src/writer.rs:121-241 | the backend calls of every operation, one by one |
| Writer.WriterAccepts | opendal/src/writer.rs:121-241 | the writer accepts an empty write always, and any other call exactly if it is open, the length fits and the backend accepts it; what it refuses leaves it unchanged |
| Writer.StateTellsTheEnd | opendal/src/writer.rs:46-57 | the state of the Rust writer is open, closed, aborted or failed exactly as the backend's log ends |
| Writer.AppendsAreAccepted | src/opendal_filesystem.cpp:539-543 | any number of appends within 64 bits that the backend takes are accepted |
| Writer.WrittenFileIsPublished | src/opendal_filesystem.cpp:506-557 | a file written in any number of pieces to a backend that never fails, then synced or closed, is the pieces in order, and nothing throws |
| Reader.OdReader.Read | opendal/src/reader.rs:90-148 | fills the buffer with the range, up to the end of the object, and leaves the rest of it alone; refuses ranges beyond the slice limit or 64 bits |
| Reader.ReturnedMeans | opendal/src/reader.rs:102-148 | a call returns -1 exactly if it asks for a range beyond the slice limit or 64 bits, or the backend fails; otherwise what there is of the range, less what the backend still owes |
| Reader.ReadHandle.ReadNext | src/opendal_filesystem.cpp:588-611 | never asks beyond the file size; the buffer starts with the bytes returned and the position moves by their number |
| Reader.ReadHandle.ReadAt | src/opendal_filesystem.cpp:560-585 | fills the whole length or throws; a throw leaves the position |
| Reader.RunStaysInRange | src/opendal_filesystem.cpp:560-611 | no position, length or range of any run leaves 64 bits as long as no seek goes beyond the signed range |
| Reader.ReadsThrowOnlyFor | opendal/src/reader.rs:104-127 | the range checks of the FFI never refuse a call of the handle; a positioned read with a complete delivery succeeds exactly within the object |
| Reader.SeekMayWrap | src/opendal_filesystem.cpp:596-603 | the seeks after which a sequential read overflows, exactly |
| Reader.ReadsAreSlices | src/opendal_filesystem.cpp:560-611 | every successful read returned a slice of the object that ends at the new position; a positioned one starts where asked, a sequential one where the last operation left off |
| Reader.SequentialReadsAreConsecutive | src/opendal_filesystem.cpp:588-611 | the slices of any run of sequential reads, failing ones included, together are the object between the first and the last position |
| Reader.CompleteReadsStopAtTheEnd | src/opendal_filesystem.cpp:588-611 | with complete deliveries a run advances by exactly what was asked for and stops exactly at the file size |
| Reader.NothingAfterTheEnd | src/opendal_filesystem.cpp:596-599 | at the end and beyond it, reads return nothing and move nothing, forever |
| Reader.SeekMeans | src/opendal_filesystem.cpp:661-663 | a read behind a seek within the signed range starts where the seek went |
| CopyStream.Stream | opendal/src/table.rs:971-1011 | succeeds exactly if opening, every read and write of a chunk that starts before the end, and the close do, and the source is long enough; the spans then partition the source and its bytes are published; otherwise the writer is aborted and the destination as it was |
| CopyStream.ServerCopy | opendal/src/table.rs:942-970 | succeeds exactly if the source exists, no report fails or overflows and the close commits; a failure leaves the destination as it was |
| CopyStream.CopyOne | opendal/src/table.rs:933-1019 | on either branch the copy is made exactly when nothing it asks for fails, and otherwise nothing has happened |
| CopyStream.ReportedMeans | opendal/src/table.rs:947-963 | the reports of a service are added up; an error among them, or a sum beyond 64 bits, fails the copy |
| CopyStream.MovedMeans | opendal/src/table.rs:942-1011 | a service moves the whole object, a stream as much as was planned; the larger of reported and planned size is returned |
| Copy.PlanCopy | opendal/src/table.rs:1130-1240 | the plan has a row for exactly the matching files, those under the directory as the storage library reads it, or the one file, once each in the order of the listing, with destination and size; hint and version are refused for more than one file |
| Copy.StripBaseInjective | opendal/src/table.rs:916-918 | stripping the base keeps distinct sources distinct |
| Copy.JoinDestMeans | opendal/src/table.rs:920-928 | a destination is spelled as its prefix, exactly one slash and the rest |
| Copy.KeyOfDestination | opendal/src/table.rs:920-928 | it is read as the directory of the prefix and what is put there, whether or not the prefix ends in a slash |
| Copy.LandsThere | opendal/src/table.rs:916-928 | where every file of a copy lands |
| Copy.DirectoryLands | opendal/src/table.rs:1204-1208 | a directory lands file by file under the prefix, whether or not it is written with its slash |
| Copy.GlobLands | opendal/src/table.rs:694-702 | the files of a glob land under the prefix relative to the directory in front of the first wildcard |
| Copy.RelativePathKept | opendal/src/table.rs:916-928 | a file lands at its path relative to the fixed part of the source if and only if that part is the root, or is spelled as the storage library keeps it and a prefix covers whitespace in front of the relative path |
| Copy.SourcesAreUnderBase | opendal/src/table.rs:1130-1240 | the sources of a glob or directory plan lie under the base they are stripped of |
| Copy.TargetsAreDistinct | opendal/src/table.rs:916-928 | no two rows of a plan write to one place, as the storage library reads it, if and only if there is a prefix or no two relative paths are the same behind leading whitespace |
| Copy.TrimmingMergesFiles | opendal/src/table.rs:920-928 | a directory copied to a root, two files of which end in one place without an error |
| Copy.ExecuteConcat | opendal/src/table.rs:1253-1316 | executing a plan in parts is executing it |
| Copy.OneFileArrives | opendal/src/table.rs:1166-1193 | a file copied by itself goes from the object its path names to the one the destination names, as the storage library reads both |
| Copy.LosslessExactly | opendal/src/table.rs:1253-1316 | every row moves what its source held before the copy and every destination still holds it in the end, if and only if no row spoils the source of a later one and rows that write to one place carry the same bytes |
| Copy.ExecuteCopiesOriginals | opendal/src/table.rs:1253-1316 | where no two rows write to one place, every destination ends with what its source held before the copy if and only if no row spoils the source of a later one |
| Copy.FirstRowsOverwriteOnlyTheirs | opendal/src/table.rs:1253-1316 | the same for the first k rows, which overwrite their destinations and nothing else |
| Copy.ChainForgetsTheMiddle | opendal/src/table.rs:1201-1240 | a directory copy into itself whose plan, made from an ascending listing, loses the bytes of a file without an error |
| CopyRun.CopyCursor.Next | opendal/src/table.rs:1253-1316 | executes the next row of the plan; an error exactly when the copy fails or cannot be reported, and then the store tells which |
| CopyRun.CopyScan.Scan | src/opendal_table_functions.cpp:434-464 | nothing is copied before the first callback; it fails exactly when a row that would fill its vector fails, and the first such row decides what has been committed and not returned |
| CopyRun.CopyScan.Drain | src/opendal_table_functions.cpp:444-463 | the loop executes as many rows as fit the vector, notices the end, and stops at the first row that fails |
| CopyRun.RunScan | src/opendal_table_functions.cpp:434-464 | over any number of callbacks the objects copied are the rows returned, chunk by chunk, up to the first row that fails; chunks behind the end are empty |
| CopyRun.CopyTree | opendal/src/table.rs:1027-1316 | a glob or directory copy scanned to its end: refused options and a failed listing copy nothing; otherwise it fails exactly when a row fails; if none does, nothing but the copies has changed, each in the directory of the prefix, files that land apart have all arrived whole if and only if the plan is harmless, and in general everything was moved and is in place if and only if the plan is lossless |
| Du.Rollup | opendal/src/table.rs:795-830 | one row per parent directory in ascending order, with the count and bytes of its files; fails exactly when a group's count or bytes exceed 64 bits or a directory has a NUL byte |
| Du.ParentMeans | opendal/src/table.rs:704-708 | the directory of a file is its path up to the last slash, empty if there is none |
| Du.RowMeans | opendal/src/table.rs:795-815 | a directory's row counts each of its files once and adds its size |
| Du.RowsMean | opendal/src/table.rs:795-830 | there is a row for exactly the directories that hold a file |
| Du.OutcomeMeans | opendal/src/table.rs:795-830 | the rollup fails exactly if the count or size of some row exceeds 64 bits or its name has a NUL byte |
| Du.DuOpen | opendal/src/table.rs:717-837 | the outcome is that of exactly the matching files, those under the directory, or the one file: a function of store and target, whatever the order of the listing and whatever directories it contains |
| Du.KeptDescribes | opendal/src/table.rs:747-766 | filtering the recursive listing of the static directory keeps each matching file once |
| Du.DescribedOutcome | opendal/src/table.rs:795-830 | rows and failure depend on the set of files only, not on the directories listed between them |
| Du.Conservation | opendal/src/table.rs:795-830 | counts and bytes over the rows add up to those over all files |
| Du.RowsAscend | opendal/src/table.rs:795-830 | directories are strictly ascending |
| Du.OrderDoesNotMatter | opendal/src/table.rs:795-830 | rows and failure are the same for every permutation of the listing |

## Left out

- Storage services, their retries, timeouts, caching and TLS: only the contracts above are used. The storage library's reading of a path, trimming of whitespace and dropping of empty segments, is modelled for listed directories and for the sources and destinations of copies; stores hold paths that it can name, without whitespace at their ends.
- FFI plumbing: null checks, panics, string ownership, borrowed row pointers. Strings are byte sequences; cutting a key or value at a NUL byte on its way through a C string is not modelled.
- Negative lengths and null buffers of writes: the model hands over the bytes themselves.
- DuckDB: registration, binding, secret lookup and scope, metadata columns, logging. Keys of secret entries are compared without ASCII case, as the host's map does.
- Collision freedom of the 64-bit cache namespace: false in general, only its determinism is used.
- `ByteSize` and `HumanDuration`, validation inside the four sections, capability checks, `if_match` and `if_not_exists` conditions, stat and exists wrappers, `ListFiles`, `MoveFile`, scheme overrides: each is settled by one branch or one loop.
- The paging of `opendal_du`: the same loop as for listings, over a list of rows in memory.
- Entries whose mode is neither file nor directory: the C++ search takes them for files (`is_dir`), rollup and copy skip them (`is_file`); the model has the two modes only. Versions, deleted entries and `start_after` change what a lister returns, not what is done with it.
- OperatorCache.AnswerWasBuiltForRequest: a request with a value that holds the frame of its own scheme may or may not share its key; no exact condition is given for it. Handles are never reused after being freed.
- CacheKey.IdentityInjective: one direction, with a condition on both requests; the exact condition on one request is `KeyDeterminesRequest`.
- CopyRun.CopyTree: the storage of both operators changes only by the copies, and the listing shows the store the copy begins with.
- Du.DuOpen: a listing repeats no path and keeps to its directory, as do those of a copy; the search and the cursor do without that.
- ListScan.ListUrl: `start_after`, versions and deleted entries are left to the lister; of a listing that is no glob only order, completeness and errors are stated, not which files it shows.
- Reader.OdReader.Read: after a failure the requested part of the buffer is unspecified.
