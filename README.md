# gh-find in Dafny

A verified model of the search core of **gh-find**. gh-find is a command-line tool that finds files across one or many GitHub repositories by glob pattern. It works only through GitHub's REST and GraphQL APIs and never clones a repository. The model covers these parts:

- **Repository resolution** (`Orchestration`, `Client`). Each repository spec (`owner` or `owner/repo`) is parsed. The repository is fetched, or else the owner's repositories are listed page by page. The listing is filtered by the chosen repository kinds (sources, forks, archives, mirrors). Repositories are deduplicated by full name.
- **Per-repository search** (`Finder`). Each repository's tree is fetched, with a warning when the tree is truncated. The tree goes through the filter chain: type, then extension, then size, then the glob pattern, then the exclude patterns.
- **The run's outcome** (`Orchestration.Find`). A malformed spec (internal/finder/finder.go:45-48) or a failed owner listing (internal/finder/finder.go:60-63) aborts the whole run. Only a failed `GetRepo` (internal/finder/finder.go:53-56) is a warning that skips its spec. The run fails only when every search failed.
- **GraphQL commit dates** (`GraphQL`). Files are batched 100 per query, and each path gets the alias `file<j>`. The query text is assembled, replies are merged, and one failed batch fails the whole call.
- **Command-line parsing** (`Cli`, `Duration`). The model covers byte sizes (`10k`, `1 MiB`) and durations (`2w`, `30 d`). It covers the positional arguments, the flag values' `Set` methods with their error cases, and the check that the minimum size is not above the maximum.
- **Go standard-library pieces** the core relies on (`GoStrings`). These are `strings.TrimSpace`, `strings.Split`, `strings.ToLower` (ASCII), `strconv.ParseInt` (base 10, `int64` range), `strconv.Itoa`, `path.Base` and `filepath.Ext`.

The module files are these:

| File | Contents |
|---|---|
| `results.dfy` | The `Result` and `Option` types, which model Go's `(T, error)`. |
| `seqs.dfy` | `Filter`, subsequences and the fallible filter `TryFilter`. |
| `gostrings.dfy` | The standard-library pieces. |
| `types.dfy` | The record types. |
| `client.dfy` | The REST client. |
| `graphql.dfy` | The GraphQL client. |
| `finder.dfy` | The filters and `searchRepo`. |
| `orchestration.dfy` | `Find`. |
| `duration.dfy` | The duration parser. |
| `cli.dfy` | The command line. |

The REST side of the network is a `Transport` value. It holds the owner-type lookup, the pages of a listing, the repository fetch and the tree fetch. The GraphQL query is a separate function parameter of `GraphQL.GetFileCommitDates`, which maps a query text to a reply or an error. The glob matcher is a function parameter (`Matcher`), and so are the JSON and `%q` string escapes. Every filtering, paging, scanning and accumulating loop of the source is a `method` proved equal to a specification function, and the properties are proved about those functions. Three simple mapping loops are recursive functions instead:
- the lowering of the extension list (internal/finder/finder.go:139-143) is `Finder.LowerAll`;
- the lowering of the exclude list (internal/finder/finder.go:215-219) is also `Finder.LowerAll`;
- the loop that builds the output matches (internal/finder/finder.go:278-280) is `Orchestration.MatchesOf`.

## Model

| member | source | states |
|---|---|---|
| Types.ParseFileType | internal/github/types.go:54-72 | Each of the four special git modes (tree, symlink, submodule, executable) gives its own kind, and only that mode gives it. Every other mode string, unknown ones included, is a regular file. |
| Client.Selected | internal/github/client.go:168-181 | The list of chosen repository kinds holds exactly the kinds whose flag is set, one entry per set flag. |
| Client.MapRepoTypes | internal/github/client.go:155-195 | The API's `type` parameter is "all" unless exactly one kind is chosen. Sources alone map to "sources" for an organisation and "owner" for a user. Archives or mirrors always need "all". The value is always one the API accepts. |
| Client.KeepRepoMeaning | internal/github/client.go:119-141 | A listed repository is kept iff it is non-empty, it is archived only when archives were asked for, and its category (fork before mirror before source) was asked for. |
| Client.NoRepoTypesKeepNothing | internal/github/client.go:119-141 | With no kind chosen, the client-side filter keeps no repository. |
| Client.ArchivedIsOrthogonal | internal/github/client.go:125-137 | The archived flag is judged apart from the category. An archived fork is kept for forks+archives. An archived source is dropped when only sources are asked for. A non-fork never passes forks+archives. |
| Client.ShortPageIsLast | internal/github/client.go:104-113 | A page shorter than 100 ends the listing: nothing after it is fetched. |
| Client.FullPagesConcatenate | internal/github/client.go:94-115 | After m full pages, the listing is those pages' repositories in page order, followed by whatever the rest of the listing yields. |
| Client.ListingEndsAtShortPage | internal/github/client.go:94-115 | After full pages, a short page m ends the listing with every page's repositories in order. An error on page m makes the whole listing that error. |
| Client.FetchPages | internal/github/client.go:94-115 | The page loop computes exactly the listing defined page by page from page 1. |
| Client.KeepSelected | internal/github/client.go:117-143 | The filtering loop keeps exactly the listed repositories that pass the kind filter, in order. Each of them is non-empty and of a chosen kind. |
| Client.ListRepos | internal/github/client.go:73-144 | Owner-type failure, listing failure and filtering compose as the source does. Every repository returned is non-empty and of a chosen kind. |
| Client.ListReposIsSubsequence | internal/github/client.go:73-144 | When the owner type and the listing succeed, the result is a subsequence of the listing. A repository is in it iff it was listed and passes the kind filter. |
| Client.GetRepo | internal/github/client.go:198-211 | Success iff the fetch succeeds and the repository is non-empty, in which case the fetched repository is returned. A fetch error is wrapped with owner/repo. An empty repository is its own error. |
| Client.GetTree | internal/github/client.go:214-227 | Success iff the tree fetch succeeds, returning its response. A failure is labelled with the repository's full name. |
| GraphQL.AliasInjective | internal/github/graphql.go:51 | Distinct batch positions get distinct `file<j>` aliases, so a reply key names one path. |
| GraphQL.BatchesFromCover | internal/github/graphql.go:26-28 | The batches concatenate back to the paths. There are ceil(n/100) of them, and the k-th is the slice starting at 100·k. |
| GraphQL.HundredFiftyPathsTwoBatches | internal/github/graphql.go:26-28 | 150 paths make exactly two queries: the first 100 paths and the remaining 50. |
| GraphQL.ClauseAt | internal/github/graphql.go:92-95 | In the assembled query, the j-th path's `history` clause (alias `file<j>`, escaped path) follows the clauses of the paths before it. |
| GraphQL.BuildFileHistoryQuery | internal/github/graphql.go:86-100 | The buffer-writing loop produces the header, one clause per path in order, then the closing braces. |
| GraphQL.SinglePathQuery | internal/github/graphql.go:86-100 | The complete query text for one path, written out. |
| GraphQL.MergeMembership | internal/github/graphql.go:50-61 | A commit record is merged iff some batch position has its alias in the reply, with a non-empty node list, carrying that path and that commit date. |
| GraphQL.MergeIsSubsequence | internal/github/graphql.go:50-61 | The merged records' paths are a subsequence of the batch: they follow batch order and use each batch position at most once. |
| GraphQL.MergeReply | internal/github/graphql.go:50-61 | The merge loop computes exactly the merge defined position by position. |
| GraphQL.GetFileCommitDates | internal/github/graphql.go:18-65 | The batch loop computes the batch-by-batch result. On success, the dated paths are a subsequence of the input and no more numerous. |
| GraphQL.DatesAreSubsequence | internal/github/graphql.go:26-62 | The dated paths come in input order and only from the input. |
| GraphQL.DatesNoDuplicates | internal/github/graphql.go:26-62 | Distinct input paths give records with distinct paths. |
| GraphQL.DatesMembership | internal/github/graphql.go:26-62 | A successful call reports a record iff the merge of some batch's reply holds it. |
| GraphQL.DatesReported | internal/github/graphql.go:26-62 | A successful call reports a path with a date iff, in the reply to that path's batch, the path's alias holds a non-empty history whose first node carries that date. |
| GraphQL.DatesAllOrNothing | internal/github/graphql.go:44-47 | The call fails iff some batch's query fails. No partial result is returned. |
| GraphQL.NoPathsNoQuery | internal/github/graphql.go:19-21 | No paths means no batch and an empty, successful result. |
| Finder.FilterByType | internal/finder/finder.go:118-131 | With no type chosen, every entry passes. Otherwise an entry passes iff its mode's kind was chosen. The result keeps tree order. |
| Finder.FilterByExtension | internal/finder/finder.go:133-160 | With no extension chosen, every entry passes. Otherwise an entry passes iff the extension of its path (lower-cased when ignoring case) equals one chosen extension (lower-cased likewise). The result keeps tree order. |
| Finder.NoExtensionNeverSelected | internal/finder/finder.go:153-157 | A path whose final element has no dot is never selected by a non-empty extension list. |
| Finder.FilterBySize | internal/finder/finder.go:162-179 | A bound that is zero or negative is inactive. An entry passes iff it meets the active bounds. The result keeps tree order. |
| Finder.SizeBounds | internal/finder/finder.go:169-174 | Equal positive bounds keep exactly the entries of that size. A minimum above the maximum keeps nothing. |
| Finder.FilterByPattern | internal/finder/finder.go:181-207 | The result fails iff matching some entry fails, and the first failure is returned. Otherwise an entry is kept iff the pattern (lower-cased when ignoring case) matches its base name or full path. The result keeps tree order. |
| Finder.ExcludedMeaning | internal/finder/finder.go:232-243 | When no exclude pattern errs, an entry is excluded iff some pattern matches it. |
| Finder.AnyExcludeMatches | internal/finder/finder.go:232-243 | The inner loop stops at the first matching pattern and propagates the first matcher error, as the recursive definition does. |
| Finder.ExcludeEntry | internal/finder/finder.go:224-243 | Each entry's exclusion verdict uses the matched name (base or full path, lower-cased when ignoring case) against the normalised patterns. |
| Finder.FilterByExcludes | internal/finder/finder.go:209-251 | With no exclude patterns, the entries pass unchanged. Otherwise the result is the fallible filter by the exclusion verdict, and it keeps tree order. |
| Finder.ExcludeFacts | internal/finder/finder.go:209-251 | On success, an entry survives iff it was present and no exclude pattern matches it. |
| Finder.InfallibleStages | internal/finder/finder.go:264-266 | The type, extension and size stages applied in turn equal one filter by the conjunction of their tests. |
| Finder.PatternStage | internal/finder/finder.go:268-271 | With a matcher that never errs, the pattern stage is a plain filter by "the pattern matches". |
| Finder.ExcludeStage | internal/finder/finder.go:273-276 | With a matcher that never errs, the exclude stage is a plain filter by "no exclude pattern matches". |
| Finder.PipelineIsOneFilter | internal/finder/finder.go:263-276 | With a matcher that never errs, the five-stage chain equals filtering the tree once by "wanted" (all five criteria). |
| Finder.PipelineIsSubsequence | internal/finder/finder.go:263-276 | Whatever the chain returns is a subsequence of the tree. |
| Finder.RunFilters | internal/finder/finder.go:263-276 | The chain of filter calls computes the pipeline and stops at the first failing stage. |
| Finder.SearchRepo | internal/finder/finder.go:253-283 | Warns exactly when the tree is truncated. Returns the tree error or the pipeline's result, which is a subsequence of the fetched tree. |
| Finder.SearchFindsWanted | internal/finder/finder.go:253-283 | For a fetched tree and a matcher that never errs, the search returns exactly the wanted entries, in tree order. |
| Finder.ParseRepoSpecMeaning | internal/finder/finder.go:286-296 | A spec is accepted iff it holds at most one '/'. The parts hold no '/'. A spec without '/' names an owner, and one with a '/' is owner + "/" + repo. An error carries the spec. |
| Finder.ParseRepoSpecRoundTrip | internal/finder/finder.go:286-296 | Writing an owner, or owner/repo, and parsing it back gives the parts back. |
| Finder.ParseRepoSpecRefusesThreeParts | internal/finder/finder.go:293-295 | A spec with two slashes is refused. |
| Orchestration.ResolveSpecMeaning | internal/finder/finder.go:44-67 | One spec aborts iff it is malformed or its owner listing fails. A named repository gives either the repository or one warning. An owner gives its filtered listing. |
| Orchestration.ResolveAllStops | internal/finder/finder.go:44-67 | Once a spec has aborted, the specs after it change nothing. |
| Orchestration.ResolveAllSucceeds | internal/finder/finder.go:44-67 | Resolution succeeds iff every spec resolves. |
| Orchestration.ResolvedReposHaveASpec | internal/finder/finder.go:44-67 | Every resolved repository came from the resolution of some spec. |
| Orchestration.ResolveSpecs | internal/finder/finder.go:44-67 | The spec loop computes the in-order resolution and stops at the first abort. |
| Orchestration.DedupRepos | internal/finder/finder.go:69-79 | The seen-set loop computes the first-occurrence deduplication. |
| Orchestration.DedupFacts | internal/finder/finder.go:69-79 | After deduplication, full names are distinct and the same set of names is kept. The order is that of the input, and each name's first occurrence is the one kept. |
| Orchestration.MatchesOf | internal/finder/finder.go:278-280 | One match per found entry, in order, labelled with the repository. |
| Orchestration.SearchAllErrors | internal/finder/finder.go:91-113 | The error count is at most the number of repositories, and equals it iff every search failed. |
| Orchestration.SearchAllMatches | internal/finder/finder.go:91-107 | Every match comes from a searched repository whose search succeeded, and names an entry that search returned. |
| Orchestration.SearchRepos | internal/finder/finder.go:91-107 | The per-repository loop computes the tally of warnings, matches and errors. |
| Orchestration.Find | internal/finder/finder.go:34-116 | The body computes the outcome: abort on a resolution failure, a diagnostic when no repository is left, then searches and the all-failed rule. |
| Orchestration.FindFailsOnlyWhenAllFail | internal/finder/finder.go:81-115 | After resolution, `Find` fails iff there is at least one repository and every search failed. |
| Orchestration.InvalidSpecAborts | internal/finder/finder.go:45-48 | A malformed spec anywhere in the list aborts the run with no match. |
| Orchestration.FindMatchesAreWanted | internal/finder/finder.go:34-116 | With a matcher that never errs, every reported match is an entry of a resolved repository's tree that meets all five criteria. The repositories searched have distinct names. |
| Duration.UnitsWellFormed | internal/timeparse/duration.go:12-23 | Every unit (s, m, h, d, w and their long forms) is a positive whole number of seconds, and unit names are non-empty and have no surrounding space. |
| GoStrings.LeadingDigits | internal/timeparse/duration.go:35-38 | The scan stops at the first non-digit. Everything before that is a digit. |
| Duration.ParseDuration | internal/timeparse/duration.go:28-70 | The method computes the duration of the trimmed text with the source's unit table. |
| Duration.ParseDurationIn | internal/timeparse/duration.go:28-70 | Same for any well-formed unit table: the errors are empty input, missing number, missing unit, bad number, unknown unit and overflow. |
| Duration.ScaleCount | internal/timeparse/duration.go:47-69 | Parsing the number, looking up the unit and guarding the overflow give the defined result. |
| Duration.DurationInRange | internal/timeparse/duration.go:64-69 | An accepted duration is non-negative, at most the int64 maximum, and a whole number of seconds. |
| Duration.DurationRoundTrip | internal/timeparse/duration.go:28-70 | A number written in decimal, optional space and a unit parse back to the number times the unit, or to the overflow error when that exceeds int64. |
| Duration.DurationIgnoresSurroundingSpace | internal/timeparse/duration.go:29 | Leading and trailing white space does not change the result. |
| Duration.NegativeHasNoNumber | internal/timeparse/duration.go:40-55 | A leading minus sign is reported as a missing number, so the later negativity check cannot fire. |
| Cli.NumberEnd | cmd/root.go:312-316 | The backward scan stops after the last digit: nothing after it is a digit. |
| Cli.SizeMultiplier | cmd/root.go:329-346 | Recognised units give 1 or a power of 1024 up to PiB. |
| Cli.SizeUnitTable | cmd/root.go:330-346 | The unit table written out: "" and "b" give 1, and k/kb/kib, m/mb/mib, g/gb/gib, t/tb/tib and p/pb/pib give 1024 to the first to fifth power. Every other unit is refused. |
| Cli.ParseByteSize | cmd/root.go:306-353 | The method computes the defined byte size: the errors are empty input, bad number, negative size, unknown unit and overflow. |
| Cli.ScaleSize | cmd/root.go:318-352 | Parsing the number, looking up the unit and guarding the overflow give the defined result. |
| Cli.ByteSizeRange | cmd/root.go:348-352 | An accepted size lies between 0 and the int64 maximum. |
| Cli.PlainSizeRoundTrip | cmd/root.go:306-353 | A decimal number without unit parses back to itself. |
| Cli.SizeRoundTrip | cmd/root.go:306-353 | A decimal number, optional space and a unit parse to the number times the unit's multiplier, or to the overflow error. |
| Cli.FractionRefused | cmd/root.go:312-322 | A decimal fraction such as "1.5k" is refused as an invalid number. The reason is a syntax error, or out of range when the whole part alone exceeds 2^64 - 1. |
| Cli.NegativeSizeRefused | cmd/root.go:324-326 | A negative number with a unit is refused as negative. |
| Cli.ParseArgs | cmd/root.go:356-376 | Fails iff there are no arguments. A single argument is a repository with pattern "*". Otherwise the first argument is the pattern ("" meaning "*") and the rest are repositories. |
| Cli.ArgsRoundTrip | cmd/root.go:356-376 | A pattern followed by specs parses back to them, and a lone spec gets pattern "*". |
| Cli.EmptyPatternIsStar | cmd/root.go:369-371 | An empty pattern before the specs is searched as "*", and the specs are kept. |
| Cli.ModeNamed | cmd/root.go:38-46 | A recognised name names its mode. Only "auto", "always" and "never" are recognised. |
| Cli.ModeNamesRoundTrip | cmd/root.go:28-36 | Each mode's name is recognised as that mode. |
| Cli.OutputModeFlag.constructor | cmd/root.go:204-205 | Colour and hyperlink modes start as auto. |
| Cli.OutputModeFlag.String | cmd/root.go:34-36 | The printed value names the current mode. |
| Cli.OutputModeFlag.Set | cmd/root.go:38-46 | A recognised name sets the mode. Anything else is an error that leaves the mode unchanged. |
| Cli.FileTypeNamesRoundTrip | cmd/root.go:65-81 | Each file type's flag name is recognised as that type. |
| Cli.FileTypesFlag.Set | cmd/root.go:65-81 | A recognised name is appended to the types. Anything else is an error that leaves them unchanged. |
| Cli.WithDot | cmd/root.go:96-103 | The stored extension starts with a dot. A dotted value is kept, and otherwise a dot is prepended. |
| Cli.WithDotIdempotent | cmd/root.go:96-103 | Normalising twice is normalising once, and "go" and ".go" mean the same. |
| Cli.ExtensionsFlag.Set | cmd/root.go:96-103 | Appends the normalised extension and keeps every stored extension dot-prefixed. |
| Cli.ApplyOnlyAdds | cmd/root.go:119-148 | Applying a repository-type list never clears a kind already selected. |
| Cli.ApplyNamed | cmd/root.go:119-148 | A list of valid names, after trimming, selects exactly the named kinds on top of the existing ones. |
| Cli.ApplyAllWins | cmd/root.go:127-131 | "all" after valid names selects every kind, whatever follows it. |
| Cli.ApplyFailsAt | cmd/root.go:141-144 | The first invalid name, after valid ones, is the one reported. |
| Cli.RepoTypesFlag.constructor | cmd/root.go:206 | The default selection is sources only. |
| Cli.RepoTypesFlag.Set | cmd/root.go:119-148 | Splitting on commas, trimming each part and applying them in order gives the new selection and the error. |
| Cli.JobsCount.constructor | cmd/root.go:217 | The default concurrency is 10. |
| Cli.JobsCount.String | cmd/root.go:168-170 | The printed value parses back to the count. |
| Cli.JobsCount.Set | cmd/root.go:156-166 | Unparsable and out-of-range (outside 1..100) values are errors that leave the count unchanged. Valid values are stored. The count stays in range. |
| Cli.ByteSizeFlag.String | cmd/root.go:190-195 | An unset size prints as "". A set size prints as text that parses back to it. |
| Cli.ByteSizeFlag.Set | cmd/root.go:178-188 | Unparsable and non-positive sizes are errors that leave the value unchanged. A positive size is stored. |
| Cli.CheckSizeRange | cmd/root.go:410-412 | Both bounds set with the minimum above the maximum is refused, and then no entry could pass the size filter. Any accepted pair lets some size pass. |
| GoStrings.SplitFacts | internal/finder/finder.go:287 | Splitting gives one part more than the separator count. No part holds the separator, and joining the parts gives the input back. |
| GoStrings.SplitJoin | internal/finder/finder.go:287 | Splitting a join of separator-free parts gives the parts back. |
| GoStrings.TrimSpaceSurrounded | internal/timeparse/duration.go:29 | White space around a string is removed by trimming, whatever lies inside. |
| GoStrings.ExtMeaning | internal/finder/finder.go:153 | A non-empty extension is the final element's suffix from its last dot. It is empty iff the final element has no dot. |
| GoStrings.BaseOfJoined | internal/finder/finder.go:190 | The base of dir/name, and of a bare name, is the name. |
| GoStrings.ParseIntRangeFirst | cmd/root.go:319-322 | A run of digits worth more than 2^64 - 1 is out of range whatever follows it, as `strconv.ParseInt` reads left to right. |
| GoStrings.ParseIntSyntaxAt | cmd/root.go:319-322 | A non-digit after a run of digits worth at most 2^64 - 1 is a syntax error. |
| GoStrings.ProductGuard | cmd/root.go:348-352 | The division guard `num > MaxInt64 / unit` refuses exactly the products that overflow int64. |
| GoStrings.ItoaInjective | internal/github/graphql.go:51 | Different numbers print differently. |

## Left out

- Concurrency is not modelled. The source runs searches under a semaphore with goroutines, a wait group and an atomic error counter. The model runs the searches one after another in repository order. Interleaving of output and context cancellation of the semaphore wait are not captured.
- `NewClient` (internal/github/client.go:38-55) is not modelled. HTTP caching, authentication and host selection are only reached through the `Transport` value.
- `GetOwnerType` (internal/github/client.go:57-69) is the transport's owner-type lookup. Any type other than "Organization" uses the users endpoint.
- Glob matching (`doublestar.Match`) is the `Matcher` parameter. The model proves facts for every matcher, and some facts for matchers that never return an error.
- `json.Marshal` and `%q` quoting are function parameters of the query builder.
- GoStrings.ToLower: lower-cases ASCII letters only. Go's `strings.ToLower` also folds non-ASCII letters (the Kelvin sign becomes "k"), so with case-insensitive matching, non-ASCII names may compare differently. The same affects size units in Cli.ParseByteSize: Go reads "1" followed by the Kelvin sign as 1024 bytes, while the model reports an unknown unit.
- Strings are sequences of code points, not UTF-8 bytes. The digit scans of `parseByteSize` and `ParseDuration` test ASCII digits only, so they see the same positions either way.
- `strconv.ParseInt`'s error text is a two-case reason (syntax or range), not a message. The reason is the first one met when reading left to right, as in Go.
- Error messages throughout are datatype values, not formatted text.
- A listing has finitely many pages. A server that always returns full pages would keep the source looping forever, and the model does not capture this.
- The commit date is an opaque type parameter. `time.go` and the date filter that uses it are not part of this model.
- `output.go` (printing, colours, hyperlinks), terminal detection and cobra wiring are not modelled. This includes `init`, `Execute`, the `Type()` methods and `run` apart from the size check.
- The `String` methods of `fileTypesFlag`, `extensionsFlag` and `repoTypesFlag` are not modelled. They only join the stored values for help text.
- `ParseDuration`'s negative-number check (internal/timeparse/duration.go:53-55) cannot be reached, because a leading '-' is already reported as a missing number. The specification function `DurationOfTrimmed` omits the branch. The method `ScaleCount` keeps it as a branch whose only statement is `assert false`, which proves it is never taken. `Duration.NegativeHasNoNumber` states the reason.
- `Repository` (internal/github/types.go:4-12) lacks the `Size` and `Ref` fields that client.go, finder.go and graphql.go read. The model adds `size` and `ref` as those files use them.
