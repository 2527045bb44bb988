# gcr-cleaner: retention and deletion logic in Dafny

gcr-cleaner prunes old Docker image versions from a Google Artifact Registry
repository. A single script, `main.ts`, does four things:

1. It lists the repository's images.
2. It normalises each raw record into an *entry*: the image path, the url
   `path@digest`, the upload time in milliseconds, the tags, and the flags
   `isLatest`, `hasVersion` and `isDev`.
3. It sorts the entries newest first. A single pass then builds the
   *keep-set*. An entry is kept if it is tagged `latest`, if it was uploaded
   strictly after `now - 1h`, or if either of two per-path counters
   (`semverCountByPath`, `devCountByPath`) is still below 2.
4. It sends a forced delete for every entry that is not kept. The resource
   name comes from `getVersionNameFromUrl`. The script counts tries and
   successes and exits with 1 exactly when at least one delete was tried
   and none succeeded.

The model keeps the logic and drops the I/O:

- The listing is a `seq<Option<ImageRecord>>`.
- The clock is an integer `now`, in milliseconds.
- `semver.valid` is a function parameter.
- The answers of the remote delete call are a `seq<bool>`: `outcomes[j]`
  tells whether the `j`-th delete request succeeds.
- The project, region and repository names are a `Config` value.

Modules follow the pipeline:

| module | file | contents |
|---|---|---|
| `Wrappers` | wrappers.dfy | `Option` for absent record fields |
| `Strings` | strings.dfy | JavaScript `split` with a one-character separator, `join`, `slice`, and their round trips |
| `Entries` | entries.dfy | raw records, entries, normalisation |
| `Ordering` | ordering.dfy | stable newest-first sort |
| `Retention` | retention.dfy | the keep-set pass and its characterisation |
| `VersionNames` | version_names.dfy | `getVersionNameFromUrl` |
| `Cleanup` | cleanup.dfy | the deletion loop, the exit policy, and the whole run |

Points where the model follows the code rather than the broader design
description of the tool:

- **No rule engine.** There is no configurable rule list. There are no
  `semver`, `prefixTimestamp` or `recent{ms}` rules and no dry-run mode. The
  code has a fixed one-hour window, the `latest` tag, and the two counters.
- **Strict one-hour window.** "Recent" means `uploadedAt > now - 3600000`
  (strictly greater), not `>=`.
- **The counters ignore the tags.** Both counters ignore `hasVersion` and
  `isDev`. They always agree, so together they keep the two newest entries
  of every path whatever their tags (`Retention.CountersBounded`,
  `Retention.OnlyPathTimeAndLatestMatter`).
- **Keep-set by identity.** The keep-set holds entry objects, compared by
  identity, not by url. Both passes walk the same sorted array, so the model
  identifies an entry by its position in that array. Two records with the
  same uri are therefore two entries.
- **Digest is the text between the first two '@'.** `url.split('@')` is
  destructured into `[path, digest]`, so the digest stops at a second '@'.
  A url without '@' yields the word `undefined` in the resource name.
- **Empty uri is dropped.** `!tag.uri` also rejects the empty string. The
  empty-path check would reject it anyway.

## Model

| member | source | states |
|---|---|---|
| Strings.JoinSplit | main.ts:133-135 | joining the pieces of `s.split(c)` with `c` gives back `s` |
| Strings.SplitJoin | main.ts:133-135 | splitting a join of separator-free pieces gives back the pieces |
| Strings.SplitPiecesSeparatorFree | main.ts:133-134 | no piece of a split contains the separator |
| Strings.JoinDropSplit | main.ts:134-135 | `s.split(c).slice(n).join(r)` is the text after the n-th `c`, with every later `c` replaced by `r` |
| Entries.ToEntry | main.ts:35-59 | a record yields an entry iff it is present and has a uri, an upload time and a tag list, and its uri does not start with '@'; the entry's url is the uri, its path is the '@'-free prefix before the first '@', its time is seconds*1000, its tags are the record's tags, and `isLatest`/`isDev`/`hasVersion` hold iff some tag is `latest`, starts with `dev-`, or is a valid semver |
| Entries.PathOfShape | main.ts:41-42 | the path has no '@' and is the whole uri or is followed by '@'; it is empty iff the uri is empty or starts with '@' |
| Entries.Normalise | main.ts:35-60 | every entry comes from some record of the listing, every admissible record contributes its entry, and there are no more entries than records |
| Entries.NormaliseAppend | main.ts:35-60 | normalisation works record by record: the entries of `a + b` are those of `a` followed by those of `b`, so listing order is kept |
| Entries.NormaliseSingle | main.ts:36-42 | one record gives exactly its entry when admissible and nothing otherwise |
| Ordering.SortNewestFirst | main.ts:72 | the sorted entries are a permutation of the input with non-increasing upload times |
| Ordering.SortStable | main.ts:72 | for every upload time, the entries sharing it keep their input order (the comparator returns 0 and the sort is stable) |
| Ordering.SortSameEntries | main.ts:72 | the sorted sequence holds exactly the input's entries |
| Retention.KeepLoopInvariant | main.ts:79-120 | after k steps both counters hold, per path, min(2, visited entries of that path), and the kept positions are exactly the visited ones that are latest, recent, or of path rank below 2 |
| Retention.KeepSetCharacterization | main.ts:74-125 | a position is kept iff its entry is tagged latest, or uploaded strictly after now - 1h, or fewer than two earlier entries share its path |
| Retention.LatestAndRecentKept | main.ts:88-99 | every entry tagged latest and every entry uploaded strictly after now - 3600000 ms is kept |
| Retention.CounterRule | main.ts:101-120 | an entry that is neither latest nor recent is kept iff fewer than two earlier entries share its path |
| Retention.CountersBounded | main.ts:101-120 | no counter ever exceeds 2, and the semver and dev counters are always equal |
| Retention.VisitOnlyAdds | main.ts:79-125 | one step of the pass removes nothing and adds at most the visited position |
| Retention.KeepGrows | main.ts:74-125 | the keep-set only grows during the pass |
| Retention.OnlyPathTimeAndLatestMatter | main.ts:79-120 | the pass depends only on each entry's path, upload time and latest flag, not on `hasVersion`, `isDev`, the name, the url or other tags |
| Retention.OccurrencesPerm | main.ts:72 | reordering the entries, as the sort does, leaves every path's number of entries unchanged |
| Retention.SmallPathsAllKept | main.ts:101-120 | when no path has more than two entries, every entry is kept |
| Retention.DroppedHasTwoNewer | main.ts:72-120 | on newest-first entries, a dropped entry has two earlier kept entries of its path uploaded no earlier than it |
| VersionNames.VersionNameFromUrl | main.ts:132-138 | the name is `projects/P/locations/R/repositories/Q/packages/` + the path after its third '/' with each '/' encoded as `%2F` + `/versions/` + the text between the first and second '@' (or `undefined` without '@') |
| VersionNames.PackageOf | main.ts:134-135 | the package segment contains no '/' |
| VersionNames.UrlRoundTrip | main.ts:133 | for a url with exactly one '@', path + '@' + digest is the url |
| VersionNames.PackageOfImagePath | main.ts:134-135 | for `host/project/repository/image@digest` the package is `image` with its slashes encoded |
| Cleanup.AttemptedExactly | main.ts:140-143 | a position is attempted iff it is not kept; attempts are in increasing position order |
| Cleanup.AttemptedCount | main.ts:140-143 | the number of tries is the number of entries minus the number of kept ones |
| Cleanup.AllKeptNothingAttempted | main.ts:140-143 | when every entry is kept, no delete is attempted |
| Cleanup.RequestsNamed | main.ts:146-149 | the k-th delete request is `getVersionNameFromUrl` of the url of the k-th attempted entry |
| Cleanup.DeleteAll | main.ts:140-157 | the loop tries exactly the non-kept entries in order; tries is their number; successes is the number of successful answers among the tries; 0 <= successes <= tries |
| Cleanup.Run | main.ts:35-165 | the exit code is 1 iff some delete was tried and none succeeded, else 0; an empty normalised listing makes no request and no try; otherwise the tries are the non-kept entries of the sorted listing, the requests are their version names, and the successes are the successful answers among the tries |
| Cleanup.SmallListingUntouched | main.ts:140-165 | on an entry sequence where no path has more than two entries, nothing is attempted and the exit code is 0 whatever the success count |
| Cleanup.SortedSmallListingUntouched | main.ts:72-143 | the same holds after the newest-first sort: when no path has more than two entries, nothing in the sorted sequence is attempted |
| Cleanup.ExitPolicy | main.ts:159-165 | if all tries fail (and there is at least one), the exit code is 1; if any try succeeds, it is 0 |

## Left out

- Environment-variable checks, `JSON.parse` of the service-account key, and
  construction of the registry client (main.ts:8-26). They are
  configuration plumbing. The three names used in resource names are the
  `Config` parameter.
- `listDockerImages` and `deleteVersion` (main.ts:28-30, 146-149) are remote
  calls. The listing is an input sequence. The delete answers are the
  `outcomes` input. A thrown error is a `false` answer.
- Cleanup.DeleteAll: returns the attempted positions, and
  `Cleanup.Requests` derives the request names from them afterwards. The
  source computes each name inside the loop. Since the name depends only
  on the entry, the requests sent are the same.
- `semver.valid` (main.ts:47) is a library predicate. It is the
  `isValidSemver` parameter; its result is never used by the keep logic.
- `sleep` and the rate of 30 requests per minute (main.ts:7, 127, 156) are
  wall-clock behaviour with no effect on the outcome.
- Console logging, including the keep reasons, and `process.exit` beyond
  the exit code it returns.
- `Date` limits: uploaded times are unbounded integers. `Number(seconds)`
  losing precision above 2^53 and invalid `Date` values are not modelled.
  The nanoseconds of the upload time are ignored, as in the source.
- Record-key lookups such as `countByPath["constructor"]` reaching
  `Object.prototype` are not modelled. Counter maps are plain maps;
  registry paths are host-qualified and never collide with those names.
- Cleanup.Run: requires at least as many delete answers as listing
  records. This bounds the number of requests, so the answer for each
  request is always defined.
- build.mjs is a bundling step with nothing to verify.
