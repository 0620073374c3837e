# git-searcher, modelled in Dafny

git-searcher lists the repositories on a GitHub Enterprise Server host that contain a
file with a given name, and for each one reports the latest commit on the default branch
that touched that file: author, abbreviated hash, commit date and the repository's web URL.
It does this in two stages. The search stage pages through the REST code-search endpoint and
collects the distinct (repository full name, file path) pairs. The lookup stage sends one
GraphQL query per pair and walks the reply's chain of optional fields down to a commit node.

This project models the three parts of `git-searcher/src/main.rs` that can be stated exactly:

- **URL derivation** (`urls.dfy`, with `TrimTrailing` in `text.dfy`). The GraphQL endpoint,
  the code-search endpoint and a repository's web page are each the host URL with every
  trailing `/` removed, followed by a fixed path or by `/owner/repo`.
- **The search stage** (`search.dfy`, with `pair_set.dfy` and `text.dfy`). `SearchReposWithFile`
  is a method with the source's paging loop, page counter and accumulator. The network is a
  parameter: `replies[k]` is what the request for page `k + 1` yields, either a decoded body or
  a failure. The `BTreeSet<(String, String)>` accumulator is a strictly ascending sequence of
  pairs, ordered the way Rust orders tuples of `String`s. Its iteration order is what the caller
  sees. The inner `for item in items` loop is `InsertPage`, and the final split of every full
  name at its first `/` is `SplitTargets`.
- **The commit lookup** (`commit_lookup.dfy`). The decoded GraphQL reply is a tree of datatypes
  with `Option` fields, named after the fields the code reads. The single-variant target enum is
  the one-constructor datatype `RefTarget`. `FetchLatestCommit` follows the same three steps as
  the code: `RepositoryOf`, then `CommitOf`, then `FirstNode`. It then applies the author
  fallback and the `-` placeholders.

`wrappers.dfy` holds `Option` and `Result`.

Three behaviours of the code are easy to misread; the model follows the code:

- The host URL loses every trailing `/`, not just one, because `trim_end_matches` strips them all.
- The targets come out in ascending order of (full name, path), not in an unspecified order,
  because the set is a `BTreeSet`.
- A full name without `/` does not produce a recoverable error. The `expect` panics, and the
  model reports this as the fatal outcome `InvalidRepoFormat`.

## Model

| member | source | states |
|---|---|---|
| `Text.StrLtIrreflexive` | git-searcher/src/main.rs:82 | no string orders strictly before itself |
| `Text.StrLtTransitive` | git-searcher/src/main.rs:82 | the string order used for the set's keys is transitive |
| `Text.StrLtTotal` | git-searcher/src/main.rs:82 | any two distinct strings are ordered one way or the other |
| `Text.StrLt` | git-searcher/src/main.rs:82 | the order of `String` keys in the set: lexicographic by character; StrLtIrreflexive, StrLtTransitive and StrLtTotal state that it is a strict total order |
| `Text.TrimTrailing` | git-searcher/src/main.rs:69 | the result is a prefix of the host that does not end in `/`, and everything the host has after it is `/` |
| `Text.TrimmedUnique` | git-searcher/src/main.rs:69 | that characterisation determines the trimmed string: two strings that both meet it are equal |
| `Text.TrimIdempotent` | git-searcher/src/main.rs:69 | trimming a trimmed string changes nothing |
| `Text.TrimIgnoresTrailing` | git-searcher/src/main.rs:69 | appending any run of `/` to the host does not change the trimmed result |
| `Text.FindChar` | git-searcher/src/main.rs:126-127 | finds the first `/`: the returned index holds `/`, none comes before it, and `None` means the string has no `/` |
| `Text.SplitOnce` | git-searcher/src/main.rs:126-128 | `None` exactly when there is no `/`; otherwise `owner + "/" + repo` is the full name and owner holds no `/` |
| `Text.SplitOnceJoin` | git-searcher/src/main.rs:125-129 | splitting `owner/repo` gives back owner and repo when owner holds no `/` |
| `Text.JoinInjective` | git-searcher/src/main.rs:125-129 | owner and repo are determined by the joined full name when owner holds no `/` |
| `PairSet.PairLtIrreflexive` | git-searcher/src/main.rs:82 | no (full name, path) key orders before itself |
| `PairSet.PairLtTransitive` | git-searcher/src/main.rs:82 | the tuple order is transitive |
| `PairSet.PairLtTotal` | git-searcher/src/main.rs:82 | any two distinct keys are ordered |
| `PairSet.PairLt` | git-searcher/src/main.rs:82 | the order of `(String, String)` keys: by full name, then by path; PairLtIrreflexive, PairLtTransitive and PairLtTotal state that it is a strict total order |
| `PairSet.SortedDistinct` | git-searcher/src/main.rs:82 | the set's ascending sequence holds no key twice |
| `PairSet.Insert` | git-searcher/src/main.rs:116 | `set.insert` keeps the set ascending and adds exactly the new key, so a key already present changes nothing |
| `PairSet.SortedUnique` | git-searcher/src/main.rs:125 | the set's iteration sequence is determined by its elements: two ascending sequences with the same elements are equal |
| `Urls.HostJoin` | git-searcher/src/main.rs:69 | a derived URL ends with its suffix, and what comes before the suffix is the host with all trailing `/` removed |
| `Urls.GraphqlUrl` | git-searcher/src/main.rs:69 | the GraphQL endpoint ends with `/api/graphql`, and what precedes it is the host with all trailing `/` removed |
| `Urls.LoadConfig` | git-searcher/src/main.rs:69-71 | the configuration keeps the host, token and file name as read, and its GraphQL URL is the trimmed host followed by `/api/graphql` |
| `Urls.SearchUrl` | git-searcher/src/main.rs:85 | the search endpoint ends with `/api/v3/search/code`, and what precedes it is the host with all trailing `/` removed |
| `Urls.RepoUrl` | git-searcher/src/main.rs:264 | a repository page URL ends with `/owner/repo`, and what precedes it is the host with all trailing `/` removed |
| `Urls.NoDoubleSlashAtJoin` | git-searcher/src/main.rs:69 | at the join point there is a single `/`: the character before a suffix that starts with `/` is not `/` |
| `Urls.UrlsIgnoreTrailingSlashes` | git-searcher/src/main.rs:85 | the GraphQL, search and repository URLs are the same whatever number of `/` ends the configured host |
| `Urls.HostJoinIdempotent` | git-searcher/src/main.rs:69 | deriving from an already-trimmed host gives the same URL |
| `Search.FirstEndFrom` | git-searcher/src/main.rs:106-109 | finds the first reply that stops the scan, one that failed or has no items; every earlier reply has at least one item |
| `Search.ItemsOf` | git-searcher/src/main.rs:106 | a missing or non-array `items` reads as no items; FirstEndFrom and SearchReposWithFile state that such a page ends the scan |
| `Search.EndsScan` | git-searcher/src/main.rs:106-109 | a reply ends the scan exactly when it failed or has no items; FirstEndFrom states that every earlier reply has at least one |
| `Search.PageRequest` | git-searcher/src/main.rs:89-96 | the request for a page: search URL, bearer token, `filename:<name>`, `per_page` 100 and the page number; SearchReposWithFile states that page k is requested k-th |
| `Search.KeyOf` | git-searcher/src/main.rs:112-115 | an item yields a pair only when both `repository.full_name` and `path` are present; PairsInExactly states what a page contributes |
| `Search.Collected` | git-searcher/src/main.rs:82-123 | the set gathered from the pages read; CollectedExactly states in both directions which pairs it holds |
| `Search.PairsInExactly` | git-searcher/src/main.rs:111-118 | a page contributes exactly the pairs of its items that have both `repository.full_name` and `path`; other items contribute nothing |
| `Search.CollectedExactly` | git-searcher/src/main.rs:86-123 | the gathered set holds exactly the pairs of the keyed items on the pages read so far, from any page and however often repeated |
| `Search.InsertPage` | git-searcher/src/main.rs:111-118 | the inner item loop keeps the set ascending and adds exactly the page's pairs |
| `Search.SplitTargets` | git-searcher/src/main.rs:125-130 | fails with `InvalidRepoFormat` exactly when some full name has no `/`; otherwise gives one target per pair in the same order, with `owner/repo` equal to the full name and no `/` in the owner |
| `Search.SearchReposWithFile` | git-searcher/src/main.rs:78-133 | requests pages 1, 2, … with the search URL, the token, `filename:<name>` and `per_page` 100, up to the first reply that failed or was empty, so the request count is that reply's index + 1. A failure returns that page's error. Otherwise the result lists every gathered pair once, in ascending order, split at the first `/`, or fails if some full name has no `/` |
| `Search.ListedTargetsDistinct` | git-searcher/src/main.rs:82-130 | no two returned targets are equal, neither as (owner, repo, path) nor as (full name, path) |
| `Search.ListingDetermined` | git-searcher/src/main.rs:125-130 | the returned list is determined by the gathered set alone |
| `CommitLookup.NotFoundIffLinkMissing` | git-searcher/src/main.rs:211-248 | the lookup gives "not found" exactly when `data`, repository, defaultBranchRef, target, history or edges is absent, the edge list is empty, the first edge is null, or its node is null, with no other outcome |
| `CommitLookup.LatestNode` | git-searcher/src/main.rs:211-248 | the node reached through data, repository, defaultBranchRef, target, history, edges, first edge and node; NotFoundIffLinkMissing and FoundIsFirstEdge state when it exists and which one it is |
| `CommitLookup.FetchLatestCommit` | git-searcher/src/main.rs:175-267 | `fetch_latest_commit_for_path` on the decoded reply; NotFoundIffLinkMissing, AuthorPrecedence, FieldsOrPlaceholders and ReportedNameRoundTrip state its result |
| `CommitLookup.FoundIsFirstEdge` | git-searcher/src/main.rs:237-243 | a found commit comes from a response with every link present, and it is the node of the first edge |
| `CommitLookup.OnlyFirstEdgeMatters` | git-searcher/src/main.rs:241 | edges after the first never affect the result, and a complete chain is always found |
| `CommitLookup.AuthorPrecedence` | git-searcher/src/main.rs:252-258 | the author is `author.user.login` if present, else `author.name` if present, else `unknown`, for every combination of present and absent fields |
| `CommitLookup.AuthorLogin` | git-searcher/src/main.rs:252-258 | the reported author; AuthorPrecedence states the login, name, `unknown` precedence |
| `CommitLookup.FieldsOrPlaceholders` | git-searcher/src/main.rs:260-261 | sha and date are the node's values when present and `-` when absent; sha, date or author is empty only if the source field itself is an empty string |
| `CommitLookup.OrPlaceholder` | git-searcher/src/main.rs:260-261 | a field's value, or `-` when absent; FieldsOrPlaceholders states this for sha and date |
| `CommitLookup.ReportedNameRoundTrip` | git-searcher/src/main.rs:263-264 | for any target the search lists, a found commit reports as `repo_full` a full name the search gathered together with that target's path; it splits back into the target's owner and repo; and the URL is the trimmed host, `/`, and that name |

## Left out

- HTTP and JSON are left out. The model does not include the `reqwest` calls, bearer authentication, `error_for_status` or JSON decoding (main.rs:89-104, 197-208). A search page is an abstract `Reply`, either a decoded body or `Failed`. In a search body, read through untyped JSON accessors (main.rs:106, 113-114), a field that is missing or has the wrong JSON type becomes `None`. A GraphQL reply is the `Response` tree decoded into typed structs. There only a missing or null field becomes `None`; a field of the wrong type is a decode error, which is part of the lookup error path left out below.
- The lookup's own error path is left out. A failed GraphQL POST or undecodable reply (the `Err` of `fetch_latest_commit_for_path`) is network I/O; only the decoded response is modelled. The GraphQL `errors` member is never read by the code and is not modelled.
- A `defaultBranchRef.target` that is not a `Commit` is not modelled. The comment at main.rs:230 says such a target gives `None`. In the code, a reply with another `__typename` cannot become `None`: it fails to decode, an `Err` on the left-out error path. The one-constructor `RefTarget` cannot express this case.
- Building the query variables (main.rs:181-195) is left out, and so is the query document. That document lives in `query.graphql`, which is not part of this model, as is `git-searcher/src/query.rs` and its generated types.
- `load_config` reads `GHE_URL`, `GITHUB_TOKEN` and the first argument, and fails when one is absent (main.rs:57-67). Only what follows the reads is modelled: `LoadConfig` builds `Config` from the three values and derives the GraphQL URL (line 69).
- The 250 ms and 1 s sleeps (main.rs:122, 311) are fixed delays with no other effect.
- `ensure_repo_info` (main.rs:139-168) is left out. It is a network call whose result is discarded (main.rs:297).
- Output is left out: `print_commit`, the count line and every warning line (main.rs:216, 226, 246, 272-277, 292, 303, 306). The model does not say which of the three warnings a "not found" prints.
- The `main` loop (main.rs:283-315) is left out. It visits every target, and a failed lookup does not stop it.
- Search.SearchReposWithFile requires that some reply ends the scan, meaning it fails or is empty. The code has no page limit and would keep requesting pages forever from a host that never sends an empty page.
- Search.SplitTargets and Search.SearchReposWithFile report a full name without `/` as the outcome `InvalidRepoFormat`. The code panics at that point instead of returning an error.
