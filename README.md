# package-collector: the merge and tag pipeline in Dafny

package-collector gathers Zig package records from four catalogues:
- the curated ziglibs repository;
- GitHub topic search;
- astrolabe.pm;
- aquila.red.

It merges the records that point to the same repository and writes two files: a package list and a tag list. This project models the part between fetching and writing:

- **Canonical key** (`GitKey`): `uniqueGitPath` strips a trailing `.git` only from URLs that start with `https://github.com`. The prefix test is case-sensitive. The result is then lower-cased.
- **Tag filter** (`TagFilter`): `filterAndSortTags` and `contains`. Each tag is lower-cased, and the six deny-listed labels are dropped. The filter keeps input order and duplicates; it does not sort.
- **Tag merge** (`TagMerge`): `mergeTags` removes duplicates with a set, then applies `sort.Strings` (byte order).
- **Merge fold** (`MergeEngine`): records are folded in processing order into a map keyed by the canonical key.
  - A new key stores the record unchanged.
  - An existing entry with a non-empty `GitRepo` appends the incoming tags, ORs the `Source` bits, and fills only the links that are still nil.
  - Author, display name, description, root file and repository URL keep their first-seen values.
  - An entry with an empty `GitRepo` fails the guard, so the next empty-URL record replaces it.
- **Finalisation and catalogue** (`TagCatalogue`, `Collector`):
  - each package's tags go through `mergeTags`;
  - packages are sorted by lower-cased display name;
  - curated tags are combined with tags that only packages carry, which get an empty description;
  - the tag list is sorted by lower-cased name.
- **Support modules**: `GoStrings` holds the Go string primitives and Go's `<` on strings. `Sorting` is one in-place insertion sort standing in for `sort.Strings` and `sort.Slice`. `Packages` holds the record types and the provenance bits. `Wrappers` holds `Option`, which stands in for `*string`.

Go walks a map in an unspecified order. The two map walks here pick an arbitrary remaining key at each step and return the order they used as a ghost result. The sorted outputs are therefore stated as "sorted, and a permutation of the map's values".

### Behaviour of the code worth knowing

- The merge never fills an empty author, description or root file from a later record. The first-seen value wins even when it is empty (`MergeEngine.MergedEntry`, `MergeEngine.FirstSeenWins`).
- Records with an empty repository URL all go under the key `""`, and each one replaces the previous one (`MergeEngine.EmptyKeyLastWins`).
- `filterAndSortTags` neither sorts nor removes duplicates (`TagFilter.FilteredAppend`). Deduplication and sorting happen only in `mergeTags`, which sorts by byte order, not case-insensitively (`TagMerge.MergeTags`).
- Every fetcher passes its tags through `filterAndSortTags`; aquila.red records carry no tags. So every tag on a listed package is lower-case and off the deny-list (`Collector.ListedTagsClean`).
- The curated tag files are not filtered. A file `zig.json` defines the tag `zig`, which the filter would drop from any package, and that tag reaches the tag list (`Collector.CuratedNameKept`).

## Model

| member | source | states |
|---|---|---|
| `GoStrings.TrimSuffix` | package-collector.go:282 | the name is the file's base name with one trailing `.json` removed, and is unchanged when there is none |
| `GoStrings.LessTransitive` | package-collector.go:388 | Go's byte-order `<` on strings is transitive |
| `GoStrings.LessTotal` | package-collector.go:388 | any two different strings are ordered by `<` one way or the other, so `sort.Strings` has a total order to sort by |
| `GoStrings.LessIrreflexive` | package-collector.go:388 | no string is `<` itself |
| `TagMerge.IncreasingSortedDistinct` | package-collector.go:375-391 | a strictly increasing list is sorted and has no repeats, so `MergeTags`'s result is exactly what deduplicating and then `sort.Strings` produce |
| `GitKey.UniqueGitPath` | package-collector.go:368-373 | the result plus `.git` is the input exactly when the input starts with `https://github.com` and ends with `.git`; otherwise the input is returned unchanged |
| `GitKey.CanonicalKey` | package-collector.go:215 | the map key `strings.ToLower(uniqueGitPath(url))` is lower-case; it is four characters shorter than the URL when `.git` is stripped, and the same length otherwise |
| `GitKey.GitSuffixSameKey` | package-collector.go:215 | a GitHub URL with and without a trailing `.git` gets the same map key |
| `GitKey.EmptyKeyIffEmptyUrl` | package-collector.go:368-373 | the key is empty exactly when the URL is empty |
| `GitKey.KeyIsLower` | package-collector.go:215 | every key is lower-case, and lower-casing it again changes nothing |
| `GitKey.UpperCaseHostKeepsSuffix` | package-collector.go:369 | the prefix test is case-sensitive and runs before lower-casing, so a URL under `HTTPS://GITHUB.COM` keeps `.git` in its key |
| `TagFilter.Contains` | package-collector.go:437-444 | returns true exactly when the element occurs in the list |
| `TagFilter.FilterAndSortTags` | package-collector.go:426-435 | the loop computes `Filtered`: the lower-cased inputs that are not on the deny-list, in input order, with duplicates kept |
| `TagFilter.FilteredMembers` | package-collector.go:426-435 | a tag is in the output exactly when it is the lower-cased form of some input and is not on the deny-list |
| `TagFilter.FilteredClean` | package-collector.go:417-435 | every output tag is lower-case and not in `filtered_tags` |
| `TagFilter.FilteredAppend` | package-collector.go:426-435 | filtering a concatenation gives the concatenation of the filtered parts, so input order is kept and nothing is sorted |
| `TagFilter.FilteredIdempotent` | package-collector.go:426-435 | filtering twice gives the same result as filtering once |
| `TagFilter.FilterExample` | package-collector.go:417-435 | `["Zig", "http", "zig-package"]` filters to `["http"]` |
| `TagMerge.MergeTags` | package-collector.go:375-391 | the result is strictly increasing in byte order (sorted, no duplicates), and its elements are exactly the tags of all the input lists |
| `Sorting.SortBy` | package-collector.go:249-251 | after an in-place sort, no element's key is less than the key of an element before it, and the array holds a permutation of its old contents |
| `Packages.SourceFlagsAreDistinctBits` | package-collector.go:410-415 | `SRC_GITHUB`, `SRC_AQUILA`, `SRC_ASTROLABE` and `SRC_ZIGLIBS` are 1, 2, 4 and 8: distinct single bits that never overlap |
| `MergeEngine.FillLinks` | package-collector.go:224-232 | each link is set independently: a non-nil stored link is kept, and a nil one takes the incoming value |
| `MergeEngine.FillNilLinks` | package-collector.go:224-232 | the three nil checks, in source order, compute `FillLinks` |
| `MergeEngine.MergeInto` | package-collector.go:219-233 | a duplicate leaves author, display name, description, root file and repository URL unchanged; appends the incoming tags; ORs the provenance bits; fills only nil links |
| `MergeEngine.FoldStep` | package-collector.go:213-238 | one loop iteration adds the record's key and leaves every other entry unchanged |
| `MergeEngine.MergeRecord` | package-collector.go:215-238 | the loop body (read the entry, or the zero value when absent; update; write back) computes `FoldStep` |
| `MergeEngine.MergePackages` | package-collector.go:211-239 | the merge loop computes the left fold `Fold` of the records in processing order |
| `MergeEngine.KeyedStep` | package-collector.go:215-238 | for a non-empty key whose stored entry has a URL: a record with that key is merged into the entry, or stored when the key is new; any other record leaves the entry alone |
| `MergeEngine.EmptyKeyStep` | package-collector.go:217-238 | at the empty key the guard always fails, so an empty-URL record replaces the entry, and any other record leaves it alone |
| `MergeEngine.FoldKeyConsistent` | package-collector.go:215-238 | every entry is stored under the key of its own repository URL |
| `MergeEngine.FoldKeys` | package-collector.go:211-239 | the map holds one entry per distinct key of the input and no other |
| `MergeEngine.MergeGuard` | package-collector.go:219 | the guard `stored.GitRepo != ""` holds exactly when the key is already stored and is not empty |
| `MergeEngine.FoldPerKey` | package-collector.go:211-239 | a non-empty key is in the map exactly when some record has it, and its entry is the merge of exactly the records with that key, in order |
| `MergeEngine.EmptyKeyLastWins` | package-collector.go:217-236 | the entry under the empty key is the last record with an empty URL, with its own provenance and nothing merged into it |
| `MergeEngine.MergeAllSpec` | package-collector.go:219-233 | merging a run of records gives: the first record's identity fields; the OR of all their provenance bits; all their tags in order; for each link kind, the first link any of them sets |
| `MergeEngine.MergedEntry` | package-collector.go:211-239 | the same four facts for the map entry of a non-empty key, stated over the records that carry that key |
| `MergeEngine.FirstSeenWins` | package-collector.go:219-236 | the first record with a non-empty key fixes that entry's author, display name, description, root file and repository URL |
| `MergeEngine.FoldTagsFromInput` | package-collector.go:219-238 | the merge invents no tag: every tag of an entry is a tag of some input record |
| `MergeEngine.SourceUnionBits` | package-collector.go:222 | a provenance bit is set in the merged entry exactly when some contributing record has it, whatever the order |
| `MergeEngine.MergedSourceBits` | package-collector.go:211-239 | a provenance bit is set in a non-empty key's entry exactly when some input record with that key has it |
| `TagCatalogue.CuratedTags` | package-collector.go:282-286 | every curated entry is stored under its own name, and the names are exactly the file base names without `.json` |
| `TagCatalogue.CuratedLastWins` | package-collector.go:282-286 | the entry for a file's base name holds that file's description when no later file in the walk has the same base name, so the last file with a given name wins |
| `TagCatalogue.ExtendCatalogue` | package-collector.go:295-304 | the nested loop computes `AddPackageTags` |
| `TagCatalogue.AddTagsSpec` | package-collector.go:296-302 | adding a package's tags: adds exactly those tags; keeps every entry with a non-empty name; gives each new tag an empty description |
| `TagCatalogue.CatalogueSpec` | package-collector.go:295-304 | the catalogue holds the curated tags and every package tag, each under its own name; a curated tag keeps its description; a tag found only on packages gets `""` |
| `Collector.CollectPackages` | package-collector.go:243-247 | the list has one element per map entry; through the order of keys it visited, the i-th element is the i-th visited entry with its tags deduplicated and sorted and every other field unchanged |
| `Collector.CollectTags` | package-collector.go:306-309 | the list has one element per map entry and holds exactly the map's values, each visited once |
| `Sorting.SortedCopy` | package-collector.go:249-251 | a new array of the same length, sorted by the key, holding the same multiset of elements as the list it was built from |
| `Collector.ListedTagsFromInput` | package-collector.go:243-247 | every tag on a listed package is a tag of some raw record |
| `Collector.ListedTagsClean` | package-collector.go:426-435 | when every raw record's tags are the output of `filterAndSortTags`, every tag on a listed package is lower-case and off the deny-list |
| `Collector.CuratedNameKept` | package-collector.go:282-286 | a curated file `<name>.json` defines the tag `name` with its description, whether or not `name` is on the deny-list |
| `Collector.ListedOnce` | package-collector.go:306-309 | after walking a catalogue and permuting the result, each catalogue value occurs exactly once, because distinct keys hold tags with distinct names |
| `Collector.CatalogueListed` | package-collector.go:295-304 | in any list holding exactly the catalogue's values: every package tag appears under its own name; curated tags with a non-empty name appear with their description; every other tag has `""` |
| `Collector.BuildPackageList` | package-collector.go:211-251 | see `PackageListOf` below: a permutation of the merged map's entries, each with its tags finalised, one per key, sorted by lower-cased display name, in a new array |
| `Collector.BuildTagList` | package-collector.go:260-313 | see `TagListOf` below: each catalogue value exactly once, sorted by lower-cased name, in a new array |
| `Collector.Collect` | package-collector.go:211-313 | both phases together: `PackageListOf` for the package list and `TagListOf` for the tag list, both in new arrays |

`Collector.PackageListOf` states that:
- the merged map is `Fold(raw)`;
- the package list has one element per map entry, and is a permutation of the entries as the map walk visited them, each with its tags finalised;
- the package list is sorted by lower-cased display name;
- if the input tags came out of `filterAndSortTags`, every listed tag is lower-case and off the deny-list.

`Collector.TagListOf` states that:
- the catalogue is the curated tags extended by every package tag;
- the tag list has one element per catalogue entry, and holds each catalogue value exactly once;
- the tag list is sorted by lower-cased name;
- every tag on any output package appears in the tag list under its own name;
- every curated tag with a non-empty name appears with its curated description;
- every other tag has an empty description.

## Left out

- The `git submodule update` and `git pull` subprocess calls: external process I/O.
- The `filepath.Walk` traversals and JSON reads of package and tag files. The model takes their output as input: the raw records, and the curated tag files as base name and description pairs, in walk order.
- The GitHub search client, its token and its pagination loop: these depend on the network, and the loop's termination depends on the total the remote API reports.
- The HTTP fetches from astrolabe.pm and aquila.red and their JSON decoding. This includes the unchecked `Unmarshal` errors and the `fmt.Sprintf` and `strings.Split` glue that builds their records.
- Adapter order is not modelled as such. The raw records arrive as one sequence, already in processing order: curated repository, GitHub, astrolabe.pm, aquila.red.
- `json.MarshalIndent`, `os.WriteFile`, flag parsing and logging: serialisation, filesystem and CLI concerns.
- `heapify` is not a separate member: `heapify(s)` is the `Some(s)` of `Option`, and pointer identity is not modelled.
- GoStrings.Less: compares sequences of Unicode scalar values, where Go's `<` compares bytes. The two orders agree on valid UTF-8. A string that is not valid UTF-8, such as a tag file base name returned by `filepath.Walk`, cannot be represented.
- GoStrings.ToLower: folds ASCII letters only. Go's `strings.ToLower` also maps non-ASCII letters, and Unicode case mapping is not modelled.
- Packages.Source: holds 4 bits, not Go's 64-bit `int`. Every record the program builds carries one of the four one-bit flags, so every OR of them fits. Wider bit-vectors made the solver too slow.
- Sorting.SortBy: states only "sorted and a permutation". This is what `sort.Strings` and `sort.Slice` promise. Which order `sort.Slice` picks for equal keys is not modelled.
- TagMerge.MergeTags: the Go `map[string]bool` used as a set is modelled as a `set<string>`.
- Slice aliasing in `append(stored.Tags, pkg.Tags...)` is not modelled. Tag lists are values. No later read can observe the shared backing array.
- The log line reporting how many packages were merged is not modelled.
- Collector.CollectPackages: states each listed element through the ghost order of visited keys, and only the length of the list without it. `mergeTags` is a loop and is modelled as a method, so no function is available to state the finalised value directly.
