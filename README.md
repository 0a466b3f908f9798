# repo_sort, modelled in Dafny

`repo_sort.py` asks the hosting API for a user's repositories. On HTTP status
200 it decodes the JSON body into a list of repository records, sorts them by
their `created_at` string with `sorted(..., reverse=True)` (newest first, stable
for equal timestamps) and prints a header followed by one
`<name> - Created on <created_at>` line per record. On any other status it
prints `Failed to fetch repositories: <status>` and sorts nothing.

The model has four modules:

- `StringOrder` (`string_order.dfy`): Python's `<=` and `<` on `str`, compared
  code point by code point with a proper prefix first, proved to be a total
  order. Timestamps in the fixed-width RFC 3339 form order chronologically under
  plain string comparison (section 5.1 of RFC 3339), so they are never parsed.
- `Repos` (`repos.dfy`): the record (`name`, `created_at`) and the sort. The sort
  is a pure function built by stable insertion. `IsStableDescSort` states what
  Python promises of `sorted(..., reverse=True)`: same multiset of records,
  non-increasing keys, and each group of equal keys in fetched order. The
  lemmas prove that the model's sort meets this promise and that exactly one
  list does, so any stable descending sort (Timsort included) returns the same
  list. Idempotence follows from this.
- `Listing` (`listing.dfy`): the header, the per-record line and `ParseLine`,
  its inverse, which the round-trip lemmas use (the script itself never reads
  a line back); Python's `str()` of an integer with its inverse; the failure
  line; and the printing loop as a method that collects the printed lines.
- `RepoSort` (`repo_sort.dfy`): the HTTP response as a value (status code and
  decoded records) and `Run`, the status branch around sort and listing.

Python's `sorted` builds a new list and the model's records are values, so the
fetched list and its records are unchanged by construction.

`repo_sort.py` makes one unpaged request and prints a plain listing; it has no
pagination, no language or fork-parent lookup, no document rendering and no
publishing.

## Model

| member | source | states |
|---|---|---|
| `StringOrder.LexLeIsTotalOrder` | repo_sort.py:19 | the string order used on `created_at` keys is reflexive, antisymmetric, transitive and total, so ordering records by it is a total preorder |
| `StringOrder.LexLeReflexive` | repo_sort.py:19 | every key compares `<=` to itself |
| `StringOrder.LexLeAntisymmetric` | repo_sort.py:19 | two keys each `<=` the other are the same string |
| `StringOrder.LexLeTransitive` | repo_sort.py:19 | `<=` on keys is transitive |
| `StringOrder.LexLeTotal` | repo_sort.py:19 | any two keys are comparable |
| `StringOrder.LexLtIsStrictLe` | repo_sort.py:19 | Python's `<`, the comparison `sorted` uses, holds exactly when `<=` holds and the keys differ |
| `Repos.Insert` | repo_sort.py:19 | inserting one record adds exactly that record to the list's multiset |
| `Repos.SortByCreatedDesc` | repo_sort.py:19 | the sorted list has the fetched list's length and is a permutation of it |
| `Repos.InsertSorted` | repo_sort.py:19 | inserting into a newest-first list keeps it newest first |
| `Repos.SortIsSorted` | repo_sort.py:19 | the sorted list is non-increasing by `created_at`: for i < j, key i >= key j |
| `Repos.InsertKeepsKeyOrder` | repo_sort.py:19 | an inserted record goes before every record of the same key and leaves their order alone |
| `Repos.SortIsStable` | repo_sort.py:19 | for every key, the records with that `created_at` appear in fetched order |
| `Repos.SortMeetsSpec` | repo_sort.py:19 | the model's sort meets all of Python's promise for `sorted(..., reverse=True)`: permutation, descending, stable |
| `Repos.StableDescSortUnique` | repo_sort.py:19 | two descending lists that agree on the order within every key group are equal |
| `Repos.StableDescSortIsSort` | repo_sort.py:19 | every list that meets Python's promise for this call equals the model's sorted list |
| `Repos.SortOfSortedIsIdentity` | repo_sort.py:19 | sorting a list that is already newest first returns it unchanged |
| `Repos.SortIdempotent` | repo_sort.py:19 | sorting the sorted list again changes nothing |
| `Listing.RepoLineRoundTrip` | repo_sort.py:23 | a record line is `name`, then " - Created on ", then `created_at`: parsing it with the timestamp's width gives the record back |
| `Listing.RepoLineInjective` | repo_sort.py:23 | records whose timestamps have the same width print the same line only if they are the same record |
| `Listing.RepoLine` | repo_sort.py:23 | the line holds `name`, then " - Created on ", then `created_at`, at those positions and nothing else (its length is the sum of the three lengths) |
| `Listing.NatToDecimal` | repo_sort.py:25 | `str()` of a natural number is a non-empty run of decimal digits with no leading zero |
| `Listing.IntToDecimal` | repo_sort.py:25 | `str()` of an integer is non-empty and starts with '-' exactly when the integer is negative |
| `Listing.NatToDecimalRoundTrip` | repo_sort.py:25 | the digits of `str(n)` read back as `n` |
| `Listing.IntToDecimalRoundTrip` | repo_sort.py:25 | `str(n)` of any integer reads back as `n` |
| `Listing.FailureLine` | repo_sort.py:25 | the failure line starts with "Failed to fetch repositories: ", is longer than it, and is never the listing header |
| `Listing.FailureLineCarriesStatus` | repo_sort.py:25 | the text after the failure prefix reads back as the status code |
| `Listing.ListRepositories` | repo_sort.py:21-23 | the output is the header line, then exactly one line per record in the given order, line i+1 being record i's line |
| `RepoSort.Run` | repo_sort.py:16-25 | the first line is the header exactly when the status is 200; on 200 there is one line per fetched record, in sorted order; otherwise the output is the single failure line with the status |

## Left out

- The HTTP request with basic authentication (repo_sort.py:14): network I/O. Its answer is the `Response` value given to `Run`.
- Loading `.env` and reading `GITHUB_USERNAME` and `GITHUB_TOKEN` (repo_sort.py:5-10): ambient configuration that only feeds the request.
- Building the request URL (repo_sort.py:12): a format string that only feeds the request.
- JSON decoding (repo_sort.py:17): a library call. The decoded records are given. A body that is not a list, or a record without `name` or `created_at` (a `KeyError` in Python), is not modelled.
- Record fields other than `name` and `created_at`: the script neither sorts on them nor prints them.
- Writing to standard output: the printed lines are returned as a sequence of strings.
- The algorithm inside Python's `sorted` (Timsort): the model sorts by insertion, and `Repos.StableDescSortIsSort` shows that every stable descending sort gives the same list.
- Chronological meaning of timestamps: keys are compared as strings, as the script does.
