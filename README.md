# Let's Encrypt rate-limit estimate, modelled in Dafny

`scripts/cert-quota-check.py` asks crt.sh for the unexpired certificates of a
domain and estimates how close the domain is to two Let's Encrypt rate limits.
This project models the record-processing part of its `main` (lines 53-99):

1. **Filter**: keep a record when its `issuer_name` contains `Let's Encrypt`
   and its `not_before` string is `>=` the boundary one week back, comparing
   strings the way Python does. A missing field reads as `""`.
2. **Dedup**: keep the first record of each non-empty `serial_number`, in
   order. Records with an empty or missing serial are dropped.
3. **Quota A** (50 new certificates per registered domain per week): the
   count, `50 - count` (never clamped, so it goes negative over the limit),
   and a warning when the count is above 40.
4. **Quota B** (5 certificates per exact identifier set per week): for each
   record with a non-empty `name_value`, the key
   `",".join(sorted(name_value.split("\n")))`. The keys are counted as
   `collections.Counter` counts them, in order of first occurrence. A key is
   flagged when its count is above 3.

Files:

- `pystr.dfy`, module `PyStr`: the Python `str` operations the script relies
  on. These are code-point order (`<=`), the substring test (`in`), `split`
  on one character, `join`, and `sorted` (an insertion sort). Each has its
  defining properties proved.
- `cert_quota_check.dfy`, module `CertQuotaCheck`: the records and the
  pipeline. Each of the script's loops (filter, dedup, key collection, the
  `Counter` construction and the warning loop over its items) is a `method`
  with loop invariants.
  Each method is proved equal to a reference function (`Filtered`,
  `Deduplicated`, `IdentifierSets`, `SetUsages`). What the script promises
  is proved as lemmas about those functions. `CheckRateLimits` chains the
  steps as `main` does.

The one-week boundary (`week_ago`, a `%Y-%m-%dT%H:%M:%S` string) is a
parameter. The fetched JSON array is an input sequence of `Cert` values. A
JSON key that is absent is `None`, and `cert.get(key, "")` is `GetOrEmpty`.

## Model

| member | source | states |
|---|---|---|
| `PyStr.LexLe` | scripts/cert-quota-check.py:57 | Python's `<=` on strings: a prefix of `b` is `<=` `b`, and only `""` is `<=` `""`; `LexLeMeansByPosition` gives the full reading and the next three lemmas make it a total order |
| `PyStr.LexLeMeansByPosition` | scripts/cert-quota-check.py:57 | Python's `a <= b` on strings holds iff `a` is a prefix of `b` or, at the first differing position, `a` has the smaller code point |
| `PyStr.LexLeTransitive` | scripts/cert-quota-check.py:57 | string `<=` is transitive (used for the boundary monotonicity) |
| `PyStr.LexLeTotal` | scripts/cert-quota-check.py:88 | any two strings are comparable, so `sorted` has a total order to follow |
| `PyStr.LexLeAntisymmetric` | scripts/cert-quota-check.py:88 | two strings each `<=` the other are equal |
| `PyStr.Contains` | scripts/cert-quota-check.py:56 | Python's `pat in s`: a pattern longer than `s` is never in it; `ContainsMeansOccurrence` shows it holds exactly when `pat` occurs at some offset |
| `PyStr.ContainsMeansOccurrence` | scripts/cert-quota-check.py:56 | `pat in s` holds iff `pat` occurs in `s` at some offset |
| `PyStr.NothingInEmpty` | scripts/cert-quota-check.py:56 | a non-empty pattern is never in `""`, so a missing `issuer_name` fails the issuer test |
| `PyStr.Join` | scripts/cert-quota-check.py:89 | Python's `sep.join(pieces)`: the result starts with the first piece; `JoinSplit` and `SplitJoin` show it undoes `split` and is undone by it |
| `PyStr.Split` | scripts/cert-quota-check.py:88 | `split` always yields at least one piece, and a string without the separator splits into itself alone |
| `PyStr.SplitPiecesHaveNoSeparator` | scripts/cert-quota-check.py:88 | no piece of `s.split(c)` contains `c` |
| `PyStr.JoinSplit` | scripts/cert-quota-check.py:88 | joining the pieces of `s.split(c)` with `c` gives back `s` |
| `PyStr.SplitJoin` | scripts/cert-quota-check.py:88 | splitting the `c`-join of a non-empty list of `c`-free strings gives back that list |
| `PyStr.Sort` | scripts/cert-quota-check.py:88 | Python's `sorted` on strings keeps the length; `SortSortsAndPermutes` shows it returns an ordered permutation and `SortPermutationInvariant` that it depends only on the multiset |
| `PyStr.SortSortsAndPermutes` | scripts/cert-quota-check.py:88 | `sorted` returns an ordered permutation of its argument |
| `PyStr.SortedPermutationsEqual` | scripts/cert-quota-check.py:88 | two ordered permutations of the same strings are identical |
| `PyStr.SortPermutationInvariant` | scripts/cert-quota-check.py:88 | `sorted` of two lists holding the same strings, counted with multiplicity, gives the same list |
| `CertQuotaCheck.GetOrEmpty` | scripts/cert-quota-check.py:56-57 | `cert.get(key, "")`, used for all four fields (lines 56, 57, 64, 85): a present field reads as its value, and the result is `""` exactly when the field is missing or empty |
| `CertQuotaCheck.IsRecentLetsEncrypt` | scripts/cert-quota-check.py:56-57 | the two nested tests of the filter loop: a record that passes has an issuer at least as long as `Let's Encrypt` and, against a non-empty boundary, a non-empty `not_before` |
| `CertQuotaCheck.FilterLetsEncrypt` | scripts/cert-quota-check.py:54-58 | the filter loop returns exactly the records passing the issuer and boundary test, in input order |
| `CertQuotaCheck.FilteredMembers` | scripts/cert-quota-check.py:55-58 | a record is kept iff it is in the input, its issuer contains `Let's Encrypt` and its `not_before` is `>=` the boundary |
| `CertQuotaCheck.FilteredIsSubsequence` | scripts/cert-quota-check.py:54-58 | the kept records are a subsequence of the input |
| `CertQuotaCheck.MissingFieldsExcluded` | scripts/cert-quota-check.py:56-57 | a record without `issuer_name` is never kept; one without `not_before` is never kept against a non-empty boundary |
| `CertQuotaCheck.FilterMonotone` | scripts/cert-quota-check.py:57 | a later boundary keeps a subsequence of what an earlier one keeps, so never more records |
| `CertQuotaCheck.LastIsFirstOfSerial` | scripts/cert-quota-check.py:64-65 | the loop's test "serial non-empty and not yet seen" holds iff the record is the first with its non-empty serial |
| `CertQuotaCheck.DedupBySerial` | scripts/cert-quota-check.py:61-67 | the dedup loop, with its set of seen serials, returns exactly the first record of each non-empty serial, in order |
| `CertQuotaCheck.DedupSerialsUnique` | scripts/cert-quota-check.py:61-67 | after dedup every serial is non-empty, no two records share one, and every non-empty input serial is still present |
| `CertQuotaCheck.DedupIsSubsequence` | scripts/cert-quota-check.py:63-67 | the deduplicated list is a subsequence of its input |
| `CertQuotaCheck.DedupKeepsFirstOccurrences` | scripts/cert-quota-check.py:63-67 | the first record with each non-empty serial is kept, and every kept record is such a first record |
| `CertQuotaCheck.DedupOfUnique` | scripts/cert-quota-check.py:63-67 | a list whose serials are non-empty and distinct is unchanged by dedup |
| `CertQuotaCheck.DedupIdempotent` | scripts/cert-quota-check.py:61-67 | deduplicating twice gives the same list as once |
| `CertQuotaCheck.QuotaA` | scripts/cert-quota-check.py:72-76 | count is the number of records; count + remaining = 50; remaining is negative iff count > 50; warning iff count > 40 |
| `CertQuotaCheck.UniqueSerialsCount` | scripts/cert-quota-check.py:61-67 | with distinct non-empty serials there are as many serials as records |
| `CertQuotaCheck.QuotaACountsDistinctSerials` | scripts/cert-quota-check.py:53-72 | the quota-A count equals the number of distinct non-empty serials among the filtered records, and never exceeds the number of fetched records |
| `CertQuotaCheck.IdentifierSetKey` | scripts/cert-quota-check.py:88-89 | `",".join(sorted(name_value.split("\n")))`: a single name is its own key; the next three lemmas show the key does not depend on the order of the names |
| `CertQuotaCheck.IdentifierSetKeyPermutationInvariant` | scripts/cert-quota-check.py:88-89 | newline-joining the same names in any order gives the same identifier-set key |
| `CertQuotaCheck.IdentifierSetKeySwap` | scripts/cert-quota-check.py:88-89 | two newline-free names give the same key whichever is listed first |
| `CertQuotaCheck.IdentifierSetKeyExample` | scripts/cert-quota-check.py:88-89 | `"b.example.com\na.example.com"` and `"a.example.com\nb.example.com"` have the same key |
| `CertQuotaCheck.CollectIdentifierSets` | scripts/cert-quota-check.py:83-90 | the collecting loop returns the key of each record with a non-empty `name_value`, in order |
| `CertQuotaCheck.IdentifierSetsOfNamed` | scripts/cert-quota-check.py:84-90 | there is exactly one key per record with a non-empty `name_value`, and the k-th key is that record's key |
| `CertQuotaCheck.NamedIsSubsequence` | scripts/cert-quota-check.py:84-86 | the records contributing keys are a subsequence of the deduplicated records, and include every record with a non-empty `name_value` |
| `CertQuotaCheck.CountOccurrences` | scripts/cert-quota-check.py:93 | building the `Counter` gives the distinct keys in first-occurrence order and, for every key that occurs and only those, its number of occurrences |
| `CertQuotaCheck.CountSets` | scripts/cert-quota-check.py:93-99 | the `Counter`, then the loop over its items with the warning test, returns one line per distinct key in first-occurrence order, with its count and flag |
| `CertQuotaCheck.DistinctMembers` | scripts/cert-quota-check.py:93 | the distinct keys are exactly the keys that occur, each listed once |
| `CertQuotaCheck.SetUsagesCorrect` | scripts/cert-quota-check.py:93-99 | each listed key is distinct and occurs in the input; its count is its number of occurrences (at least 1); it is flagged iff the count is above 3; every input key is listed |
| `CertQuotaCheck.SetUsagesTotal` | scripts/cert-quota-check.py:93 | the per-set counts add up to the number of keys collected |
| `CertQuotaCheck.CheckRateLimits` | scripts/cert-quota-check.py:53-99 | the whole pipeline yields quota A of the deduplicated, filtered records and the per-set breakdown of their keys |

## Left out

- Installing `requests` through `pip` when the import fails (lines 5-11). This is environment setup.
- Command-line parsing (lines 18-24). The domain only selects what crt.sh returns, and that is the input here.
- Computing `week_ago` from the clock (lines 27-29). The boundary is a string parameter.
- The HTTP request, `raise_for_status`, the empty-body check, JSON decoding and the `sys.exit(1)` error paths (lines 32-51). These are network I/O and a foreign decoder. The model starts from the decoded array.
- Printing the report, including the quota-3 note (lines 69-107). The model returns the numbers and flags the report shows (`Report`), not the text.
- JSON fields that are present with a non-string value (`null`, a number). Python would raise `TypeError` or compare them differently. Every field is modelled as either a string or absent.
- Strings whose code points include lone surrogates. Dafny's `char` leaves them out, while Python's `str` can hold them.
- `PyStr.Split` models `str.split` with a single-character separator only, which is the only form the script uses.
- `PyStr.Sort` is an insertion sort, not Python's Timsort. `PyStr.SortedPermutationsEqual` shows that any ordered permutation of a list of strings is the same list, so the result does not depend on the algorithm.
