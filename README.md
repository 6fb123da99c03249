# Visited links: a Dafny model

This project models the core of a small web service that records which
domains a client visited and answers which distinct domains were visited in a
range of seconds. The model covers the three pieces of `app.py` that carry logic
and the in-memory store of `tests.py`:

- **Domain extraction** (`get_domain_from_link`), module `DomainExtraction`. It
  is one anchored regular-expression match,
  `^(https?://|^)(?:www\.|)([\w.-]+).*`, followed by taking capture group 2.
  The model spells out what the regex engine's backtracking does. The stripped
  prefix is at most one `http://` or `https://`, then at most one `www.`. Of the
  possible prefixes, the longest after which `[\w.-]` can still match at least
  one character is chosen. The domain is the maximal run of `[\w.-]` after that
  prefix. The match fails (Python's `IndexError` on `matching[0]`) exactly when
  the link is empty or starts outside `[\w.-]`.
- **Comma serialisation** (`','.join` and `str.split(',')`), module `CommaList`.
  Both round trips are proved. Splitting a join of comma-free pieces gives the
  pieces back, provided there is at least one piece. Joining the pieces of any
  split rebuilds the string.
- **The store** (`MockingRedis`), module `Store`. It is a class with the dict
  `saveRedis` and the dict's key insertion order `order`. It has `Get`, `Mset`,
  `Mget`, `Len` and `GetFirstKey`.
- **The two endpoints**, module `VisitedLinks`. `PostVisitedLinks` extracts a
  domain from every link and collects them in a set. It joins the set with `,`
  and stores the result under the current second. `GetVisitedLinks` checks that
  both `from_` and `to_` are non-zero, then that `to_ <= from_`. It then fetches
  the keys `[to_, from_)` in bulk, drops the missing ones and unites the split
  values. Both methods are proved against specification functions (`Query`,
  `ExtractAll`, `Serializes`), and the lemmas beside them state what those
  functions promise.

Python's `\w` is exact on ASCII characters (`[A-Za-z0-9_]`). On other
characters it follows the Unicode database; the model takes that
classification as a parameter `uw: char -> bool` and assumes nothing about it.
The store and the current second are parameters of the endpoint methods and
replace the module-level Redis client and `datetime.now()`.

Behaviour of the code worth knowing:

- A request with both `from_` and `to_` absent (both 0) is rejected with the
  "missing pair" error. The check at app.py:37 uses `or`. The "last 24 hours"
  defaults at app.py:65-69 therefore never apply, and they are not modelled.
- A link the pattern does not match does not give an empty domain. It raises
  `IndexError` (app.py:32), so the POST fails and nothing is stored. The model
  returns `Unmatched(link)` and leaves the store unchanged.
- A domain is any run of `[\w.-]`; a scheme-less link made only of such
  characters is returned whole (`ExtractWholeRun`).
- An empty batch of links stores `""`. `"".split(',')` is `[""]`, so a later
  query reports the empty string as a visited domain
  (`EmptyBatchReadsAsEmptyDomain`).

## Model

| member | source | states |
|---|---|---|
| `DomainExtraction.SchemeLength` | app.py:31 | the `https?://` alternative consumes 8 characters exactly on a leading `https://`, 7 exactly on a leading `http://`, and cannot match otherwise |
| `DomainExtraction.RunEnd` | app.py:31 | the greedy `[\w.-]+` run from a position ends at the first character outside the class, or at the end of the link; every character before it is in the class |
| `DomainExtraction.CandidatesAre` | app.py:31 | the places where group 2 may begin are exactly 0, 4 after a leading `www.`, the end of the scheme, and 4 more after a `www.` that follows the scheme |
| `DomainExtraction.MatchStart` | app.py:31 | the match fails iff the link is empty or its first character is outside `[\w.-]`; otherwise group 2 begins after an allowed stripped prefix, on a character of the class, and no longer allowed prefix leaves a character of the class after it (the backtracking priority) |
| `DomainExtraction.Extract` | app.py:30-32 | fails (the `IndexError`) iff the link is empty or starts outside `[\w.-]`; otherwise the domain is non-empty, made only of `[\w.-]`, free of commas, and is the maximal run of the class after the stripped prefix |
| `DomainExtraction.ExtractSchemeHost` | app.py:31 | `http://` or `https://`, then a host that does not begin with `www.`, then anything that begins outside the class (a path, a query, a port) yields exactly the host |
| `DomainExtraction.ExtractWholeRun` | app.py:31 | a link made only of `[\w.-]` that does not begin with `www.` is returned whole, so a scheme-less path is not cut down to a host |
| `DomainExtraction.ExtractExampleHttp` | tests.py:46-59 | `http://ya.ru` gives `ya.ru` |
| `DomainExtraction.ExtractExampleQuery` | tests.py:46-59 | `https://ya.ru?q=123` gives `ya.ru` |
| `DomainExtraction.ExtractExampleBare` | tests.py:46-59 | `funbox.ru` gives `funbox.ru` |
| `DomainExtraction.ExtractExamplePath` | tests.py:46-59 | the stackoverflow link with a path gives `stackoverflow.com` |
| `CommaList.Split` | app.py:76 | `s.split(',')` has one more piece than `s` has commas, and no piece contains a comma |
| `CommaList.SplitJoin` | app.py:92 | splitting the join of a non-empty list of comma-free strings gives the list back |
| `CommaList.JoinSplit` | app.py:76 | joining the pieces of any split rebuilds the string |
| `CommaList.SplitEmptyJoin` | app.py:92 | the join of no pieces splits to the set `{""}`, the one exception to the round trip |
| `CommaList.JoinedSetRoundTrip` | app.py:92 | joining distinct comma-free strings and splitting again gives back the same set, with one piece per element |
| `Store.Lookup` | tests.py:14-15 | `dict.get` is `Some` of the stored value iff the key is stored, else `None` |
| `Store.Lookups` | tests.py:24-25 | the answers to a list of keys have its length and order, one `Lookup` per key |
| `Store.UpdatedFrame` | tests.py:21-22 | `update` leaves the table's keys as the old keys plus the items' keys, and every key outside the items keeps its old value |
| `Store.UpdatedOverwrites` | tests.py:21-22 | with distinct keys (a dict), every key of the items maps to its item's new value afterwards, whatever it held before |
| `Store.NewKeysAreFresh` | tests.py:21-22 | the keys `update` inserts are exactly the items' keys that were missing, each once, and the table grows by their number: a fresh key adds one, an existing key adds none |
| `Store.DistinctKeysCount` | tests.py:27-28 | a table whose keys are exactly the elements of a duplicate-free list has as many keys as the list has elements |
| `Store.MockingRedis.constructor` | tests.py:11-12 | a new store is empty |
| `Store.MockingRedis.Get` | tests.py:14-15 | answers `Lookup` of the key (the stored value, or `None` for a missing key), and changes nothing |
| `Store.MockingRedis.GetFirstKey` | tests.py:17-19 | answers the earliest-inserted key, which is stored; answers `None` (the source's `IndexError`) exactly on an empty store |
| `Store.MockingRedis.Mset` | tests.py:21-22 | the table becomes the old table updated with the items; keys not yet present are appended to the insertion order and present keys keep their place |
| `Store.MockingRedis.Mget` | tests.py:24-25 | answers `Lookups` of the keys (one value per key, in the same order, each the stored value or `None`), and changes nothing |
| `Store.MockingRedis.Len` | tests.py:27-28 | answers the number of stored keys |
| `VisitedLinks.Query` | app.py:37-80 | the "missing pair" error iff `from_` or `to_` is 0; the error on `to_` iff both are non-zero and `to_ > from_`; so `to_ == from_` is accepted |
| `VisitedLinks.Range` | app.py:71 | `list(range(lo, hi))` lists `lo, lo + 1, ..., hi - 1`, and nothing when `hi <= lo` |
| `VisitedLinks.Present` | app.py:73 | the filter keeps exactly the values that are not `None` |
| `VisitedLinks.FetchedUnion` | app.py:71-78 | fetching `[lo, hi)`, dropping missing keys and uniting the splits gives the range union of the stored table |
| `VisitedLinks.GetVisitedLinks` | app.py:37-80 | answers `Query` of the store's table: the two validations in order, then the union over the half-open range |
| `VisitedLinks.RangeUnionMembership` | app.py:71-78 | a domain is in the union of `[lo, hi)` iff some stored key in that range holds it in its split |
| `VisitedLinks.QueryMembership` | app.py:71-78 | on success, a domain is in the answer iff some stored key `k` with `to_ <= k < from_` holds it in its split value; missing keys contribute nothing |
| `VisitedLinks.RangeUnionOutside` | app.py:71 | a record outside `[lo, hi)` does not change the union |
| `VisitedLinks.QueryExcludesFrom` | app.py:71 | a record stored exactly at `from_` never changes the answer |
| `VisitedLinks.QueryEmptyRange` | app.py:50 | `to_ == from_` (non-zero) is accepted and gives no domains |
| `VisitedLinks.QueryRejections` | tests.py:99-131 | `to_` alone gives the "missing pair" error; `to_=1635502327, from_=1635502200` gives the error on `to_` |
| `VisitedLinks.ExtractAll` | app.py:88-90 | when a batch fails, the failing link is one of the batch and does not match |
| `VisitedLinks.ExtractAllFails` | app.py:88-90 | a batch fails iff one of its links does not match |
| `VisitedLinks.ExtractAllDomains` | app.py:88-90 | on success, a domain is in the batch's set iff some link of the batch extracts to it |
| `VisitedLinks.ExtractAllStops` | app.py:89-90 | once a prefix of the batch fails, the whole batch fails with the same link, whatever follows |
| `VisitedLinks.ExtractAllFirstFailure` | app.py:89-90 | the link a failing batch reports is the first link of the batch that does not match |
| `VisitedLinks.CollectDomains` | app.py:88-90 | the loop over the links answers `ExtractAll` of the batch: the set of their domains, or the first link that does not match |
| `VisitedLinks.ExtractedDomainsHaveNoComma` | app.py:88-90 | every domain of a batch is non-empty and free of commas |
| `VisitedLinks.Ordering` | app.py:92 | lists each element of the set exactly once, in some order, as iterating a Python set does |
| `VisitedLinks.OrderingSerializes` | app.py:92 | the join of such a listing serialises the set: it splits back to exactly the set, one piece per domain |
| `VisitedLinks.PostVisitedLinks` | app.py:84-95 | fails iff some link does not match, naming the link `ExtractAll` reports (the first such link) and leaving the store unchanged; otherwise writes exactly the key `now`, overwriting it, with a value that splits to the extracted domains without duplicates, and leaves every other key unchanged |
| `VisitedLinks.RecordIsVisible` | app.py:71-93 | a record is in the answer of every query whose range covers its second |
| `VisitedLinks.RecordThenQuery` | app.py:71-93 | a query whose range covers the recorded second and no other stored key returns exactly the recorded domains |
| `VisitedLinks.SameDomainsTwice` | app.py:74-78 | two records of the same domains queried together give each domain once |
| `VisitedLinks.EmptyBatchReadsAsEmptyDomain` | app.py:92 | a recorded empty batch is later reported as the one domain `""` |
| `VisitedLinks.ExtractTestBatch` | tests.py:30-35 | the batch `["ya.ru", "funbox.ru"]` of the POST test extracts to both domains |
| `VisitedLinks.PostThenGetExample` | tests.py:62-96 | once a value serialising those two domains is stored at `now` in an otherwise empty store, the stored value splits into two pieces, and querying `from_ = now + 1`, `to_ = now - 10` returns both domains |
| `VisitedLinks.PostThenGetScenario` | tests.py:62-96 | on a fresh store, the POST of `["ya.ru", "funbox.ru"]` at `now` is recorded, the store then holds one key, `now`, which is also its first key, and the GET with `from_ = now + 1`, `to_ = now - 10` answers exactly both domains |

## Left out

- HTTP routing, `JSONResponse` bodies and status codes (app.py:25-27, 35, 49, 63, 80, 83, 95): the results are the datatypes `QueryResult` and `PostResult`.
- The pydantic `LinksArray` type check and its 422 answer (app.py:14-15, tests.py:72-85): framework validation; the model takes a `seq<string>`.
- The Redis client and its environment configuration (app.py:18-24), and the `mock.patch` and `TestClient` scaffolding of tests.py: the store is an explicit `MockingRedis` parameter.
- `datetime.now()` and the float `timestamp()` (app.py:65-66, 87): the current whole second is the integer parameter `now`.
- The "last 24 hours" defaults (app.py:65-69): unreachable, because app.py:37 rejects any zero parameter first.
- The `json.loads(links_array.json())` round trip (app.py:85): an identity on the list.
- The unused `TIME_PATTERN` (app.py:11).
- Python's Unicode classification of `\w` beyond ASCII: the uninterpreted parameter `uw`.
- Concurrent writers to the same second: the model is sequential.
- VisitedLinks.PostVisitedLinks: states the stored string only up to its split set (`Serializes`), not its exact text, because `','.join` follows the unspecified iteration order of a Python set.
- Store.MockingRedis.Mset: takes the dict as the list of its items in iteration order, so the insertion order of several new keys follows that list.
