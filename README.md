# sidekiq-status: the per-worker key collection

A Dafny model of `Sidekiq::Status::AsCollection`, the mixin that gives every worker
class a secondary index over its job-status records. The index is a Redis set named
`sidekiq:statuses_all:<worker name, lowercased>` whose members are the keys
(`sidekiq:status:<jid>`) of the status hashes that belong to that worker.

The model works over one Redis keyspace, `Db = map<string, Value>`, where a key holds
either a hash (field → value) or a set of strings (`redis.dfy`). The four class methods
of the mixin become:

- `AsCollection.KeysCollection`: `keys_collection`, the set's name.
- `AsCollection.Store.RefreshCollection`: `refresh_collection`, an imperative method
  on a `Store` object that holds the database. It scans a snapshot of the keys, keeps
  those that match `sidekiq:status:*` and whose `worker` field is exactly the worker
  name, deletes the set, then adds the kept keys. It is proved equal to the pure function
  `AsCollection.Refresh`, and the lemmas about the refresh are stated over that function.
  `Store.Valid` is Redis's rule that no key holds an empty hash or set. The refresh
  keeps it, and `TotalZeroIffAbsent` uses it: a total of 0 means the key is absent.
- `AsCollection.Total`: `total`, SCARD of the set.
- `AsCollection.SortedKeys`: `sorted_keys(page:, per_page:)`. It is SORT of the set
  `BY *->update_time DESC LIMIT (page-1)*per_page per_page`, with `GET #` and `GET *->f`
  for f in `update_time`, `status`, `args`. Each result is then turned into a row
  `{jid, worker, update_time, status, args}`.

Choices the model makes:

- A command that meets a key holding the other kind of value gets Redis's WRONGTYPE
  reply. The model returns `Failure(WrongType)` or `Fail(WrongType)` for it. HGET on a
  matching key that holds a set fails the refresh before anything is deleted. SCARD and
  SORT fail on a collection key that holds a hash.
- When no key matches, the refresh deletes the set and stops (`return if
  worker_keys.empty?`). Redis keeps no empty set, so the key is absent afterwards.
  `Total` reads an absent key as 0 and `SortedKeys` reads it as no rows.
- How SORT turns an `update_time` value into a number, and what a missing value counts
  as, is the parameter `readTime: Option<string> -> int`. The order among equal weights
  is left open: `Sorting.SortDescending` picks some heaviest member first. The order
  is fixed for given arguments, and no lemma depends on which tie comes first.
- A member whose record is gone, or has no such field, gives a row whose fields are nil
  (`None`), as `GET *->f` does. Such rows are kept, not skipped.
- `jid` is `key.split(':').last` with Ruby's semantics. Trailing empty fields are
  dropped, and an empty result gives nil. So `sidekiq:status:` gives the jid `status`,
  and a key made only of colons gives nil.
- `downcase` lowers ASCII letters only.
- The worker name (`self.to_s`) is a parameter of every operation. So is the Redis
  connection: the `Store` object, or the `Db` value.

## Model

| member | source | states |
|---|---|---|
| `Strings.Downcase` | lib/sidekiq-status/as_collection.rb:17 | same length as the input, each character lowered, and no upper-case ASCII letter left |
| `Strings.DowncaseIdempotent` | lib/sidekiq-status/as_collection.rb:17 | lowercasing an already lowercased name changes nothing |
| `Strings.SplitAll` | lib/sidekiq-status/as_collection.rb:42 | at least one field; no field contains the separator; a string without the separator is its own only field |
| `Strings.DropTrailingEmpty` | lib/sidekiq-status/as_collection.rb:42 | the result is a prefix of the fields, does not end in an empty field, and only empty fields were removed |
| `Strings.SplitAllConcat` | lib/sidekiq-status/as_collection.rb:42 | splitting `x + sep + y` gives the fields of `x` followed by the fields of `y` |
| `Strings.Split` | lib/sidekiq-status/as_collection.rb:42 | Ruby's `split`: the fields of the string, none containing the separator, with only the empty fields at the end removed, so the last one left is non-empty |
| `Strings.SplitTrailingSeparator` | lib/sidekiq-status/as_collection.rb:42 | a separator at the end of a string does not change its `split` |
| `Strings.LastFieldAfterSeparator` | lib/sidekiq-status/as_collection.rb:42 | `(p + sep + j).split(sep).last == j` for every non-empty `j` without the separator |
| `AsCollection.KeysCollection` | lib/sidekiq-status/as_collection.rb:16-18 | the name is the namespace `sidekiq:statuses_all`, a colon and the worker name lowercased character by character; it has no upper-case letter and never matches the `sidekiq:status:*` scan |
| `AsCollection.KeysCollectionIgnoresCase` | lib/sidekiq-status/as_collection.rb:17 | two workers get the same collection name if and only if their names agree once lowercased |
| `Redis.HGet` | lib/sidekiq-status/as_collection.rb:23 | HGET answers WRONGTYPE exactly when the key holds a set; otherwise it gives the hash's field, or nil when the key or the field is missing |
| `AsCollection.IsWorkerKey` | lib/sidekiq-status/as_collection.rb:23 | the `select` test (`hget(k, 'worker') == self.to_s` on a `sidekiq:status:*` key) holds exactly when the key holds a hash whose `worker` field equals the name, case and all |
| `AsCollection.BreaksScan` | lib/sidekiq-status/as_collection.rb:23 | the scan's HGET fails exactly on a matching key that holds a set |
| `AsCollection.WorkerKeys` | lib/sidekiq-status/as_collection.rb:23 | the selected keys are stored keys, and a key is selected exactly when it has the prefix `sidekiq:status:` and holds a hash whose `worker` field equals the name |
| `AsCollection.Refresh` | lib/sidekiq-status/as_collection.rb:21-28 | fails exactly when a matching key holds a set; otherwise the set holds exactly the keys with prefix `sidekiq:status:` whose `worker` field equals the name as given. The set's key exists exactly when there is one. Every other key and value is unchanged |
| `AsCollection.RefreshWellFormed` | lib/sidekiq-status/as_collection.rb:24-26 | a refresh never leaves an empty set behind |
| `AsCollection.RefreshIdempotent` | lib/sidekiq-status/as_collection.rb:22-27 | refreshing twice on an unchanged store gives the same database as refreshing once |
| `AsCollection.RefreshLeavesOtherWorkers` | lib/sidekiq-status/as_collection.rb:24-26 | a refresh leaves the collection of every worker whose lowercased name differs unchanged |
| `AsCollection.LowercasedNameSharesCollection` | lib/sidekiq-status/as_collection.rb:17 | `downcase` is applied once and is idempotent, so a worker named by its own lowercased name gets the same set |
| `AsCollection.CaseVariantsShareCollection` | lib/sidekiq-status/as_collection.rb:17 | for two names that differ only in case, the second worker's collection holds the first worker's keys after the first is refreshed |
| `AsCollection.Store.RefreshCollection` | lib/sidekiq-status/as_collection.rb:21-28 | the new database is `Refresh` of the old one, or on WRONGTYPE the outcome is that error and the database is unchanged; the no-empty-value invariant is kept |
| `AsCollection.RefreshExample` | spec/lib/sidekiq-status/as_collection_spec.rb:21-31 | three records tagged with the worker and one tagged with another worker: the collection ends up holding exactly the three |
| `AsCollection.Total` | lib/sidekiq-status/as_collection.rb:47-49 | fails exactly when the collection key holds a hash; otherwise it is the number of distinct members of the set |
| `AsCollection.TotalZeroIffAbsent` | lib/sidekiq-status/as_collection.rb:47-49 | in a store with no empty set, `total` is 0 exactly when the collection key is absent |
| `AsCollection.TotalAfterRefresh` | lib/sidekiq-status/as_collection.rb:48 | after a refresh the total is the number of keys tagged with the worker |
| `AsCollection.Jid` | lib/sidekiq-status/as_collection.rb:42 | `key.split(':').last`: nil exactly when the split leaves no field, otherwise a non-empty, colon-free field of the key |
| `AsCollection.JidAfterLastColon` | lib/sidekiq-status/as_collection.rb:42 | the jid is the last non-empty field: for any key ending in `:` and a non-empty, colon-free `j`, it is `j`, whatever precedes the last colon |
| `AsCollection.JidOfStatusKey` | lib/sidekiq-status/as_collection.rb:42 | the jid of `sidekiq:status:<jid>` is `<jid>` for every non-empty jid without a colon |
| `AsCollection.JidIgnoresTrailingSeparator` | lib/sidekiq-status/as_collection.rb:42 | a colon at the end of a key does not change its jid |
| `AsCollection.FieldsAt` | lib/sidekiq-status/as_collection.rb:38 | one value per requested field, each that field of the record's hash, or nil |
| `AsCollection.SortGet` | lib/sidekiq-status/as_collection.rb:38 | each SORT result has the key first (`GET #`), then for each HASH_KEYS entry f, in order, the record's field f (nil if missing) |
| `AsCollection.ToRow` | lib/sidekiq-status/as_collection.rb:41-42 | the row's jid comes from `arr[0]`, its worker is the name as given, and the value under the i-th HASH_KEYS name is `arr[1 + i]` (the zip) |
| `AsCollection.RowOf` | lib/sidekiq-status/as_collection.rb:42 | a row's jid is the last segment of the key and its worker is the name as given. Its value under each HASH_KEYS name is the record's field of that name: `update_time`, `status` and `args` |
| `AsCollection.RowsConcat` | lib/sidekiq-status/as_collection.rb:40-43 | projecting rows distributes over concatenating key sequences |
| `AsCollection.Order` | lib/sidekiq-status/as_collection.rb:36-37 | the worker's members, each exactly once, with the numeric `update_time` never increasing along the sequence |
| `Sorting.TopExists` | lib/sidekiq-status/as_collection.rb:36-37 | every non-empty set of members has a member whose weight none exceeds |
| `Sorting.SortDescending` | lib/sidekiq-status/as_collection.rb:36-37 | every member exactly once, and weights never increase along the sequence |
| `Pagination.Limit` | lib/sidekiq-status/as_collection.rb:35 | at most `count` elements, the ones at positions `offset`, `offset + 1`, ..., and exactly as many as the input has from `offset` on, capped at `count` |
| `Pagination.PagesAdjoin` | lib/sidekiq-status/as_collection.rb:35 | the offset `(page-1)*per_page` is 0 for page 1, and each page starts exactly where the previous one ends |
| `Pagination.Page` | lib/sidekiq-status/as_collection.rb:35 | a page holds the elements from its offset on, `per_page` of them or fewer at the end, none past the end |
| `Pagination.PageCount` | lib/sidekiq-status/as_collection.rb:35 | the least number of pages that holds `total` elements |
| `Pagination.PagesArePrefix` | lib/sidekiq-status/as_collection.rb:35 | pages 1 to n together are the first `n * per_page` elements |
| `Pagination.AllPagesYieldAll` | lib/sidekiq-status/as_collection.rb:35 | pages 1 to the page count together are the whole sequence |
| `Pagination.PageBeyondLastIsEmpty` | lib/sidekiq-status/as_collection.rb:35 | a page past the last one is empty |
| `AsCollection.SortedKeys` | lib/sidekiq-status/as_collection.rb:30-45 | fails exactly when `total` does. Otherwise it gives min(`per_page`, members left from the offset) rows, none past the end, and row i is the row of member `(page-1)*per_page + i` of the sorted order. `update_time` never increases from one row to a later one, and every row carries the worker name |
| `AsCollection.SortedKeysDefault` | lib/sidekiq-status/as_collection.rb:30 | with the defaults `page: 1, per_page: 10`: min(10, total) rows, the most recent members in sorted order |
| `AsCollection.SortedKeysIsPageOfOrder` | lib/sidekiq-status/as_collection.rb:33-43 | a page of `sorted_keys` is the rows of that page of the sorted members |
| `AsCollection.RowPages` | lib/sidekiq-status/as_collection.rb:35 | pages 1 to n together have at most n * per_page rows, each with the worker's name |
| `AsCollection.RowPagesAreRowsOfPages` | lib/sidekiq-status/as_collection.rb:33-43 | the rows of pages 1 to n are the rows of the first n pages of the sorted members |
| `AsCollection.AllPagesListEveryMemberOnce` | lib/sidekiq-status/as_collection.rb:35 | reading pages 1 to ceil(total / per_page) gives exactly `total` rows. Row i is the row of the i-th member of one sorted order, and that order lists every member of the set exactly once |

## Left out

- The Redis connection (`Sidekiq.redis`) and the wire commands. The store is a map, and the `sidekiq:status:*` glob is a prefix test.
- Hash and set are the only kinds of value the model stores. Keys holding strings, lists or sorted sets are not modelled.
- The `self.included` hook and the instance-level `keys_collection` delegator (lib/sidekiq-status/as_collection.rb:6-13). They are Ruby wiring; the worker name is a parameter instead.
- The laziness of `.lazy`: `SortedKeys` returns the whole page as a sequence. It reads the store when called and changes nothing.
- How SORT parses `update_time`, what a missing value weighs, and how ties are ordered. These are the `readTime` parameter and an unspecified choice among equal weights.
- SORT's own error when an `update_time` value cannot be read as a number ("One or more scores can't be converted into double"). `readTime` is total, so the model has no path for that reply.
- The value `refresh_collection` returns (nil, or the SADD reply). `RefreshCollection` returns only whether it met WRONGTYPE.
- Other clients writing during a refresh. The refresh runs over one snapshot of the database, so a key that expires or changes between KEYS, its HGET, DEL and SADD is not modelled.
- Ruby's Unicode case mapping in `downcase`: only ASCII letters are lowered.
- AsCollection.SortedKeys: LIMIT arguments above 2^63-1 are not modelled. Redis reads `(page-1)*per_page` and `per_page` as signed 64-bit integers and refuses larger ones ("value is not an integer or out of range"); the model has unbounded integers and returns a page. So "fails exactly when `total` does" holds only for arguments within that range. The same goes for `Pagination.Limit`.
- `page < 1` or `per_page < 1`: the source does not validate these; they are preconditions here.
- lib/sidekiq-status/testing/inline.rb: test stubs that only return constants.
- The status-hash writers, `Sidekiq::Status.delete` and the client middleware that adds job keys to the set are not part of this model. So the tests that go through `perform_async` (spec/lib/sidekiq-status/as_collection_spec.rb:36-88) are not restated.
