/** The per-worker key collection: a Redis set, named after the worker class, that
    lists the keys of the status records belonging to that worker. */
module AsCollection {
  import opened Wrappers
  import opened Strings
  import opened Redis
  import Sorting
  import Pagination

  const Namespace: string := "sidekiq:statuses_all"
  const UpdateTime: string := "update_time"
  /** The record fields each row of `sorted_keys` carries, in row order. */
  const HashKeys: seq<string> := [UpdateTime, "status", "args"]
  /** The scan pattern `sidekiq:status:*`, as the prefix it matches. */
  const StatusPrefix: string := "sidekiq:status:"
  const WorkerField: string := "worker"
  const DefaultPage: nat := 1
  const DefaultPerPage: nat := 10

  // ---------------------------------------------------------------------------
  // keys_collection

  /** The name of the set that indexes `worker`'s status keys: the namespace, a colon
      and the lowercased worker name. */
  function KeysCollection(worker: string): (name: string)
    ensures HasPrefix(name, Namespace + ":")
    ensures |name| == |Namespace| + 1 + |worker|
    ensures forall i :: 0 <= i < |worker| ==> name[|Namespace| + 1 + i] == LowerChar(worker[i])
    ensures forall i :: 0 <= i < |name| ==> !IsUpper(name[i])
    ensures !HasPrefix(name, StatusPrefix)
  {
    var name := Namespace + ":" + Downcase(worker);
    assert name[14] == 'e' && StatusPrefix[14] == ':';
    name
  }

  /** Two workers share a collection exactly when their names agree once lowercased. */
  lemma KeysCollectionIgnoresCase(a: string, b: string)
    ensures KeysCollection(a) == KeysCollection(b) <==> Downcase(a) == Downcase(b)
  {
    var n := |Namespace| + 1;
    if KeysCollection(a) == KeysCollection(b) {
      assert KeysCollection(a)[n..] == Downcase(a);
      assert KeysCollection(b)[n..] == Downcase(b);
    }
  }

  // ---------------------------------------------------------------------------
  // refresh_collection

  /** `key` is one the scan keeps for `worker`: it matches `sidekiq:status:*` and its
      hash has a `worker` field equal to the worker name as given, case and all. */
  predicate IsWorkerKey(db: Db, worker: string, key: string)
    ensures IsWorkerKey(db, worker, key) <==>
      HasPrefix(key, StatusPrefix) && key in db && db[key].Hash?
      && WorkerField in db[key].fields && db[key].fields[WorkerField] == worker
  {
    HasPrefix(key, StatusPrefix) && HGet(db, key, WorkerField) == Success(Some(worker))
  }

  /** `key` matches the scan but its HGET answers WRONGTYPE. */
  predicate BreaksScan(db: Db, key: string)
    ensures BreaksScan(db, key) <==> HasPrefix(key, StatusPrefix) && key in db && db[key].Set?
  {
    HasPrefix(key, StatusPrefix) && HGet(db, key, WorkerField).Failure?
  }

  /** The result of the `select` over the scanned keys. */
  function WorkerKeys(db: Db, worker: string): (keys: set<string>)
    ensures keys <= db.Keys
    ensures forall k :: k in keys <==>
      k in db && HasPrefix(k, StatusPrefix) && db[k].Hash?
      && WorkerField in db[k].fields && db[k].fields[WorkerField] == worker
  {
    set k | k in db && IsWorkerKey(db, worker, k)
  }

  /** The database after `refresh_collection` for `worker`. */
  function Refresh(db: Db, worker: string): (r: Result<Db, Error>)
    ensures r.Failure? <==> exists k :: k in db && BreaksScan(db, k)
    ensures r.Success? ==>
      forall k :: k in Members(r.value, KeysCollection(worker)) <==> k in db && IsWorkerKey(db, worker, k)
    ensures r.Success? ==>
      (KeysCollection(worker) in r.value <==> exists k :: k in db && IsWorkerKey(db, worker, k))
    ensures r.Success? ==> forall k :: k != KeysCollection(worker) ==>
      (k in r.value <==> k in db) && (k in db ==> r.value[k] == db[k])
  {
    if exists k :: k in db && BreaksScan(db, k) then Failure(WrongType)
    else
      var name := KeysCollection(worker);
      var found := WorkerKeys(db, worker);
      var cleared := db - {name};
      if found == {} then Success(cleared) else Success(cleared[name := Set(found)])
  }

  /** A refreshed database keeps Redis's no-empty-value invariant. */
  lemma RefreshWellFormed(db: Db, worker: string)
    requires WellFormed(db) && Refresh(db, worker).Success?
    ensures WellFormed(Refresh(db, worker).value)
  {
  }

  /** A second refresh on an unchanged store finds the same keys and leaves the same state. */
  lemma RefreshIdempotent(db: Db, worker: string)
    requires Refresh(db, worker).Success?
    ensures Refresh(Refresh(db, worker).value, worker) == Refresh(db, worker)
  {
    var name := KeysCollection(worker);
    var d := Refresh(db, worker).value;
    assert forall k :: k in d && HasPrefix(k, StatusPrefix) ==> k != name && k in db && d[k] == db[k];
    assert !exists k :: k in d && BreaksScan(d, k);
    assert WorkerKeys(d, worker) == WorkerKeys(db, worker);
    var found := WorkerKeys(db, worker);
    if found == {} {
      assert name !in d;
      assert d - {name} == d;
    } else {
      assert d[name] == Set(found);
      assert (d - {name})[name := Set(found)] == d;
    }
  }

  /** Refreshing one worker leaves every collection of a worker with another lowercased name alone. */
  lemma RefreshLeavesOtherWorkers(db: Db, worker: string, other: string)
    requires Refresh(db, worker).Success? && Downcase(worker) != Downcase(other)
    ensures Members(Refresh(db, worker).value, KeysCollection(other)) == Members(db, KeysCollection(other))
  {
    KeysCollectionIgnoresCase(worker, other);
  }

  /** A worker named by its own lowercased name reads the same set. */
  lemma LowercasedNameSharesCollection(worker: string)
    ensures KeysCollection(Downcase(worker)) == KeysCollection(worker)
  {
    DowncaseIdempotent(worker);
    KeysCollectionIgnoresCase(Downcase(worker), worker);
  }

  /** Workers whose names differ only in case share one set: after refreshing one, the
      other's collection holds the first one's keys. */
  lemma CaseVariantsShareCollection(db: Db, worker: string, other: string)
    requires Refresh(db, worker).Success? && Downcase(worker) == Downcase(other)
    ensures Members(Refresh(db, worker).value, KeysCollection(other)) == WorkerKeys(db, worker)
  {
  }

  /** The store: one Redis database, shared by all workers. */
  class Store {
    var db: Db

    ghost predicate Valid()
      reads this
    {
      WellFormed(db)
    }

    constructor (initial: Db)
      requires WellFormed(initial)
      ensures Valid() && db == initial
    {
      db := initial;
    }

    /** `refresh_collection`: keep the status keys tagged with `worker`, delete the old
        set, then add those keys (or nothing, when there are none). A matching key that
        holds a set makes the scan fail before anything is deleted. */
    method RefreshCollection(worker: string) returns (outcome: Outcome<Error>)
      requires Valid()
      modifies this
      ensures Valid()
      ensures match Refresh(old(db), worker)
        case Success(d) => outcome == Pass && db == d
        case Failure(e) => outcome == Fail(e) && db == old(db)
    {
      var snapshot := db;
      var remaining := snapshot.Keys;
      var workerKeys: set<string> := {};
      while remaining != {}
        invariant remaining <= snapshot.Keys
        invariant forall k :: k in snapshot && k !in remaining ==> !BreaksScan(snapshot, k)
        invariant workerKeys == set k | k in snapshot && k !in remaining && IsWorkerKey(snapshot, worker, k)
        decreases remaining
      {
        var k :| k in remaining;
        remaining := remaining - {k};
        if HasPrefix(k, StatusPrefix) {
          match snapshot[k]
          case Set(_) =>
            return Fail(WrongType);
          case Hash(fields) =>
            if WorkerField in fields && fields[WorkerField] == worker {
              workerKeys := workerKeys + {k};
            }
        }
      }
      assert workerKeys == WorkerKeys(snapshot, worker);
      RefreshWellFormed(snapshot, worker);
      var name := KeysCollection(worker);
      db := snapshot - {name};
      if workerKeys == {} {
        return Pass;
      }
      db := db[name := Set(workerKeys)];
      outcome := Pass;
    }
  }

  /** The scenario of the collection's own test, for any two distinct worker names: of
      three records tagged `worker` and one tagged `other`, the refresh keeps the three. */
  lemma RefreshExample(worker: string, other: string)
    requires worker != other
    ensures var db := ExampleDb(worker, other);
      Refresh(db, worker).Success?
      && Members(Refresh(db, worker).value, KeysCollection(worker))
         == {"sidekiq:status:foo", "sidekiq:status:foo1", "sidekiq:status:foo2"}
  {
    var db := ExampleDb(worker, other);
    var tagged := {"sidekiq:status:foo", "sidekiq:status:foo1", "sidekiq:status:foo2"};
    assert forall k :: k in db ==> HasPrefix(k, StatusPrefix) && db[k].Hash? by {}
    assert WorkerKeys(db, worker) == tagged by {}
  }

  /** Three status records tagged `worker` and one tagged `other`. */
  function ExampleDb(worker: string, other: string): Db {
    map[
      "sidekiq:status:foo" := Hash(map[WorkerField := worker]),
      "sidekiq:status:foo1" := Hash(map[WorkerField := worker]),
      "sidekiq:status:foo2" := Hash(map[WorkerField := worker]),
      "sidekiq:status:foo3" := Hash(map[WorkerField := other])]
  }

  // ---------------------------------------------------------------------------
  // total

  /** `total`: the cardinality of the worker's set; WRONGTYPE when its key holds a hash. */
  function Total(db: Db, worker: string): (r: Result<nat, Error>)
    ensures r.Failure? <==> KeysCollection(worker) in db && db[KeysCollection(worker)].Hash?
    ensures r.Success? ==> r.value == |Members(db, KeysCollection(worker))|
  {
    match SetAt(db, KeysCollection(worker))
    case Success(m) => Success(|m|)
    case Failure(e) => Failure(e)
  }

  /** In a store with no empty set (what `Store.Valid` keeps), the total is 0 exactly
      when the collection key is absent. */
  lemma TotalZeroIffAbsent(db: Db, worker: string)
    requires WellFormed(db)
    ensures Total(db, worker) == Success(0) <==> KeysCollection(worker) !in db
  {
    var key := KeysCollection(worker);
    if key in db && db[key].Set? {
      assert db[key].members != {};
    }
  }

  /** After a refresh the total is the number of status keys tagged with the worker. */
  lemma TotalAfterRefresh(db: Db, worker: string)
    requires Refresh(db, worker).Success?
    ensures Total(Refresh(db, worker).value, worker) == Success(|WorkerKeys(db, worker)|)
  {
  }

  // ---------------------------------------------------------------------------
  // sorted_keys

  /** One row of `sorted_keys`: `{jid, worker, update_time, status, args}`. A field the
      record lacks (or a record that is gone) reads as nil. */
  datatype Row = Row(jid: Option<string>, worker: string,
                     updateTime: Option<string>, status: Option<string>, args: Option<string>)
  {
    /** The row's value under one of the HASH_KEYS names, as `row[:name]` reads it. */
    function Field(name: string): Option<string> {
      if name == UpdateTime then updateTime
      else if name == "status" then status
      else if name == "args" then args
      else None
    }
  }

  /** `key.split(':').last`: a non-empty field of the key without a colon, or nil when
      the split has no field left. */
  function Jid(key: string): (jid: Option<string>)
    ensures jid.Some? ==> jid.value != [] && ':' !in jid.value
    ensures jid.Some? ==> jid.value in SplitAll(key, ':')
    ensures jid.None? <==> Split(key, ':') == []
  {
    var fields := Split(key, ':');
    if fields == [] then None else Some(fields[|fields| - 1])
  }

  /** The jid is the part after the last colon, whatever comes before it. */
  lemma JidAfterLastColon(p: string, j: string)
    requires j != [] && ':' !in j
    ensures Jid(p + [':'] + j) == Some(j)
  {
    LastFieldAfterSeparator(p, j, ':');
  }

  /** A status key gives back the job id it was built from. */
  lemma JidOfStatusKey(jid: string)
    requires jid != [] && ':' !in jid
    ensures Jid(StatusPrefix + jid) == Some(jid)
  {
    assert StatusPrefix + jid == "sidekiq:status" + [':'] + jid;
    JidAfterLastColon("sidekiq:status", jid);
  }

  /** Ruby's `split` drops trailing empty fields, so separators at the end of a key do
      not change its jid: `sidekiq:status:` gives the jid `status`. */
  lemma JidIgnoresTrailingSeparator(key: string)
    ensures Jid(key + [':']) == Jid(key)
  {
    SplitTrailingSeparator(key, ':');
  }

  /** The values SORT's `GET` patterns read for one field list: one per field. */
  function FieldsAt(db: Db, key: string, names: seq<string>): (r: seq<Option<string>>)
    ensures |r| == |names|
    ensures forall i :: 0 <= i < |names| ==> r[i] == HashField(db, key, names[i])
  {
    if names == [] then [] else [HashField(db, key, names[0])] + FieldsAt(db, key, names[1..])
  }

  /** What `GET #` followed by `GET *->f` for each f in HASH_KEYS returns for one member. */
  function SortGet(db: Db, key: string): (arr: seq<Option<string>>)
    ensures |arr| == 1 + |HashKeys| && arr[0] == Some(key)
    ensures forall i :: 0 <= i < |HashKeys| ==> arr[1 + i] == HashField(db, key, HashKeys[i])
  {
    [Some(key)] + FieldsAt(db, key, HashKeys)
  }

  /** The block of `.map`: the jid from `arr[0]`, the worker name, and HASH_KEYS zipped
      with the rest of `arr`. */
  function ToRow(arr: seq<Option<string>>, worker: string): (row: Row)
    requires |arr| == 1 + |HashKeys| && arr[0].Some?
    ensures row.jid == Jid(arr[0].value) && row.worker == worker
    ensures forall i :: 0 <= i < |HashKeys| ==> row.Field(HashKeys[i]) == arr[1 + i]
  {
    Row(Jid(arr[0].value), worker, arr[1], arr[2], arr[3])
  }

  /** The row of one member: each display field is the record's field of that name. */
  function RowOf(db: Db, worker: string, key: string): (row: Row)
    ensures row.jid == Jid(key) && row.worker == worker
    ensures row.updateTime == HashField(db, key, "update_time")
    ensures row.status == HashField(db, key, "status")
    ensures row.args == HashField(db, key, "args")
    ensures forall i :: 0 <= i < |HashKeys| ==> row.Field(HashKeys[i]) == HashField(db, key, HashKeys[i])
  {
    ToRow(SortGet(db, key), worker)
  }

  /** The `.map` over SORT's results: one row per key, in the order of the keys. */
  function Rows(db: Db, worker: string, keys: seq<string>): (rows: seq<Row>)
    ensures |rows| == |keys|
    ensures forall i :: 0 <= i < |keys| ==> rows[i] == RowOf(db, worker, keys[i])
  {
    seq(|keys|, i requires 0 <= i < |keys| => RowOf(db, worker, keys[i]))
  }

  /** SORT's `BY *->update_time` with `order: 'DESC'`: the worker's members, each once,
      most recent first. A member's weight is its record's `update_time` read as a number
      by `readTime`, which also decides what a missing field counts as. */
  ghost function Order(db: Db, worker: string, readTime: Option<string> -> int): (order: seq<string>)
    ensures |order| == |Members(db, KeysCollection(worker))|
    ensures forall k :: k in order <==> k in Members(db, KeysCollection(worker))
    ensures forall i, j :: 0 <= i < j < |order| ==> order[i] != order[j]
    ensures forall i, j :: 0 <= i < j < |order| ==>
      readTime(HashField(db, order[i], UpdateTime)) >= readTime(HashField(db, order[j], UpdateTime))
  {
    Sorting.SortDescending(Members(db, KeysCollection(worker)), k => readTime(HashField(db, k, UpdateTime)))
  }

  /** `sorted_keys(page:, per_page:)`. */
  ghost function SortedKeys(db: Db, worker: string, readTime: Option<string> -> int,
                            page: nat, perPage: nat): (r: Result<seq<Row>, Error>)
    requires page >= 1 && perPage >= 1
    ensures r.Failure? <==> Total(db, worker).Failure?
    ensures r.Success? ==> |r.value| <= perPage
    ensures r.Success? ==>
      var count := |Order(db, worker, readTime)|;
      var offset := Pagination.Offset(page, perPage);
      |r.value| == if offset < count then Pagination.Min(perPage, count - offset) else 0
    ensures r.Success? ==> forall i :: 0 <= i < |r.value| ==>
      var n := Pagination.Offset(page, perPage) + i;
      n < |Order(db, worker, readTime)| && r.value[i] == RowOf(db, worker, Order(db, worker, readTime)[n])
    ensures r.Success? ==> forall i, j :: 0 <= i < j < |r.value| ==>
      readTime(r.value[i].updateTime) >= readTime(r.value[j].updateTime)
    ensures r.Success? ==> forall i :: 0 <= i < |r.value| ==> r.value[i].worker == worker
  {
    match SetAt(db, KeysCollection(worker))
    case Failure(e) => Failure(e)
    case Success(_) =>
      var order := Order(db, worker, readTime);
      var page := Pagination.Page(order, page, perPage);
      assert forall i :: 0 <= i < |page| ==>
        readTime(HashField(db, page[i], UpdateTime)) == readTime(RowOf(db, worker, page[i]).updateTime);
      Success(Rows(db, worker, page))
  }

  /** `sorted_keys` with its default arguments, `page: 1, per_page: 10`: the ten most
      recent members, or all of them when there are fewer. */
  ghost function SortedKeysDefault(db: Db, worker: string, readTime: Option<string> -> int)
    : (r: Result<seq<Row>, Error>)
    ensures r.Failure? <==> Total(db, worker).Failure?
    ensures r.Success? ==> |r.value| == Pagination.Min(DefaultPerPage, Total(db, worker).value)
    ensures r.Success? ==> forall i :: 0 <= i < |r.value| ==>
      i < |Order(db, worker, readTime)| && r.value[i] == RowOf(db, worker, Order(db, worker, readTime)[i])
  {
    SortedKeys(db, worker, readTime, DefaultPage, DefaultPerPage)
  }

  /** The rows of pages 1 to n, one after the other: at most n * per_page rows, each
      carrying the worker's name. */
  ghost function RowPages(db: Db, worker: string, readTime: Option<string> -> int,
                          perPage: nat, n: nat): (rows: seq<Row>)
    requires perPage >= 1 && Total(db, worker).Success?
    ensures |rows| <= n * perPage
    ensures forall i :: 0 <= i < |rows| ==> rows[i].worker == worker
  {
    if n == 0 then []
    else
      assert n * perPage == (n - 1) * perPage + perPage;
      RowPages(db, worker, readTime, perPage, n - 1) + SortedKeys(db, worker, readTime, n, perPage).value
  }

  lemma {:induction false} RowPagesAreRowsOfPages(db: Db, worker: string, readTime: Option<string> -> int,
                                                  perPage: nat, n: nat)
    requires perPage >= 1 && Total(db, worker).Success?
    ensures RowPages(db, worker, readTime, perPage, n)
         == Rows(db, worker, Pagination.Pages(Order(db, worker, readTime), perPage, n))
  {
    if n > 0 {
      RowPagesAreRowsOfPages(db, worker, readTime, perPage, n - 1);
      var order := Order(db, worker, readTime);
      var a := Pagination.Pages(order, perPage, n - 1);
      var b := Pagination.Page(order, n, perPage);
      SortedKeysIsPageOfOrder(db, worker, readTime, n, perPage);
      RowsConcat(db, worker, a, b);
    }
  }

  /** One page of `sorted_keys` is the rows of that page of the sorted members. */
  lemma SortedKeysIsPageOfOrder(db: Db, worker: string, readTime: Option<string> -> int,
                                page: nat, perPage: nat)
    requires page >= 1 && perPage >= 1 && Total(db, worker).Success?
    ensures SortedKeys(db, worker, readTime, page, perPage)
         == Success(Rows(db, worker, Pagination.Page(Order(db, worker, readTime), page, perPage)))
  {
  }

  /** Projecting rows distributes over concatenation of key sequences. */
  lemma RowsConcat(db: Db, worker: string, a: seq<string>, b: seq<string>)
    ensures Rows(db, worker, a + b) == Rows(db, worker, a) + Rows(db, worker, b)
  {
  }

  /** Reading pages 1 to ceil(total / per_page) lists every member of the collection
      exactly once, most recent first: as many rows as `total`, row i being the row of
      the i-th member in the one sorted order. */
  lemma AllPagesListEveryMemberOnce(db: Db, worker: string, readTime: Option<string> -> int, perPage: nat)
    requires perPage >= 1 && Total(db, worker).Success?
    ensures var order := Order(db, worker, readTime);
      var rows := RowPages(db, worker, readTime, perPage, Pagination.PageCount(Total(db, worker).value, perPage));
      && |rows| == |order| == Total(db, worker).value
      && (forall i :: 0 <= i < |rows| ==> rows[i] == RowOf(db, worker, order[i]))
      && (forall k :: k in order <==> k in Members(db, KeysCollection(worker)))
      && (forall i, j :: 0 <= i < j < |order| ==> order[i] != order[j])
  {
    var order := Order(db, worker, readTime);
    RowPagesAreRowsOfPages(db, worker, readTime, perPage, Pagination.PageCount(|order|, perPage));
    Pagination.AllPagesYieldAll(order, perPage);
  }
}
