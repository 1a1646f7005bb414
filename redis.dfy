/** The part of the Redis data model the collection index touches: one keyspace
    whose keys hold either a hash or a set. */
module Redis {
  import opened Wrappers

  /** The WRONGTYPE reply: a command met a key holding the other kind of value. */
  datatype Error = WrongType

  datatype Value = Hash(fields: map<string, string>) | Set(members: set<string>)

  type Db = map<string, Value>

  /** Redis keeps no empty hash and no empty set: a key whose last element goes is gone. */
  ghost predicate WellFormed(db: Db) {
    forall k :: k in db ==> db[k] != Hash(map[]) && db[k] != Set({})
  }

  /** How SORT's `BY *->field` and `GET *->field` patterns read a field: nil unless
      the key holds a hash that has the field. */
  function HashField(db: Db, key: string, field: string): Option<string> {
    if key in db && db[key].Hash? && field in db[key].fields then Some(db[key].fields[field])
    else None
  }

  /** HGET key field: nil when the key or the field is missing, WRONGTYPE when the key
      holds a set. What it reads is what SORT's patterns read. */
  function HGet(db: Db, key: string, field: string): (r: Result<Option<string>, Error>)
    ensures r.Failure? <==> key in db && db[key].Set?
    ensures r.Success? ==> r.value == HashField(db, key, field)
  {
    if key !in db then Success(None)
    else match db[key]
      case Set(_) => Failure(WrongType)
      case Hash(fields) => Success(if field in fields then Some(fields[field]) else None)
  }

  /** The members of the set at `key`, as SMEMBERS, SCARD and SORT see it: empty when
      the key is absent, WRONGTYPE when it holds a hash. */
  function SetAt(db: Db, key: string): Result<set<string>, Error> {
    if key !in db then Success({})
    else match db[key]
      case Set(m) => Success(m)
      case Hash(_) => Failure(WrongType)
  }

  /** The members of the set at `key`; empty when there is none. */
  function Members(db: Db, key: string): set<string> {
    match SetAt(db, key)
    case Success(m) => m
    case Failure(_) => {}
  }
}
