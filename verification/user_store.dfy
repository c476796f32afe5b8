/**
 The user table as the controller observes it through its database context:
 a keyed collection of rows plus the table's key sequence. `lastId` is the
 larger of 0 and every key the table has ever held (the value an
 AUTOINCREMENT sequence keeps). A generated key is larger than `lastId` (the model picks
 `lastId + 1`), so keys of deleted rows are never handed out again.
 */
module UserStore {
  import opened UserTable

  datatype Store = Store(rows: map<Int32, User>, lastId: nat)

  /** A freshly created, empty table. */
  const Empty: Store := Store(map[], 0)

  /** The table invariant: every row is stored under its own `Id`, and no
      key exceeds the sequence. */
  predicate Valid(s: Store)
  {
    forall k :: k in s.rows ==> s.rows[k].id == k && k <= s.lastId
  }

  /** On a valid table `Id` is a key: distinct rows carry distinct ids, and
      the row with a given id is the one stored under it. */
  lemma KeysAreIds(s: Store, a: Int32, b: Int32)
    requires Valid(s)
    requires a in s.rows && b in s.rows
    ensures s.rows[a].id == s.rows[b].id <==> a == b
    ensures s.rows[a].id == a
  {
  }

  /** Why a write that reaches the database fails. */
  datatype StoreFailure =
    | DuplicateKey(key: Int32)   // an insert under a key the table already holds
    | KeysExhausted             // the next generated key does not fit in an `int`
    | RowMissing(key: Int32)    // an update of a row that is not there (0 rows affected)

  /** The result of saving one change: the new table and the row as persisted
      (with its key), or the failure the save raised. */
  datatype Commit = Committed(store: Store, row: User) | Failed(failure: StoreFailure)

  /** Every non-empty set of keys has a smallest element. */
  lemma {:induction false} LeastOf(keys: set<Int32>) returns (m: Int32)
    requires keys != {}
    ensures m in keys
    ensures forall k :: k in keys ==> m <= k
    decreases |keys|
  {
    var x :| x in keys;
    var rest := keys - {x};
    if rest == {} {
      m := x;
    } else {
      var least := LeastOf(rest);
      m := if x < least then x else least;
    }
    forall k | k in keys
      ensures m <= k
    {
      if k != x {
        assert k in rest;
      }
    }
  }

  lemma LeastExists(keys: set<Int32>)
    requires keys != {}
    ensures exists m :: m in keys && forall k :: k in keys ==> m <= k
  {
    var m := LeastOf(keys);
    assert m in keys && forall k :: k in keys ==> m <= k;
  }

  /** The smallest key of a non-empty set of keys. */
  function Least(keys: set<Int32>): (m: Int32)
    requires keys != {}
    ensures m in keys
    ensures forall k :: k in keys ==> m <= k
  {
    LeastExists(keys);
    var m :| m in keys && forall k :: k in keys ==> m <= k;
    m
  }

  /** The keys in ascending order, each exactly once. */
  function SortedKeys(keys: set<Int32>): (r: seq<Int32>)
    ensures |r| == |keys|
    ensures forall k :: k in r <==> k in keys
    ensures forall i, j :: 0 <= i < j < |r| ==> r[i] < r[j]
    decreases |keys|
  {
    if keys == {} then []
    else
      var m := Least(keys);
      [m] + SortedKeys(keys - {m})
  }

  /** The rows stored under `ks`, in the order of `ks`. */
  function RowsAt(rows: map<Int32, User>, ks: seq<Int32>): (r: seq<User>)
    requires forall k :: k in ks ==> k in rows
    ensures |r| == |ks|
    ensures forall i :: 0 <= i < |ks| ==> r[i] == rows[ks[i]]
  {
    seq(|ks|, i requires 0 <= i < |ks| => rows[ks[i]])
  }

  /** A full scan of the table: every row once, in ascending key order. */
  function Listing(s: Store): (r: seq<User>)
    ensures |r| == |s.rows|
    ensures Valid(s) ==> forall i, j :: 0 <= i < j < |r| ==> r[i].id < r[j].id
    ensures Valid(s) ==> forall u :: u in r <==> u.id in s.rows && s.rows[u.id] == u
  {
    var ks := SortedKeys(s.rows.Keys);
    var r := RowsAt(s.rows, ks);
    ListingFacts(s, ks, r);
    r
  }

  lemma ListingFacts(s: Store, ks: seq<Int32>, r: seq<User>)
    requires |ks| == |s.rows.Keys|
    requires forall k :: k in ks <==> k in s.rows
    requires forall i, j :: 0 <= i < j < |ks| ==> ks[i] < ks[j]
    requires |r| == |ks|
    requires forall i :: 0 <= i < |ks| ==> r[i] == s.rows[ks[i]]
    ensures |r| == |s.rows|
    ensures Valid(s) ==> forall i, j :: 0 <= i < j < |r| ==> r[i].id < r[j].id
    ensures Valid(s) ==> forall u :: u in r <==> u.id in s.rows && s.rows[u.id] == u
  {
    if Valid(s) {
      forall u: User | u.id in s.rows && s.rows[u.id] == u
        ensures u in r
      {
        var i :| 0 <= i < |ks| && ks[i] == u.id;
        assert r[i] == u;
      }
    }
  }

  /** Inserts `u`. A record whose `Id` is unset gets the next key of the
      sequence; a record whose `Id` is set is stored under that key, and a
      committed insert moves the sequence up to that key if it is larger. */
  function Insert(s: Store, u: User): (c: Commit)
    ensures Valid(s) ==>
      (c.Committed? <==> if u.id == UnsetId then s.lastId < MaxInt32 else u.id !in s.rows)
    ensures c.Committed? ==>
      && c.row.id !in s.rows
      && c.row == u.(id := c.row.id)
      && c.store.rows == s.rows[c.row.id := c.row]
      && |c.store.rows| == |s.rows| + 1
    ensures c.Committed? && u.id != UnsetId ==> c.row.id == u.id
    ensures c.Committed? && u.id == UnsetId ==> c.row.id > s.lastId
    ensures c.Committed? ==> s.lastId <= c.store.lastId && c.row.id <= c.store.lastId
    ensures c.Failed? ==> c.failure.DuplicateKey? || (c.failure.KeysExhausted? && u.id == UnsetId)
    ensures Valid(s) && c.Committed? ==> Valid(c.store)
  {
    if u.id == UnsetId then
      if s.lastId >= MaxInt32 then Failed(KeysExhausted)
      else
        var k: Int32 := s.lastId + 1;
        if k in s.rows then Failed(DuplicateKey(k))
        else
          var row := u.(id := k);
          Committed(Store(s.rows[k := row], k), row)
    else if u.id in s.rows then Failed(DuplicateKey(u.id))
    else
      var last: nat := if u.id > s.lastId then u.id else s.lastId;
      Committed(Store(s.rows[u.id := u], last), u)
  }

  /** Overwrites the row stored under `u.id` with `u`; fails when there is
      no such row, and never inserts one. */
  function Update(s: Store, u: User): (c: Commit)
    ensures c.Committed? <==> u.id in s.rows
    ensures c.Failed? ==> c.failure == RowMissing(u.id)
    ensures c.Committed? ==>
      && c.row == u
      && c.store.rows == s.rows[u.id := u]
      && c.store.rows.Keys == s.rows.Keys
      && c.store.lastId == s.lastId
    ensures Valid(s) && c.Committed? ==> Valid(c.store)
  {
    if u.id !in s.rows then Failed(RowMissing(u.id))
    else Committed(Store(s.rows[u.id := u], s.lastId), u)
  }

  /** Deletes the row stored under `key`, leaving the sequence as it is. */
  function Remove(s: Store, key: Int32): (r: Store)
    ensures r.rows.Keys == s.rows.Keys - {key}
    ensures forall k :: k in r.rows ==> r.rows[k] == s.rows[k]
    ensures r.lastId == s.lastId
    ensures Valid(s) ==> Valid(r)
  {
    Store(s.rows - {key}, s.lastId)
  }
}
