/**
 The controller test suite's scenarios, each stated on the model: the table
 is seeded through the store (as the tests seed it through the database
 context), one action runs, and its response and the resulting table are
 checked.
 */
module ControllerScenarios {
  import opened UserTable
  import opened UserStore
  import opened UserController

  /** `new UserTable { Id = id, Name = name }`. */
  function Seed(id: Int32, name: string): User
  {
    Build(UserInit(Some(id), name, None, None, None, None))
  }

  /** Adds the records to the table and saves them together, as one save.
      If the store rejects any record, the save fails as a whole: the result
      is `None` and nothing is persisted. */
  function SeedAll(s: Store, users: seq<User>): (r: Option<Store>)
    ensures r.Some? ==> |r.value.rows| == |s.rows| + |users|
    ensures r.Some? ==> forall k :: k in s.rows ==> k in r.value.rows && r.value.rows[k] == s.rows[k]
    ensures r.Some? ==> s.lastId <= r.value.lastId
    ensures Valid(s) && r.Some? ==> Valid(r.value)
    ensures r.Some? ==>
      forall u :: u in users && u.id != UnsetId ==> u.id in r.value.rows && r.value.rows[u.id] == u
    ensures Valid(s)
      && (forall i :: 0 <= i < |users| ==> users[i].id != UnsetId && users[i].id !in s.rows)
      && (forall i, j :: 0 <= i < j < |users| ==> users[i].id != users[j].id)
      ==> r.Some?
    decreases |users|
  {
    if users == [] then Some(s)
    else
      match Insert(s, users[0])
      case Committed(s', _) =>
        assert forall i :: 1 <= i < |users| ==> users[i] == users[1..][i - 1];
        SeedAll(s', users[1..])
      case Failed(_) => None
  }

  /** Two records with the same key fail the whole save. */
  lemma SeedDuplicateFails()
    ensures SeedAll(Empty, [Seed(1, "user1"), Seed(1, "user2")]) == None
  {
    var s1 := Store(map[1 := Seed(1, "user1")], 1);
    assert Insert(Empty, Seed(1, "user1")) == Committed(s1, Seed(1, "user1"));
    assert [Seed(1, "user1"), Seed(1, "user2")][1..] == [Seed(1, "user2")];
  }

  const Valid0: ModelState := ModelState([])
  const NameRequired: ModelState := ModelState([FieldError("Name", "Name is required")])

  /** Three seeded records are listed as three records in key order. */
  lemma ListThree()
    ensures
      var r := SeedAll(Empty, [Seed(1, "user1"), Seed(2, "user2"), Seed(3, "user3")]);
      && r.Some?
      && var items := GetAll(r.value).response.items;
      && |items| == 3
      && items[0] == Seed(1, "user1")
      && items[1] == Seed(2, "user2")
      && items[2] == Seed(3, "user3")
  {
    var users := [Seed(1, "user1"), Seed(2, "user2"), Seed(3, "user3")];
    var s1 := Store(map[1 := users[0]], 1);
    var s2 := Store(map[1 := users[0], 2 := users[1]], 2);
    var s3 := Store(map[1 := users[0], 2 := users[1], 3 := users[2]], 3);
    assert Insert(Empty, users[0]) == Committed(s1, users[0]);
    assert Insert(s1, users[1]) == Committed(s2, users[1]);
    assert Insert(s2, users[2]) == Committed(s3, users[2]);
    assert users[1..][1..] == [users[2]];
    assert SeedAll(Empty, users) == Some(s3);
    ThreeKeysListed(s3);
  }

  /** A table holding keys 1, 2 and 3 is listed in exactly that order. */
  lemma ThreeKeysListed(s: Store)
    requires Valid(s)
    requires s.rows.Keys == {1, 2, 3}
    ensures
      var items := GetAll(s).response.items;
      |items| == 3 && items[0] == s.rows[1] && items[1] == s.rows[2] && items[2] == s.rows[3]
  {
    var items := GetAll(s).response.items;
    assert |s.rows| == |s.rows.Keys| == 3;
    assert items[0] in items && items[1] in items && items[2] in items;
    assert items[0].id < items[1].id < items[2].id;
  }

  /** Two creates from names alone get keys 1 and 2, and are listed in that
      order with every default applied. */
  lemma PostTwiceThenList()
    ensures
      var o1 := Post(Empty, Valid0, Build(NameOnly("user1")));
      var o2 := Post(o1.store, Valid0, Build(NameOnly("user2")));
      var items := GetAll(o2.store).response.items;
      && o1.response.Created? && o1.response.location == 1
      && o2.response.Created? && o2.response.location == 2
      && |items| == 2
      && items[0] == User(1, "user1", "password", "email@email.com", "", "S")
      && items[1] == User(2, "user2", "password", "email@email.com", "", "S")
  {
    var o1 := Post(Empty, Valid0, Build(NameOnly("user1")));
    var o2 := Post(o1.store, Valid0, Build(NameOnly("user2")));
    assert o2.store.rows.Keys == {1, 2};
    var items := GetAll(o2.store).response.items;
    assert |o2.store.rows| == |o2.store.rows.Keys| == 2;
    assert items[0] in items && items[1] in items;
    assert items[0].id < items[1].id;
  }

  lemma GetSeeded()
    ensures
      var r := SeedAll(Empty, [Seed(1, "user1")]);
      r.Some? && Get(r.value, 1).response == Ok(Seed(1, "user1"))
  {
  }

  lemma GetMissing()
    ensures
      var r := SeedAll(Empty, [Seed(1, "user1")]);
      r.Some? && Get(r.value, 2).response == NotFound
  {
  }

  /** A record created from a name alone gets key 1 and keeps its name. */
  lemma PostCreates()
    ensures
      var r := Post(Empty, Valid0, Build(NameOnly("user1"))).response;
      r.Created? && r.location == 1 && r.created.id == 1 && r.created.name == "user1"
  {
  }

  lemma PostInvalid()
    ensures Post(Empty, NameRequired, Build(NameOnly(""))) == Outcome(BadRequestErrors(NameRequired.errors), Empty)
  {
  }

  lemma PutUpdates()
    ensures
      var r := SeedAll(Empty, [Seed(1, "user1")]);
      && r.Some?
      && var o := Put(r.value, Valid0, 1, Seed(1, "user1_modified"));
      && o.response == Ok(Seed(1, "user1_modified"))
      && Get(o.store, 1).response.body.name == "user1_modified"
  {
  }

  lemma PutInvalid()
    ensures
      var r := SeedAll(Empty, [Seed(1, "user1")]);
      r.Some? && Put(r.value, NameRequired, 1, Seed(1, "")).response.BadRequestErrors?
  {
  }

  lemma PutIdsDontMatch()
    ensures
      var r := SeedAll(Empty, [Seed(1, "user1")]);
      && r.Some?
      && var o := Put(r.value, Valid0, 1, Seed(2, "user1_modified"));
      && o.response == BadRequest
      && Get(o.store, 1).response.body.name == "user1"
  {
  }

  lemma DeleteSeeded()
    ensures
      var r := SeedAll(Empty, [Seed(1, "user1")]);
      && r.Some?
      && var o := Delete(r.value, 1);
      && o.response == Ok(Seed(1, "user1"))
      && |o.store.rows| == 0
  {
  }

  lemma DeleteMissing()
    ensures
      var r := SeedAll(Empty, [Seed(1, "user1")]);
      r.Some? && Delete(r.value, 2).response == NotFound
  {
  }
}
