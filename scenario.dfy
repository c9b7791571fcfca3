/** A client of the store: the create / conflict / update / delete sequence
    the service goes through, proved from the store's contracts alone. */
module StoreScenario {
  import opened Models
  import opened Storage

  /** Starting from no file: A is created, B with A's email is refused, A
      is renamed keeping its email, A moves to a new email, A is deleted;
      the last lookup of A then fails. The snapshot writes may fail at any
      step; that does not change what the index holds. */
  method CreateConflictUpdateDelete() returns (lookup: Status)
    ensures lookup == Err(UserNotFound) || lookup == Err(MkdirFailed)
  {
    var store, openStatus := NewJSONStore("data/users.json", Missing);
    if store == null {
      return openStatus;
    }
    var a := User("a", "Ann", "a@x.com", 1, 1);
    var b := User("b", "Bob", "a@x.com", 2, 2);
    var s := store.Create(a);
    assert store.users == map["a" := a];

    s := store.Create(b);
    assert store.users["a"].email == b.email;
    assert s == Err(UserExists) && store.users == map["a" := a];

    var renamed := User("a", "Annie", "a@x.com", 1, 3);
    s := store.Update(renamed);
    assert store.users == map["a" := renamed];

    var a2 := User("a", "Ann", "b@x.com", 1, 4);
    s := store.Update(a2);
    assert store.users == map["a" := a2];
    var all := store.GetAll();
    assert |all| == 1 && all[0] == a2;

    s := store.Delete("a");
    assert store.users == map[];
    all := store.GetAll();
    assert all == [];

    var found;
    found, lookup := store.GetByID("a");
  }

  /** Opening a store over a zero-byte file succeeds, and listing it gives
      no users. */
  method OpenEmptyFile() returns (all: seq<User>, status: Status)
    ensures status == Ok && all == []
  {
    var store;
    store, status := NewJSONStore("data/users.json", Empty);
    all := store.GetAll();
  }
}
