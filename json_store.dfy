/** The file-backed user store (storage/json_store.go): an in-memory index
    from user ID to user, rewritten as a whole-array snapshot to one file
    after every change. */
module Storage {
  import opened Models

  datatype Option<T> = None | Some(value: T)

  /** The errors the store hands back: its own two error values and the
      failures of the file operations it calls. */
  datatype Error =
    | UserNotFound   // ErrUserNotFound
    | UserExists     // ErrUserExists
    | FileNotExist   // os.ReadFile: the snapshot file does not exist
    | ReadFailed     // os.ReadFile: any other failure
    | DecodeFailed   // json.Unmarshal: the content is not an array of users
    | WriteFailed    // json.MarshalIndent or os.WriteFile failed
    | MkdirFailed    // os.MkdirAll failed

  /** A Go `error` result: nil, or one of the errors above. */
  datatype Status = Ok | Err(error: Error)

  /** What reading the snapshot file yields, abstracted from its bytes. */
  datatype FileContent =
    | Missing                    // no file at the path
    | Unreadable                 // the file exists but cannot be read
    | Empty                      // zero bytes
    | Malformed                  // bytes that do not decode to an array of users
    | Records(users: seq<User>)  // a JSON array of users, in file order

  // ---------------------------------------------------------------------
  // The index and the snapshot, as values

  /** Every key is the ID of the user stored under it. */
  ghost predicate KeysMatchIds(m: map<string, User>) {
    forall k :: k in m ==> m[k].id == k
  }

  /** No two stored users share an email (exact string equality). */
  ghost predicate UniqueEmails(m: map<string, User>) {
    forall k, k' :: k in m && k' in m && k != k' ==> m[k].email != m[k'].email
  }

  /** Some user, stored under a key other than `exempt`, has this email. */
  ghost predicate EmailTaken(m: map<string, User>, email: string, exempt: Option<string>) {
    exists k :: k in m && m[k].email == email && exempt != Some(k)
  }

  /** The IDs that occur in a sequence of users. */
  function Ids(records: seq<User>): (ids: set<string>) {
    set i | 0 <= i < |records| :: records[i].id
  }

  /** No ID occurs twice in the sequence. */
  ghost predicate DistinctIds(records: seq<User>) {
    forall i, j :: 0 <= i < j < |records| ==> records[i].id != records[j].id
  }

  /** `records` lists every user of `m` exactly once, in some order. */
  ghost predicate IsListing(m: map<string, User>, records: seq<User>) {
    && |records| == |m|
    && (forall i :: 0 <= i < |records| ==> records[i].id in m && m[records[i].id] == records[i])
    && DistinctIds(records)
  }

  /** No later element of `records` has the ID of element `i`. */
  ghost predicate LastWithId(records: seq<User>, i: int)
    requires 0 <= i < |records|
  {
    forall j :: i < j < |records| ==> records[j].id != records[i].id
  }

  /** The index that loading a snapshot builds: each user stored under its ID,
      read front to back, so that of two users with one ID the later wins. */
  function IndexById(records: seq<User>): (m: map<string, User>)
    ensures KeysMatchIds(m)
    ensures m.Keys == Ids(records)
    ensures forall i :: 0 <= i < |records| && LastWithId(records, i) ==> m[records[i].id] == records[i]
  {
    if records == [] then map[]
    else
      var prefix, last := records[..|records| - 1], records[|records| - 1];
      IdsSnoc(prefix, last);
      assert records == prefix + [last];
      IndexById(prefix)[last.id := last]
  }

  /** Appending a user adds its ID to the IDs of a sequence. */
  lemma IdsSnoc(prefix: seq<User>, last: User)
    ensures Ids(prefix + [last]) == Ids(prefix) + {last.id}
  {
    var records := prefix + [last];
    forall x | x in Ids(records) ensures x in Ids(prefix) + {last.id} {
      var i :| 0 <= i < |records| && records[i].id == x;
      if i < |prefix| { assert prefix[i] == records[i]; }
    }
    forall x | x in Ids(prefix) ensures x in Ids(records) {
      var i :| 0 <= i < |prefix| && prefix[i].id == x;
      assert records[i] == prefix[i];
    }
    assert records[|prefix|] == last;
  }

  // ---------------------------------------------------------------------
  // The snapshot round trip

  /** A sequence of users with distinct IDs has as many IDs as elements. */
  lemma {:induction false} DistinctIdsCount(records: seq<User>)
    requires DistinctIds(records)
    ensures |Ids(records)| == |records|
  {
    if records != [] {
      var prefix := records[..|records| - 1];
      var last := records[|records| - 1];
      DistinctIdsCount(prefix);
      IdsSnoc(prefix, last);
      assert records == prefix + [last];
      assert last.id !in Ids(prefix);
    }
  }

  /** A listing of the index names every stored user: its IDs are exactly the
      keys, so each value of the map occurs in it exactly once. */
  lemma {:induction false} ListingCoversMap(m: map<string, User>, records: seq<User>)
    requires IsListing(m, records)
    ensures Ids(records) == m.Keys
    ensures forall k :: k in m ==> exists i :: 0 <= i < |records| && records[i] == m[k]
  {
    DistinctIdsCount(records);
    var ids := Ids(records);
    assert ids <= m.Keys;
    assert ids * m.Keys == ids;
    assert |m.Keys - ids| == 0;
    forall k | k in m ensures exists i :: 0 <= i < |records| && records[i] == m[k] {
      assert k in ids;
      var i :| 0 <= i < |records| && records[i].id == k;
      assert records[i] == m[k];
    }
  }

  /** Loading a snapshot that lists the index rebuilds exactly that index,
      whatever order the listing is in. */
  lemma {:induction false} SnapshotRoundTrip(m: map<string, User>, records: seq<User>)
    requires IsListing(m, records)
    ensures IndexById(records) == m
  {
    ListingCoversMap(m, records);
    var index := IndexById(records);
    forall k | k in m ensures index[k] == m[k] {
      var i :| 0 <= i < |records| && records[i].id == k;
      assert LastWithId(records, i);
    }
  }

  /** Loading a file whose IDs are distinct yields an index that the file
      lists: right after such a load, index and snapshot agree. */
  lemma {:induction false} LoadedIndexListsFile(records: seq<User>)
    requires DistinctIds(records)
    ensures IsListing(IndexById(records), records)
  {
    DistinctIdsCount(records);
    var index := IndexById(records);
    forall i | 0 <= i < |records| ensures index[records[i].id] == records[i] {
      assert LastWithId(records, i);
    }
  }

  /** A file holding two users with one ID loads into an index holding only
      the later of them, so the file is not a listing of that index. */
  lemma LoadKeepsLastOfDuplicateIds(a: User, b: User)
    requires a.id == b.id && a != b
    ensures IndexById([a, b]) == map[b.id := b]
    ensures !IsListing(IndexById([a, b]), [a, b])
  {
  }

  /** An index can be listed only when every key is its user's ID: the
      key/ID invariant is what makes the round trip possible. */
  lemma ListingRequiresMatchingKeys(m: map<string, User>, records: seq<User>)
    requires IsListing(m, records)
    ensures KeysMatchIds(m)
  {
    SnapshotRoundTrip(m, records);
  }

  /** A user keeping its own email never conflicts with itself when emails
      are unique; with no exemption, as on Create, it does. */
  lemma SelfUpdateExempt(m: map<string, User>, user: User)
    requires UniqueEmails(m) && user.id in m && m[user.id].email == user.email
    ensures !EmailTaken(m, user.email, Some(user.id))
    ensures EmailTaken(m, user.email, None)
  {
  }

  /** Loading does not check emails: a file holding two users with one email
      yields an index in which two users share it. */
  lemma LoadKeepsDuplicateEmails(a: User, b: User)
    requires a.id != b.id && a.email == b.email
    ensures !UniqueEmails(IndexById([a, b]))
  {
  }

  // ---------------------------------------------------------------------
  // The store

  class JSONStore {
    /** Path of the snapshot file. */
    const filePath: string
    /** The in-memory index, keyed by user ID. */
    var users: map<string, User>
    /** What the file at `filePath` currently holds. */
    var file: FileContent

    /** The object invariant every operation keeps. */
    ghost predicate Valid()
      reads this
    {
      KeysMatchIds(users)
    }

    /** The file holds a snapshot listing exactly the current index. */
    ghost predicate Persisted()
      reads this
    {
      file.Records? && IsListing(users, file.users)
    }

    /** The struct literal of NewJSONStore: an empty index over the given file. */
    constructor (filePath: string, file: FileContent)
      ensures Valid()
      ensures this.filePath == filePath && this.file == file && users == map[]
    {
      this.filePath := filePath;
      this.file := file;
      users := map[];
    }

    /** Reads the snapshot file into the index. Zero bytes leave the index as
        it is; a decoded array replaces it. */
    method Load() returns (status: Status)
      requires Valid()
      modifies this`users
      ensures Valid()
      ensures file.Missing? ==> status == Err(FileNotExist) && users == old(users)
      ensures file.Unreadable? ==> status == Err(ReadFailed) && users == old(users)
      ensures file.Empty? ==> status == Ok && users == old(users)
      ensures file.Malformed? ==> status == Err(DecodeFailed) && users == old(users)
      ensures file.Records? ==> status == Ok && users == IndexById(file.users)
    {
      match file
      case Missing => return Err(FileNotExist);
      case Unreadable => return Err(ReadFailed);
      case Empty => return Ok;
      case Malformed => return Err(DecodeFailed);
      case Records(records) =>
        users := map[];
        for i := 0 to |records|
          invariant users == IndexById(records[..i])
        {
          assert records[..i + 1][..i] == records[..i];
          users := users[records[i].id := records[i]];
        }
        assert records[..|records|] == records;
        return Ok;
    }

    /** Writes a snapshot of the whole index. Marshalling and writing may
        fail; a failed write may leave the file truncated or half written. */
    method Save() returns (status: Status)
      requires Valid()
      modifies this`file
      ensures status == Ok || status == Err(WriteFailed)
      ensures status == Ok ==> Persisted()
    {
      var snapshot := GetAll();
      var written: bool :| true;
      if written {
        file := Records(snapshot);
        status := Ok;
      } else {
        var leftOver: FileContent :| true;
        file := leftOver;
        status := Err(WriteFailed);
      }
    }

    /** Every stored user, each exactly once, in an unspecified order. */
    method GetAll() returns (all: seq<User>)
      requires Valid()
      ensures IsListing(users, all)
    {
      all := [];
      var rest := users.Keys;
      while rest != {}
        invariant rest <= users.Keys
        invariant |all| + |rest| == |users|
        invariant forall i :: 0 <= i < |all| ==> all[i].id in users && all[i].id !in rest && users[all[i].id] == all[i]
        invariant DistinctIds(all)
        decreases |rest|
      {
        var k :| k in rest;
        all := all + [users[k]];
        rest := rest - {k};
      }
    }

    /** The user stored under `id`, or the zero user and UserNotFound. */
    method GetByID(id: string) returns (user: User, status: Status)
      ensures id in users ==> status == Ok && user == users[id]
      ensures id !in users ==> status == Err(UserNotFound) && user == ZeroUser
    {
      if id !in users {
        return ZeroUser, Err(UserNotFound);
      }
      return users[id], Ok;
    }

    /** Scans the index for a user with this email stored under a key other
        than `exempt`. */
    method EmailInUse(email: string, exempt: Option<string>) returns (taken: bool)
      ensures taken <==> EmailTaken(users, email, exempt)
    {
      var rest := users.Keys;
      while rest != {}
        invariant rest <= users.Keys
        invariant forall k :: k in users && k !in rest ==> users[k].email != email || exempt == Some(k)
        decreases |rest|
      {
        var k :| k in rest;
        if users[k].email == email && exempt != Some(k) {
          return true;
        }
        rest := rest - {k};
      }
      return false;
    }

    /** Adds a user unless its email is already in use. A user with the same
        ID but another email is overwritten. The index keeps the change even
        when the snapshot cannot be written. */
    method Create(user: User) returns (status: Status)
      requires Valid()
      modifies this
      ensures Valid()
      ensures EmailTaken(old(users), user.email, None) ==>
        status == Err(UserExists) && users == old(users) && file == old(file)
      ensures !EmailTaken(old(users), user.email, None) ==>
        users == old(users)[user.id := user] && (status == Ok || status == Err(WriteFailed))
      ensures status == Ok ==> Persisted()
      ensures UniqueEmails(old(users)) ==> UniqueEmails(users)
    {
      var taken := EmailInUse(user.email, None);
      if taken {
        return Err(UserExists);
      }
      users := users[user.id := user];
      status := Save();
    }

    /** Replaces the user with the same ID. The ID must be present, checked
        first; then the email must not belong to a user under another ID. The
        index keeps the change even when the snapshot cannot be written. */
    method Update(user: User) returns (status: Status)
      requires Valid()
      modifies this
      ensures Valid()
      ensures user.id !in old(users) ==>
        status == Err(UserNotFound) && users == old(users) && file == old(file)
      ensures user.id in old(users) && EmailTaken(old(users), user.email, Some(user.id)) ==>
        status == Err(UserExists) && users == old(users) && file == old(file)
      ensures user.id in old(users) && !EmailTaken(old(users), user.email, Some(user.id)) ==>
        users == old(users)[user.id := user] && (status == Ok || status == Err(WriteFailed))
      ensures status == Ok ==> Persisted()
      ensures UniqueEmails(old(users)) ==> UniqueEmails(users)
    {
      if user.id !in users {
        return Err(UserNotFound);
      }
      var taken := EmailInUse(user.email, Some(user.id));
      if taken {
        return Err(UserExists);
      }
      users := users[user.id := user];
      status := Save();
    }

    /** Removes the user stored under `id`. The index keeps the removal even
        when the snapshot cannot be written. */
    method Delete(id: string) returns (status: Status)
      requires Valid()
      modifies this
      ensures Valid()
      ensures id !in old(users) ==>
        status == Err(UserNotFound) && users == old(users) && file == old(file)
      ensures id in old(users) ==>
        users == old(users) - {id} && (status == Ok || status == Err(WriteFailed))
      ensures status == Ok ==> Persisted()
      ensures UniqueEmails(old(users)) ==> UniqueEmails(users)
    {
      if id !in users {
        return Err(UserNotFound);
      }
      users := users - {id};
      status := Save();
    }
  }

  /** Opens a store over the file at `filePath`, whose content is `file`.
      Creating the directory may fail; a missing file is not an error, any
      other read or decode failure is. */
  method NewJSONStore(filePath: string, file: FileContent) returns (store: JSONStore?, status: Status)
    ensures store == null <==> status.Err?
    ensures status.Err? ==> status.error == MkdirFailed
                            || (file.Unreadable? && status.error == ReadFailed)
                            || (file.Malformed? && status.error == DecodeFailed)
    ensures file.Unreadable? || file.Malformed? ==> store == null
    ensures store != null ==> fresh(store) && store.Valid() && store.filePath == filePath && store.file == file
    ensures store != null ==> store.users == if file.Records? then IndexById(file.users) else map[]
    ensures status == Err(MkdirFailed) ==> file.Missing? || file.Unreadable?
    ensures file.Empty? || file.Records? ==> store != null
    ensures store != null && file.Records? && DistinctIds(file.users) ==> store.Persisted()
  {
    var s := new JSONStore(filePath, file);
    // A file that exists sits in an existing directory, for which MkdirAll
    // reports success; only without a readable file can it fail.
    var madeDir: bool := true;
    if file.Missing? || file.Unreadable? {
      madeDir :| true;
    }
    if !madeDir {
      return null, Err(MkdirFailed);
    }
    var loaded := s.Load();
    if file.Records? && DistinctIds(file.users) {
      LoadedIndexListsFile(file.users);
    }
    if loaded.Err? && loaded.error != FileNotExist {
      return null, loaded;
    }
    return s, Ok;
  }

  /** Opening a fresh store over the file that a successful change left
      behind yields the same index. */
  method Reopen(store: JSONStore) returns (copy: JSONStore?)
    requires store.Valid() && store.Persisted()
    ensures copy != null && copy.users == store.users && copy.filePath == store.filePath
  {
    SnapshotRoundTrip(store.users, store.file.users);
    var status;
    copy, status := NewJSONStore(store.filePath, store.file);
  }
}
