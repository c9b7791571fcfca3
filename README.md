# File-backed user store, modelled in Dafny

This project models the user store of a small REST user service. The store is
`JSONStore` in `storage/json_store.go`. It keeps an in-memory index from user
ID to user record. `GetAll` and `GetByID` read the index. `Create`, `Update`
and `Delete` check their preconditions, change the index in place and then
call `save`. `save` rewrites the whole index to one JSON file as an array of
records. When the store is opened, `load` rebuilds the index from that array.

Files:

- `models.dfy` (module `Models`): the `User` record of `models/user.go` and
  its zero value.
- `json_store.dfy` (module `Storage`): the error values and file contents; the
  index and the snapshot as values (`IndexById`, `IsListing`, `UniqueEmails`,
  `EmailTaken`) with the round-trip lemmas; and the class `JSONStore` with one
  method per Go method, plus the opening function `NewJSONStore`. The one
  method without a Go counterpart is `EmailInUse`: it is the email scan loop
  that Go writes out inside both `Create` and `Update`.
- `scenario.dfy` (module `StoreScenario`): a client that runs create,
  conflicting create, self-update, update, delete and lookup. Its result is
  proved from the store's contracts alone.

Modelling decisions:

- The index is the field `users: map<string, User>`. The file at `filePath` is
  the field `file: FileContent`. That value is `Missing`, `Unreadable`,
  `Empty` (zero bytes), `Malformed` (not a JSON array of users) or
  `Records(seq<User>)`.
- `Valid()` is the key/ID invariant: every key is the ID of the user stored
  under it. Every operation keeps it.
- Email uniqueness is not part of `Valid()`, because `load` does not check it
  (`LoadKeepsDuplicateEmails`). Instead `Create`, `Update` and `Delete` each
  promise: if no two users shared an email before the call, none do after it,
  whether the call succeeded or failed.
- Marshalling plus `os.WriteFile` either succeeds or fails, chosen
  nondeterministically. After a failed write the file's content is left
  unconstrained, since the write may have truncated or half written it.
  `os.MkdirAll` succeeds or fails nondeterministically only when there is no
  readable file; a file that exists means its directory exists, and then
  `os.MkdirAll` succeeds.
- There is no rollback. The index is changed before `save` runs, and it keeps
  the change when `save` fails. The contracts of `Create`, `Update` and
  `Delete` state the new index for success and for a failed write alike.
- Emails are compared by exact string equality. Timestamps are integers that
  the store only copies.

## Model

| member | source | states |
|---|---|---|
| `Storage.IndexById` | storage/json_store.go:62-65 | the index that loading an array builds: each key is its user's ID, the keys are exactly the IDs in the array, and of users with the same ID the last one wins |
| `Storage.ListingCoversMap` | storage/json_store.go:90-95 | a listing of the index has exactly the index's keys as its IDs, so every stored user appears in it, exactly once |
| `Storage.SnapshotRoundTrip` | storage/json_store.go:53-77 | loading an array that lists the index, in any order, rebuilds exactly that index |
| `Storage.ListingRequiresMatchingKeys` | storage/json_store.go:63-65 | only an index whose keys are its users' IDs can be listed, so the key/ID invariant is what makes the round trip hold |
| `Storage.SelfUpdateExempt` | storage/json_store.go:137-141 | when emails are unique, a user that keeps its own email conflicts with nobody under another ID, but does count as a conflict when no ID is exempt, as on Create |
| `Storage.LoadedIndexListsFile` | storage/json_store.go:62-65 | loading a file whose IDs are distinct gives an index that the file lists exactly, so index and snapshot agree right after the load |
| `Storage.LoadKeepsLastOfDuplicateIds` | storage/json_store.go:63-65 | of two users with one ID in the file only the later is loaded, so such a file does not list the index it loads into |
| `Storage.LoadKeepsDuplicateEmails` | storage/json_store.go:57-65 | loading a file with two users of different IDs and one email gives an index where two users share that email |
| `Storage.JSONStore.constructor` | storage/json_store.go:27-30 | a new store has the given path and file and an empty index |
| `Storage.JSONStore.Load` | storage/json_store.go:47-68 | a missing, unreadable or malformed file gives its error and leaves the index alone; zero bytes succeed and leave the index alone; an array succeeds and replaces the index with `IndexById` of it |
| `Storage.JSONStore.Save` | storage/json_store.go:71-83 | the result is success or a write error; on success the file holds an array listing every stored user exactly once |
| `Storage.JSONStore.GetAll` | storage/json_store.go:86-96 | returns every stored user exactly once: as many elements as the index has keys, each equal to the user stored under its ID, no ID twice |
| `Storage.JSONStore.GetByID` | storage/json_store.go:99-109 | a present ID gives its stored user and no error; an absent ID gives the zero user and UserNotFound |
| `Storage.JSONStore.EmailInUse` | storage/json_store.go:116-121 | true exactly when some user stored under a key other than the exempt one has the email |
| `Storage.JSONStore.Create` | storage/json_store.go:112-125 | if any stored user has the email: UserExists, index and file unchanged; otherwise the user is stored under its ID (overwriting any user with that ID), every other key unchanged, even if the write then fails; success means the file lists the index; unique emails stay unique |
| `Storage.JSONStore.Update` | storage/json_store.go:128-145 | an absent ID gives UserNotFound, checked first, nothing changed; another ID holding the email gives UserExists, nothing changed; otherwise the user replaces the stored one, every other key unchanged, even if the write then fails; unique emails stay unique |
| `Storage.JSONStore.Delete` | storage/json_store.go:148-158 | an absent ID gives UserNotFound, nothing changed; otherwise exactly that key is removed, even if the write then fails; success means the file lists the index |
| `Storage.NewJSONStore` | storage/json_store.go:26-44 | fails only when the directory cannot be created (possible only for a missing or unreadable file) or the file is unreadable or malformed, never for a missing file; always succeeds for a zero-byte file or an array; the result is a fresh valid store whose index is `IndexById` of the file's array, or empty for a missing or zero-byte file; an array with distinct IDs lists the loaded index |
| `Storage.Reopen` | storage/json_store.go:39-41 | opening a second store over the file a successful change wrote always succeeds and gives the same index |
| `StoreScenario.CreateConflictUpdateDelete` | storage/json_store.go:112-158 | from a missing file: create A, fail to create B with A's email, update A keeping its email, move A to a new email, delete A; the final lookup of A gives UserNotFound |
| `StoreScenario.OpenEmptyFile` | storage/json_store.go:53-55 | opening a store over a zero-byte file succeeds and listing it gives no users |

## Left out

- The `sync.RWMutex` locking: each operation is treated as atomic and
  sequential. Concurrency is not modelled.
- Byte-level JSON encoding and decoding, `os.ReadFile`, `os.WriteFile` and
  `os.MkdirAll`: the file is the abstract `FileContent` value, and each
  failure is a nondeterministic outcome or a distinct `FileContent` case.
- `json.MarshalIndent` failing, for example on a timestamp it cannot encode,
  is folded into the same `WriteFailed` outcome as a failed write.
- `os.IsNotExist` is modelled as "the file is `Missing`". Which operating
  system errors count as not-exist is not modelled.
- Storage.JSONStore.Save: after a failed write the file content is
  unconstrained. The model does not say which partial content a failed write
  leaves.
- Storage.JSONStore.GetAll: Go's `GetAll` also returns an `error`. It is
  always nil, so the model returns only the sequence. The order of Go's map
  iteration is unspecified, so the contract fixes none.
- Strings are sequences of characters. Go strings are bytes, and
  `json.MarshalIndent` replaces invalid UTF-8 with U+FFFD, so the round trip
  holds exactly only for valid UTF-8 strings, which is all the HTTP layer
  passes; invalid byte strings are not modelled.
- Email-format and non-empty-name validation belong to the HTTP layer's
  binding tags, not to the store. Emails are opaque strings.
- `time.Time` semantics: timestamps are opaque integers. Copying
  `CreatedAt` forward on update happens in the HTTP handler, not the store.
- `handlers/user.go` and `main.go` (HTTP routing, telemetry, ID generation,
  clock access, environment configuration) are not part of this model.
