# Note API: backend selector and request handlers

This project models the application layer of a small note-taking HTTP API
(`note_api/main.py`). Clients create, read, update and list notes. Each note
is an `(id, message)` pair. A pluggable storage backend (in-memory, Redis or
cloud object storage) stores the notes. Two pieces are modelled:

- **The backend selector** (`get_backend`). A process-wide slot starts unset.
  On the first call it reads the BACKEND setting and creates a backend:
  `"redis"` gives Redis, `"gcs"` gives object storage, and anything else gives
  the in-memory backend. An unset setting reads as `"memory"`. Later calls
  return the cached instance and never look at the setting again.
- **The four handlers**. `get_notes` lists the notes. `get_note`,
  `update_note` and `create_note` each make one call on the backend's
  `get`, `set` or `keys`.

The backend implementations live in files this model does not include. So a
backend is kept abstract, as the class `Backends.Backend`. Its state is the
map from ids to notes it holds. Each interface operation is stated over that
map:

- `get(id)` gives the note, or `NotFound(id)` when the id is absent.
- `set(id, request)` is an upsert at `id`.
- `keys()` gives every stored id exactly once, in an unspecified order.

Files:
- `note_model.dfy` (module `NoteModel`): `Note`, `CreateNoteRequest`, `Error`, `Option`, `Result`.
- `backends.dfy` (module `Backends`): the backend kinds, the specification functions `Lookup` and `Upsert`, and the `Backend` class.
- `note_api.dfy` (module `NoteApi`): `SelectKind`, the `BackendSlot` class, the handlers, the listing specification `ListNotes` and the lemmas about it.

Modelling choices:
- `get_notes` is split into two methods. `GetNotes` takes the `keys()` snapshot. `CollectNotes` runs the loop of `get` calls over any list of ids. In this sequential model, `keys()` and `get` always agree, so `GetNotes` cannot fail. `CollectNotes` and `ListNotes` also cover a key list that names an id the store no longer holds. There the listing stops at the first such key and returns its `NotFound`, with no partial list.
- The BACKEND environment variable becomes the parameter `setting` of `GetBackend` (`None` means unset). A new in-memory backend starts empty. A new Redis or object-storage backend starts with the notes the external store already holds, given as the parameter `remote`. `GetBackend` assumes that store keeps each note under its own id (`requires WellFormed(remote)`).
- The generated uuid becomes the parameter `newId` of `CreateNote`. Nothing requires it to be fresh. The claims that depend on freshness are stated under the hypothesis `newId !in old(b.store)`.
- Stored notes satisfy `WellFormed`: each note sits under its own id. This is the object invariant `Backend.Valid()`. A new in-memory backend has it trivially, `set` preserves it, and for a remote store it is an assumption about data written before the process started. The selector's own invariant `BackendSlot.Valid()` says the cached backend is well-formed, so every request after the first can run the handlers on it.

## Model

| member | source | states |
|---|---|---|
| `Backends.Lookup` | note_api/main.py:87 | `get(id)` succeeds exactly when `id` is stored, then returns the stored note; otherwise it fails with `NotFound(id)` |
| `Backends.Upsert` | note_api/main.py:94 | after `set(id, req)` the keys are the old keys plus `id`, `id` holds `Note(id, req.message)`, every other entry is unchanged, and well-formedness is kept |
| `Backends.ReadAfterWrite` | note_api/main.py:94 | a `get` of the written id returns the written note; a `get` of any other id answers as before the write |
| `Backends.LastWriteWins` | note_api/main.py:94 | two writes to one id leave only the second message (replace, not merge) |
| `Backends.UpsertFreshGrows` | note_api/main.py:100-101 | a write to an id not yet stored adds exactly one entry |
| `Backends.Backend.constructor` | note_api/main.py:43-47 | a new backend has the requested kind and the given initial contents, and is well-formed |
| `Backends.Backend.Get` | note_api/main.py:80 | the backend's `get` answers as `Lookup` on its contents |
| `Backends.Backend.Set` | note_api/main.py:94 | the backend's `set` replaces its contents by `Upsert` of the old contents and keeps them well-formed |
| `Backends.Backend.Keys` | note_api/main.py:76 | `keys()` lists every stored id, and nothing else, exactly once |
| `NoteApi.SelectKind` | note_api/main.py:40-47 | `"redis"` gives Redis and only it does; `"gcs"` gives object storage and only it does; every other value, and an unset setting, gives Memory |
| `NoteApi.BackendSlot.constructor` | note_api/main.py:21 | the slot starts unset |
| `NoteApi.BackendSlot.GetBackend` | note_api/main.py:37-48 | afterwards the slot holds the returned backend, which is well-formed; if it was already set, the same instance comes back and the setting is ignored; otherwise a fresh backend of kind `SelectKind(setting)` is created (empty when in-memory) |
| `NoteApi.LaterSettingIgnored` | note_api/main.py:38-40 | two calls from an unset slot return one and the same instance, whose kind is decided by the first call's setting alone |
| `NoteApi.ListNotesSucceeds` | note_api/main.py:76-81 | listing succeeds exactly when every key is stored; then it has one note per key and element i is the note at `keys[i]` |
| `NoteApi.ListNotesFirstMissing` | note_api/main.py:79-80 | when `keys[i]` is the first key that is not stored, listing fails with `NotFound(keys[i])`: no skipping and no partial result |
| `NoteApi.ListNotesOfSnapshot` | note_api/main.py:76-81 | with a faithful `keys()` snapshot of a well-formed store, listing returns every stored note once, in key order, each carrying its key as id |
| `NoteApi.CollectNotes` | note_api/main.py:78-81 | the loop of `get` calls returns exactly `ListNotes` of the store and the key list |
| `NoteApi.GetNotes` | note_api/main.py:74-81 | GET /notes succeeds with as many notes as stored keys, element i being the note at the i-th key of the `keys()` snapshot |
| `NoteApi.GetNote` | note_api/main.py:84-87 | GET /notes/{id} returns exactly the backend's `get(id)`: the note with that id, or `NotFound(id)` exactly when it is absent |
| `NoteApi.UpdateNote` | note_api/main.py:90-94 | PUT /notes/{id} is one upsert at `id`; afterwards `get(id)` has the request's message and every other id answers as before |
| `NoteApi.CreateNote` | note_api/main.py:97-102 | POST /notes returns the id it wrote under; that id then holds the request's message; with a fresh id the key set grows by exactly that id |
| `NoteApi.CreateAllContents` | note_api/main.py:97-102 | a series of creates under distinct ids stores each request under its id, adds exactly those ids and leaves the other entries unchanged |
| `NoteApi.ListAfterCreates` | note_api/main.py:74-102 | creating N notes under distinct ids on a fresh in-memory backend, then listing, gives N notes containing every created (id, message) pair |

## Left out

- FastAPI application setup, route decorators, dependency injection and the redirect handler `redirect_to_notes` (note_api/main.py:7-8, 19, 51-71): HTTP plumbing with no logic of its own.
- OpenTelemetry tracer, span processor, instrumentation and span events (note_api/main.py:13-34, 59-68): side effects in a foreign library.
- `uuid4()`: randomness. The new id is the parameter `newId`, and the model claims nothing about the uniqueness of generated ids.
- `getenv` and `print` in `get_backend`: the environment read is the parameter `setting`, and the print is dropped.
- The Redis, object-storage and in-memory backends and the `Note`/`CreateNoteRequest` definitions (`note_api/backends.py`, `note_api/model.py`) are not part of this model. Backends are described only by their `get`/`set`/`keys` contract over a map. The optional `id` of the source's `Note` is a plain string here, because every stored note carries its id.
- NoteApi.BackendSlot.GetBackend: assumes, through `requires WellFormed(remote)`, that an existing Redis or object store holds each note under its own id. The source's `RedisBackend()` and `GCSBackend()` check nothing of the kind. The id clauses of `GetNote` and `GetNotes` rest on this assumption for those two kinds.
- Remote failures (an unreachable Redis or object store) are not modelled. The only error is `NotFound`.
- Concurrency: the unguarded check-then-set in `get_backend` can create two backends under concurrent first calls, and concurrent requests interleave backend calls. Because the model is sequential, `GetNotes` cannot see a key vanish between `keys()` and `get`. The fail-fast outcome of that race is covered by `CollectNotes`, `ListNotesFirstMissing` and `ListNotesSucceeds`, which treat the vanished key as an id absent from the store.
- Request payload validation: the web framework does it before any handler runs.
