/** The storage interface every backend (memory, Redis, cloud object
    storage) offers the request handlers: `get`, `set` and `keys`. The
    implementations themselves are not part of this model; a backend is
    described by the map from ids to notes it holds, and each operation by
    what it does to that map. */
module Backends {
  import opened NoteModel

  /** The three implementations the selector can choose between. */
  datatype BackendKind = Memory | Redis | Gcs

  /** Every note is stored under its own id. */
  predicate WellFormed(store: map<string, Note>)
  {
    forall k :: k in store ==> store[k].id == k
  }

  /** What `get(id)` answers on a backend holding `store`. */
  function Lookup(store: map<string, Note>, id: string): (r: Result<Note>)
    ensures r.Ok? <==> id in store
    ensures r.Ok? ==> r.value == store[id]
    ensures r.Err? ==> r.error == NotFound(id)
  {
    if id in store then Ok(store[id]) else Err(NotFound(id))
  }

  /** What `set(id, request)` leaves behind: the note at `id` is created or
      wholly replaced, and every other entry stays as it was. */
  function Upsert(store: map<string, Note>, id: string, request: CreateNoteRequest): (r: map<string, Note>)
    ensures r.Keys == store.Keys + {id}
    ensures r[id] == Note(id, request.message)
    ensures forall k :: k in store && k != id ==> r[k] == store[k]
    ensures WellFormed(store) ==> WellFormed(r)
  {
    store[id := Note(id, request.message)]
  }

  /** Reading back what was just written gives the written note; reading any
      other id gives what it gave before the write. */
  lemma ReadAfterWrite(store: map<string, Note>, id: string, request: CreateNoteRequest, other: string)
    ensures Lookup(Upsert(store, id, request), id) == Ok(Note(id, request.message))
    ensures other != id ==> Lookup(Upsert(store, id, request), other) == Lookup(store, other)
  {
  }

  /** Writing the same id twice keeps only the second message: `set` replaces,
      it never merges. */
  lemma LastWriteWins(store: map<string, Note>, id: string, first: CreateNoteRequest, second: CreateNoteRequest)
    ensures Upsert(Upsert(store, id, first), id, second) == Upsert(store, id, second)
  {
  }

  /** A fresh id adds exactly one entry. */
  lemma UpsertFreshGrows(store: map<string, Note>, id: string, request: CreateNoteRequest)
    requires id !in store
    ensures |Upsert(store, id, request)| == |store| + 1
  {
  }

  /** One backend instance. `store` is the content of the underlying storage
      as the handlers observe it through `get`, `set` and `keys`. */
  class Backend {
    const kind: BackendKind
    var store: map<string, Note>

    ghost predicate Valid()
      reads this
    {
      WellFormed(store)
    }

    constructor (kind: BackendKind, initial: map<string, Note>)
      requires WellFormed(initial)
      ensures Valid()
      ensures this.kind == kind && store == initial
    {
      this.kind := kind;
      store := initial;
    }

    /** `get(id)`: the note at `id`, or `NotFound(id)`. */
    method Get(id: string) returns (r: Result<Note>)
      ensures r == Lookup(store, id)
    {
      r := Lookup(store, id);
    }

    /** `set(id, request)`: an upsert at `id`. */
    method Set(id: string, request: CreateNoteRequest)
      requires Valid()
      modifies this
      ensures Valid()
      ensures store == Upsert(old(store), id, request)
    {
      store := Upsert(store, id, request);
    }

    /** `keys()`: a snapshot listing every stored id exactly once, in an order
        the interface leaves open. */
    method Keys() returns (ks: seq<string>)
      ensures Distinct(ks)
      ensures forall k :: k in ks <==> k in store
    {
      ks := [];
      var rest := store.Keys;
      while rest != {}
        invariant rest <= store.Keys
        invariant forall k :: k in store <==> k in rest || k in ks
        invariant forall k :: k in ks ==> k !in rest
        invariant Distinct(ks)
        decreases rest
      {
        var k :| k in rest;
        ks := ks + [k];
        rest := rest - {k};
      }
    }
  }
}
