/** The application layer of the note API: the process-wide backend
    selector and the four request handlers, which turn HTTP requests into
    calls on a backend's `get`, `set` and `keys`. */
module NoteApi {
  import opened NoteModel
  import opened Backends

  // ---------------------------------------------------------------------
  // Backend selector
  // ---------------------------------------------------------------------

  /** The kind chosen for the BACKEND setting (`None` when it is unset, in
      which case it reads as "memory"): "redis" and "gcs" pick those
      backends, every other value picks the in-memory one. */
  function SelectKind(setting: Option<string>): (k: BackendKind)
    ensures k == Redis <==> setting == Some("redis")
    ensures k == Gcs <==> setting == Some("gcs")
    ensures k == Memory <==> setting != Some("redis") && setting != Some("gcs")
    ensures setting == None ==> k == Memory
  {
    var backendType := match setting case Some(v) => v case None => "memory";
    if backendType == "redis" then Redis
    else if backendType == "gcs" then Gcs
    else Memory
  }

  /** The module-level slot holding the one backend of the process. It
      starts unset; the first `GetBackend` fills it and it never changes
      afterwards. */
  class BackendSlot {
    var slot: Option<Backend>

    /** A cached backend, once there is one, keeps its object invariant. */
    ghost predicate Valid()
      reads this, if slot.Some? then {slot.value} else {}
    {
      slot.Some? ==> slot.value.Valid()
    }

    constructor ()
      ensures Valid() && slot == None
    {
      slot := None;
    }

    /** Returns the cached backend, creating it on the first call only.
        `setting` is the BACKEND configuration value and `remote` what an
        external store (Redis or object storage) already holds when it is
        connected; both are consulted only while the slot is unset. A new
        in-memory backend starts empty. */
    method GetBackend(setting: Option<string>, remote: map<string, Note>) returns (b: Backend)
      requires Valid() && WellFormed(remote)
      modifies this
      ensures Valid() && b.Valid()
      ensures slot == Some(b)
      ensures old(slot).Some? ==> b == old(slot).value
      ensures old(slot).None? ==> fresh(b) && b.Valid() && b.kind == SelectKind(setting)
      ensures old(slot).None? ==> b.store == if b.kind == Memory then map[] else remote
    {
      if slot.None? {
        var kind := SelectKind(setting);
        if kind == Redis {
          b := new Backend(Redis, remote);
        } else if kind == Gcs {
          b := new Backend(Gcs, remote);
        } else {
          b := new Backend(Memory, map[]);
        }
        slot := Some(b);
      }
      b := slot.value;
    }
  }

  /** Two calls in a row on an unset slot return the same instance, whatever
      the setting reads at the second call: only the first setting counts. */
  method LaterSettingIgnored(s: BackendSlot, first: Option<string>, later: Option<string>, remote: map<string, Note>)
    returns (b1: Backend, b2: Backend)
    requires s.Valid() && s.slot == None && WellFormed(remote)
    modifies s
    ensures b1 == b2 && s.slot == Some(b1)
    ensures b2.kind == SelectKind(first)
  {
    b1 := s.GetBackend(first, remote);
    b2 := s.GetBackend(later, remote);
  }

  // ---------------------------------------------------------------------
  // Listing
  // ---------------------------------------------------------------------

  /** The answer of GET /notes when `keys()` returned `keys`: one `get` per
      key, in order, stopping at the first `get` that fails. */
  function ListNotes(store: map<string, Note>, keys: seq<string>): Result<seq<Note>>
    decreases |keys|
  {
    if keys == [] then Ok([])
    else
      match ListNotes(store, keys[..|keys| - 1])
      case Err(e) => Err(e)
      case Ok(notes) =>
        match Lookup(store, keys[|keys| - 1])
        case Err(e) => Err(e)
        case Ok(n) => Ok(notes + [n])
  }

  /** Listing succeeds exactly when every key is stored, and then element i is
      the note stored at keys[i]. */
  lemma {:induction false} ListNotesSucceeds(store: map<string, Note>, keys: seq<string>)
    ensures ListNotes(store, keys).Ok? <==> forall k :: k in keys ==> k in store
    ensures ListNotes(store, keys).Ok? ==>
              |ListNotes(store, keys).value| == |keys| &&
              forall i :: 0 <= i < |keys| ==> ListNotes(store, keys).value[i] == store[keys[i]]
    decreases |keys|
  {
    if keys != [] {
      var prefix := keys[..|keys| - 1];
      ListNotesSucceeds(store, prefix);
      assert forall k :: k in keys <==> k in prefix || k == keys[|keys| - 1];
      if ListNotes(store, keys).Ok? {
        var notes := ListNotes(store, prefix).value;
        assert ListNotes(store, keys).value == notes + [store[keys[|keys| - 1]]];
        forall i | 0 <= i < |keys|
          ensures ListNotes(store, keys).value[i] == store[keys[i]]
        {
          if i < |keys| - 1 {
            assert keys[i] == prefix[i];
          }
        }
      }
    }
  }

  /** Listing fails fast: when keys[i] is the first key that is not stored,
      the answer is that key's NotFound and no partial list. */
  lemma {:induction false} ListNotesFirstMissing(store: map<string, Note>, keys: seq<string>, i: nat)
    requires i < |keys| && keys[i] !in store
    requires forall j :: 0 <= j < i ==> keys[j] in store
    ensures ListNotes(store, keys) == Err(NotFound(keys[i]))
    decreases |keys|
  {
    var prefix := keys[..|keys| - 1];
    if i == |keys| - 1 {
      assert forall k :: k in prefix ==> k in store by {
        forall k | k in prefix ensures k in store {
          var j :| 0 <= j < |prefix| && prefix[j] == k;
          assert keys[j] == k;
        }
      }
      ListNotesSucceeds(store, prefix);
    } else {
      assert prefix[i] == keys[i];
      ListNotesFirstMissing(store, prefix, i);
    }
  }

  /** A list of distinct strings has as many elements as its set. */
  lemma {:induction false} DistinctCardinality(s: seq<string>)
    requires Distinct(s)
    ensures |set k | k in s| == |s|
    decreases |s|
  {
    if s != [] {
      var tail := s[1..];
      assert Distinct(tail);
      DistinctCardinality(tail);
      assert (set k | k in s) == (set k | k in tail) + {s[0]};
      assert s[0] !in tail;
    }
  }

  /** When `keys` is a faithful snapshot of a well-formed store, listing
      returns every stored note once, in the order of `keys`. */
  lemma ListNotesOfSnapshot(store: map<string, Note>, keys: seq<string>)
    requires WellFormed(store) && Distinct(keys)
    requires forall k :: k in keys <==> k in store
    ensures ListNotes(store, keys).Ok?
    ensures |ListNotes(store, keys).value| == |keys| == |store|
    ensures forall i :: 0 <= i < |keys| ==>
              ListNotes(store, keys).value[i] == store[keys[i]] &&
              ListNotes(store, keys).value[i].id == keys[i]
  {
    ListNotesSucceeds(store, keys);
    DistinctCardinality(keys);
    assert (set k | k in keys) == store.Keys;
  }

  /** The loop of GET /notes over the ids `keys()` returned: append the
      result of each `get`, and give up on the first failure. */
  method CollectNotes(b: Backend, keys: seq<string>) returns (r: Result<seq<Note>>)
    ensures r == ListNotes(b.store, keys)
  {
    var notes: seq<Note> := [];
    var i := 0;
    while i < |keys|
      invariant 0 <= i <= |keys|
      invariant forall j :: 0 <= j < i ==> keys[j] in b.store
      invariant ListNotes(b.store, keys[..i]) == Ok(notes)
    {
      var note := b.Get(keys[i]);
      if note.Err? {
        ListNotesFirstMissing(b.store, keys, i);
        return Err(note.error);
      }
      assert keys[..i + 1][..i] == keys[..i];
      notes := notes + [note.value];
      i := i + 1;
    }
    assert keys[..i] == keys;
    r := Ok(notes);
  }

  /** GET /notes: take a `keys()` snapshot, then collect one note per key.
      `keys` (ghost) is the snapshot the backend returned. */
  method GetNotes(b: Backend) returns (r: Result<seq<Note>>, ghost keys: seq<string>)
    requires b.Valid()
    ensures Distinct(keys) && forall k :: k in keys <==> k in b.store
    ensures r == ListNotes(b.store, keys)
    ensures r.Ok? && |r.value| == |keys| == |b.store|
    ensures forall i :: 0 <= i < |keys| ==> r.value[i] == b.store[keys[i]] && r.value[i].id == keys[i]
  {
    var ks := b.Keys();
    keys := ks;
    r := CollectNotes(b, ks);
    ListNotesOfSnapshot(b.store, ks);
  }

  // ---------------------------------------------------------------------
  // Single-note handlers
  // ---------------------------------------------------------------------

  /** GET /notes/{id}: exactly the backend's `get(id)`, failure included. */
  method GetNote(b: Backend, noteId: string) returns (r: Result<Note>)
    requires b.Valid()
    ensures r == Lookup(b.store, noteId)
    ensures r.Err? <==> noteId !in b.store
    ensures r.Err? ==> r.error == NotFound(noteId)
    ensures r.Ok? ==> r.value == Note(noteId, b.store[noteId].message)
  {
    r := b.Get(noteId);
  }

  /** PUT /notes/{id}: one `set` at the caller's id with the request, whether
      or not the id is already stored. */
  method UpdateNote(b: Backend, noteId: string, request: CreateNoteRequest)
    requires b.Valid()
    modifies b
    ensures b.Valid()
    ensures b.store == Upsert(old(b.store), noteId, request)
    ensures Lookup(b.store, noteId) == Ok(Note(noteId, request.message))
    ensures forall k :: k != noteId ==> Lookup(b.store, k) == Lookup(old(b.store), k)
  {
    b.Set(noteId, request);
  }

  /** POST /notes: `newId` stands for the freshly generated uuid. The note is
      written under it and the same id is returned; a fresh id adds exactly
      one key and leaves every other entry alone. */
  method CreateNote(b: Backend, request: CreateNoteRequest, newId: string) returns (noteId: string)
    requires b.Valid()
    modifies b
    ensures b.Valid()
    ensures noteId == newId
    ensures b.store == Upsert(old(b.store), newId, request)
    ensures Lookup(b.store, noteId) == Ok(Note(noteId, request.message))
    ensures newId !in old(b.store) ==>
              b.store.Keys == old(b.store).Keys + {newId} && |b.store| == |old(b.store)| + 1
  {
    noteId := newId;
    b.Set(noteId, request);
    if newId !in old(b.store) {
      UpsertFreshGrows(old(b.store), newId, request);
    }
  }

  // ---------------------------------------------------------------------
  // Several creates followed by a listing
  // ---------------------------------------------------------------------

  /** The store after creating the notes `requests` under `ids`, in order. */
  function CreateAll(store: map<string, Note>, ids: seq<string>, requests: seq<CreateNoteRequest>): map<string, Note>
    requires |ids| == |requests|
    decreases |ids|
  {
    if ids == [] then store
    else CreateAll(Upsert(store, ids[0], requests[0]), ids[1..], requests[1..])
  }

  /** Creating under distinct ids stores each request under its id, adds
      exactly those ids and leaves every other entry unchanged. */
  lemma {:induction false} CreateAllContents(store: map<string, Note>, ids: seq<string>, requests: seq<CreateNoteRequest>)
    requires |ids| == |requests| && Distinct(ids)
    ensures forall k :: k in CreateAll(store, ids, requests) <==> k in store || k in ids
    ensures forall i :: 0 <= i < |ids| ==>
              CreateAll(store, ids, requests)[ids[i]] == Note(ids[i], requests[i].message)
    ensures forall k :: k in store && k !in ids ==> CreateAll(store, ids, requests)[k] == store[k]
    decreases |ids|
  {
    if ids != [] {
      var next := Upsert(store, ids[0], requests[0]);
      assert Distinct(ids[1..]);
      CreateAllContents(next, ids[1..], requests[1..]);
      assert forall k :: k in ids <==> k == ids[0] || k in ids[1..];
      forall i | 0 <= i < |ids|
        ensures CreateAll(store, ids, requests)[ids[i]] == Note(ids[i], requests[i].message)
      {
        if i > 0 {
          assert ids[i] == ids[1..][i - 1];
        } else {
          assert ids[0] !in ids[1..];
        }
      }
    }
  }

  /** Creating N notes with distinct ids on a fresh in-memory backend and
      then listing from any `keys()` snapshot gives N notes, one for each
      created (id, message) pair. */
  lemma ListAfterCreates(ids: seq<string>, requests: seq<CreateNoteRequest>, keys: seq<string>)
    requires |ids| == |requests| && Distinct(ids)
    requires Distinct(keys) && forall k :: k in keys <==> k in ids
    ensures ListNotes(CreateAll(map[], ids, requests), keys).Ok?
    ensures |ListNotes(CreateAll(map[], ids, requests), keys).value| == |ids|
    ensures forall i :: 0 <= i < |ids| ==>
              Note(ids[i], requests[i].message) in ListNotes(CreateAll(map[], ids, requests), keys).value
  {
    var store := CreateAll(map[], ids, requests);
    CreateAllContents(map[], ids, requests);
    assert WellFormed(store) by {
      forall k | k in store ensures store[k].id == k {
        var i :| 0 <= i < |ids| && ids[i] == k;
      }
    }
    ListNotesOfSnapshot(store, keys);
    DistinctCardinality(ids);
    assert (set k | k in ids) == store.Keys;
    var notes := ListNotes(store, keys).value;
    forall i | 0 <= i < |ids|
      ensures Note(ids[i], requests[i].message) in notes
    {
      var j :| 0 <= j < |keys| && keys[j] == ids[i];
      assert notes[j] == store[ids[i]];
    }
  }
}
