/** The Dog and Event records and their store (the dog tracker's
    `database.py`).

    Each table is a finite map from primary key to row. A commit is accepted
    only when every NOT NULL column holds a value of its type, the primary
    key is new (on insert), and an event's `dog_id` names an existing dog
    (the foreign key, which PostgreSQL enforces). A refused commit raises out
    of the store function and the tables stay as they were. Timestamps are
    modelled as integers (seconds); the ISO text `to_dict` produces is not
    modelled. */
module DogStore {
  import opened Common
  import opened Values

  const DogPrefix := "dog-"
  const EventPrefix := "evt-"

  /** The dog columns: the only keys `update_dog` writes. */
  const DogColumns: set<string> := {"id", "name", "approx_age", "size", "breed_type"}

  /** The event columns: the only keys `update_event` writes. */
  const EventColumns: set<string> :=
    {"id", "dog_id", "event_type", "timestamp", "end_timestamp", "location", "notes", "bristol_stool_scale"}

  datatype Dog = Dog(id: Value, name: Value, approxAge: Value, size: Value, breedType: Value)

  datatype Event = Event(
    id: Value, dogId: Value, eventType: Value, timestamp: Value, endTimestamp: Value,
    location: Value, notes: Value, bristol: Value)

  /** The two tables. */
  datatype Db = Db(dogs: map<string, Dog>, events: map<string, Event>)

  // ---------------------------------------------------------------- records

  /** `Dog.from_dict(d)`: every column from `d.get`. */
  function DogFromDict(d: Dict): Dog {
    Dog(Get(d, "id"), Get(d, "name"), Get(d, "approx_age"), Get(d, "size"), Get(d, "breed_type"))
  }

  /** `dog.to_dict()`: one entry per column. */
  function DogToDict(g: Dog): (r: Dict)
    ensures r.Keys == DogColumns
  {
    map["id" := g.id, "name" := g.name, "approx_age" := g.approxAge, "size" := g.size, "breed_type" := g.breedType]
  }

  /** `to_dict(from_dict(d))` keeps all five columns of `d` (absent ones read
      as `None`) and drops every other key; `from_dict(to_dict(g))` is `g`. */
  lemma DogRoundTrip(d: Dict, g: Dog)
    ensures forall k :: k in DogColumns ==> DogToDict(DogFromDict(d))[k] == Get(d, k)
    ensures DogFromDict(DogToDict(g)) == g
  {
  }

  /** `Event.from_dict(d)`: every column from `d.get`. */
  function EventFromDict(d: Dict): Event {
    Event(Get(d, "id"), Get(d, "dog_id"), Get(d, "event_type"), Get(d, "timestamp"),
      Get(d, "end_timestamp"), Get(d, "location"), Get(d, "notes"), Get(d, "bristol_stool_scale"))
  }

  /** `event.to_dict()` without the derived `duration` entry: a datetime is
      always truthy, so each timestamp is reported exactly when it is set. */
  function EventToDict(e: Event): (r: Dict)
    ensures r.Keys == EventColumns
  {
    map["id" := e.id, "dog_id" := e.dogId, "event_type" := e.eventType,
        "timestamp" := e.timestamp, "end_timestamp" := e.endTimestamp,
        "location" := e.location, "notes" := e.notes, "bristol_stool_scale" := e.bristol]
  }

  /** `to_dict(from_dict(d))` keeps every event column of `d` and
      `from_dict(to_dict(e))` is `e`. */
  lemma EventRoundTrip(d: Dict, e: Event)
    ensures forall k :: k in EventColumns ==> EventToDict(EventFromDict(d))[k] == Get(d, k)
    ensures EventFromDict(EventToDict(e)) == e
  {
  }

  // -------------------------------------------------------------- the tables

  predicate NullableFits(v: Value, n: nat) { v.VNone? || Fits(v, n) }
  predicate NullableStr(v: Value) { v.VNone? || v.VStr? }
  predicate NullableInt(v: Value) { v.VNone? || v.VInt? }

  /** The declared widths of the string columns. */
  const IdWidth := 36
  const NameWidth := 100
  const AgeWidth := 50
  const SizeWidth := 20
  const BreedWidth := 100
  const EventTypeWidth := 50
  const LocationWidth := 200

  /** What the `dogs` table accepts: a string key and four NOT NULL string
      columns, each within its declared width. */
  predicate StorableDog(g: Dog) {
    && Fits(g.id, IdWidth) && Fits(g.name, NameWidth) && Fits(g.approxAge, AgeWidth)
    && Fits(g.size, SizeWidth) && Fits(g.breedType, BreedWidth)
  }

  /** What the `events` table accepts, foreign key aside: `notes` is
      unbounded text, the other string columns have declared widths. */
  predicate StorableEvent(e: Event) {
    && Fits(e.id, IdWidth) && Fits(e.dogId, IdWidth) && Fits(e.eventType, EventTypeWidth) && e.timestamp.VInt?
    && NullableInt(e.endTimestamp) && NullableFits(e.location, LocationWidth) && NullableStr(e.notes)
    && NullableInt(e.bristol)
  }

  /** The foreign key: the event's `dog_id` names a dog of the table. */
  predicate OwnedBy(dogs: map<string, Dog>, e: Event) {
    e.dogId.VStr? && e.dogId.s in dogs
  }

  /** The store invariant: rows sit under their own keys, are storable, and
      every event belongs to an existing dog. */
  predicate Valid(db: Db) {
    && (forall k :: k in db.dogs ==> db.dogs[k].id == VStr(k) && StorableDog(db.dogs[k]))
    && (forall k :: k in db.events ==>
          db.events[k].id == VStr(k) && StorableEvent(db.events[k]) && OwnedBy(db.dogs, db.events[k]))
  }

  /** A store operation's result: the tables afterwards and what the Python
      function returns. */
  datatype Outcome<T> = Outcome(db: Db, result: T)

  /** What `update_*` and `create_*` return: the record as a dictionary,
      `None` for an unknown id, or an exception from a refused commit. */
  datatype Reply = Row(value: Dict) | Missing | Raised

  // -------------------------------------------------------------------- dogs

  /** `get_dog(id)`: the row as a dictionary, `None` exactly when absent. */
  function GetDog(db: Db, id: string): (r: Option<Dict>)
    ensures r.None? <==> id !in db.dogs
    ensures r.Some? ==> DogFromDict(r.value) == db.dogs[id]
  {
    if id in db.dogs then Some(DogToDict(db.dogs[id])) else None
  }

  /** The identifier `create_dog` / `create_event` use: the supplied one when
      it is truthy, otherwise `prefix` followed by eight UUID characters. */
  function AssignId(data: Dict, prefix: string, uuid8: string): Dict {
    if Truthy(Get(data, "id")) then data else data["id" := VStr(prefix + uuid8)]
  }

  lemma AssignIdFacts(data: Dict, prefix: string, uuid8: string)
    ensures Truthy(Get(data, "id")) ==> AssignId(data, prefix, uuid8) == data
    ensures !Truthy(Get(data, "id")) ==>
      && Get(AssignId(data, prefix, uuid8), "id") == VStr(prefix + uuid8)
      && StartsWith(Get(AssignId(data, prefix, uuid8), "id").s, prefix)
    ensures forall k :: k != "id" ==> Get(AssignId(data, prefix, uuid8), k) == Get(data, k)
  {
    if !Truthy(Get(data, "id")) { StartsWithConcat(prefix, uuid8); }
  }

  /** `create_dog(data)`. The commit succeeds exactly when the assigned id is
      a new string key and the four other columns are strings; the returned
      dictionary is then the stored row, the supplied id is kept whenever it
      is truthy, and the events and all other dogs are untouched. A refused
      commit raises and the tables are unchanged. */
  function CreateDog(db: Db, data: Dict, uuid8: string): (r: Outcome<Reply>)
    ensures r.result.Row? || r.result.Raised?
    ensures r.result.Raised? ==> r.db == db
    ensures var g := DogFromDict(AssignId(data, DogPrefix, uuid8));
      r.result.Row? <==> StorableDog(g) && g.id.s !in db.dogs
    ensures r.result.Row? ==>
      var k := Get(AssignId(data, DogPrefix, uuid8), "id").s;
      && r.db.events == db.events
      && r.db.dogs.Keys == db.dogs.Keys + {k}
      && (forall j :: j in db.dogs ==> r.db.dogs[j] == db.dogs[j])
      && GetDog(r.db, k) == Some(r.result.value)
      && (Truthy(Get(data, "id")) ==> r.result.value["id"] == data["id"])
      && (forall c :: c in DogColumns && c != "id" ==> r.result.value[c] == Get(data, c))
  {
    var g := DogFromDict(AssignId(data, DogPrefix, uuid8));
    NewDogFacts(data, uuid8);
    if StorableDog(g) && g.id.s !in db.dogs then
      Outcome(db.(dogs := db.dogs[g.id.s := g]), Row(DogToDict(g)))
    else
      Outcome(db, Raised)
  }

  /** The dog `create_dog` builds reads back, column by column, as the
      data with the assigned id. */
  lemma NewDogFacts(data: Dict, uuid8: string)
    ensures var a := AssignId(data, DogPrefix, uuid8);
      var d := DogToDict(DogFromDict(a));
      && DogFromDict(a).id == Get(a, "id")
      && (Truthy(Get(data, "id")) ==> d["id"] == data["id"])
      && (forall c :: c in DogColumns && c != "id" ==> d[c] == Get(data, c))
  {
    AssignIdFacts(data, DogPrefix, uuid8);
    var a := AssignId(data, DogPrefix, uuid8);
    DogRoundTrip(a, DogFromDict(a));
  }

  /** Creating a dog in a valid store leaves a valid store. */
  lemma CreateDogValid(db: Db, data: Dict, uuid8: string)
    requires Valid(db)
    ensures Valid(CreateDog(db, data, uuid8).db)
  {
    var g := DogFromDict(AssignId(data, DogPrefix, uuid8));
    if StorableDog(g) && g.id.s !in db.dogs {
      var dogs' := db.dogs[g.id.s := g];
      assert CreateDog(db, data, uuid8).db == Db(dogs', db.events);
      forall k | k in dogs' ensures dogs'[k].id == VStr(k) && StorableDog(dogs'[k]) {
        if k != g.id.s { assert dogs'[k] == db.dogs[k]; }
      }
      forall k | k in db.events ensures OwnedBy(dogs', db.events[k]) {
        assert OwnedBy(db.dogs, db.events[k]);
      }
    } else {
      assert CreateDog(db, data, uuid8).db == db;
    }
  }

  /** A name longer than its column's 100 characters makes the commit
      raise, and nothing is stored. */
  lemma OverlongNameRaises(db: Db, data: Dict, uuid8: string)
    requires Get(data, "name").VStr? && |Get(data, "name").s| > NameWidth
    ensures CreateDog(db, data, uuid8) == Outcome(db, Raised)
  {
    AssignIdFacts(data, DogPrefix, uuid8);
  }

  /** The row after `update_dog`'s loop: every column named in the data
      except `id` takes the new value; other keys are ignored. */
  function ApplyDog(g: Dog, data: Dict): Dog {
    Dog(g.id,
      GetOr(data, "name", g.name), GetOr(data, "approx_age", g.approxAge),
      GetOr(data, "size", g.size), GetOr(data, "breed_type", g.breedType))
  }

  /** Each dog column after the update is the data's value when it names
      the column and the old one otherwise; the id never changes. */
  lemma ApplyDogFacts(g: Dog, data: Dict)
    ensures ApplyDog(g, data).id == g.id
    ensures forall c :: c in DogColumns && c != "id" ==>
      DogToDict(ApplyDog(g, data))[c] == GetOr(data, c, DogToDict(g)[c])
  {
  }

  /** `update_dog(id, data)`. An unknown id returns `None` and changes
      nothing; a commit the database refuses raises and changes nothing.
      Otherwise only dog `id` changes, its identifier never does, the columns
      named in the data take their new values, the others keep theirs, and
      the events are untouched. */
  function UpdateDog(db: Db, id: string, data: Dict): (r: Outcome<Reply>)
    ensures id !in db.dogs <==> r.result.Missing?
    ensures !r.result.Row? ==> r.db == db
    ensures r.result.Row? ==>
      && id in db.dogs
      && r.db.events == db.events
      && r.db.dogs.Keys == db.dogs.Keys
      && (forall j :: j in db.dogs && j != id ==> r.db.dogs[j] == db.dogs[j])
      && r.db.dogs[id].id == db.dogs[id].id
      && GetDog(r.db, id) == Some(r.result.value)
      && (forall c :: c in DogColumns && c != "id" ==>
            r.result.value[c] == GetOr(data, c, DogToDict(db.dogs[id])[c]))
    ensures Valid(db) && id in db.dogs ==> (r.result.Row? <==> StorableDog(ApplyDog(db.dogs[id], data)))
  {
    if id !in db.dogs then Outcome(db, Missing)
    else
      var g := ApplyDog(db.dogs[id], data);
      ApplyDogFacts(db.dogs[id], data);
      if StorableDog(g) then Outcome(db.(dogs := db.dogs[id := g]), Row(DogToDict(g)))
      else Outcome(db, Raised)
  }

  /** Updating a dog in a valid store leaves a valid store. */
  lemma UpdateDogValid(db: Db, id: string, data: Dict)
    requires Valid(db)
    ensures Valid(UpdateDog(db, id, data).db)
  {
    var r := UpdateDog(db, id, data);
    if r.result.Row? {
      var g := ApplyDog(db.dogs[id], data);
      assert r.db == db.(dogs := db.dogs[id := g]);
    }
  }

  /** The events that belong to dog `id`. */
  function EventsOf(events: map<string, Event>, id: string): set<string> {
    set k | k in events && events[k].dogId == VStr(id)
  }

  /** `delete_dog(id)`: `True` exactly when the dog existed. The dog is gone
      afterwards and, through the `delete-orphan` cascade, so is every event
      it owned; all other dogs and events are unchanged. */
  function DeleteDog(db: Db, id: string): (r: Outcome<bool>)
    ensures r.result <==> id in db.dogs
    ensures !r.result ==> r.db == db
    ensures id !in r.db.dogs
    ensures r.db.dogs.Keys == db.dogs.Keys - {id}
    ensures forall k :: k in r.db.dogs ==> r.db.dogs[k] == db.dogs[k]
    ensures r.result ==>
      && r.db.events.Keys == db.events.Keys - EventsOf(db.events, id)
      && (forall k :: k in r.db.events ==> r.db.events[k] == db.events[k])
    ensures r.result ==> forall k :: k in r.db.events ==> r.db.events[k].dogId != VStr(id)
  {
    if id in db.dogs then
      Outcome(Db(db.dogs - {id}, map k | k in db.events && db.events[k].dogId != VStr(id) :: db.events[k]), true)
    else
      Outcome(db, false)
  }

  /** The cascade keeps the foreign key: deleting a dog from a valid store
      leaves a valid store. */
  lemma DeleteDogValid(db: Db, id: string)
    requires Valid(db)
    ensures Valid(DeleteDog(db, id).db)
  {
    var db' := DeleteDog(db, id).db;
    forall k | k in db'.events ensures OwnedBy(db'.dogs, db'.events[k]) {
      assert db'.events[k] == db.events[k];
    }
  }

  // ------------------------------------------------------------------ events

  /** `create_event(data)`. `defaultTime` is the column default of
      `timestamp`, which is evaluated once when the module is loaded: an
      event created without a timestamp gets that instant (the ORM leaves a
      `None` column out of the INSERT, so the default applies). The commit
      succeeds exactly when the row is storable, its key is new and its dog
      exists; the returned dictionary is then the stored row. */
  function CreateEvent(db: Db, data: Dict, uuid8: string, defaultTime: int): (r: Outcome<Reply>)
    ensures r.result.Row? || r.result.Raised?
    ensures r.result.Raised? ==> r.db == db
    ensures var e := NewEvent(data, uuid8, defaultTime);
      r.result.Row? <==> StorableEvent(e) && e.id.s !in db.events && OwnedBy(db.dogs, e)
    ensures r.result.Row? ==>
      var k := Get(AssignId(data, EventPrefix, uuid8), "id").s;
      && r.db.dogs == db.dogs
      && r.db.events.Keys == db.events.Keys + {k}
      && (forall j :: j in db.events ==> r.db.events[j] == db.events[j])
      && r.result.value == EventToDict(r.db.events[k])
      && (Truthy(Get(data, "id")) ==> r.result.value["id"] == data["id"])
      && r.result.value["timestamp"] == (if Get(data, "timestamp").VNone? then VInt(defaultTime) else data["timestamp"])
      && (forall c :: c in EventColumns && c != "id" && c != "timestamp" ==> r.result.value[c] == Get(data, c))
  {
    var e := NewEvent(data, uuid8, defaultTime);
    NewEventFacts(data, uuid8, defaultTime);
    if StorableEvent(e) && e.id.s !in db.events && OwnedBy(db.dogs, e) then
      Outcome(db.(events := db.events[e.id.s := e]), Row(EventToDict(e)))
    else
      Outcome(db, Raised)
  }

  /** The row `create_event` inserts: `from_dict` of the data with its id
      assigned, a missing timestamp replaced by the column default. */
  function NewEvent(data: Dict, uuid8: string, defaultTime: int): Event {
    var e := EventFromDict(AssignId(data, EventPrefix, uuid8));
    if e.timestamp.VNone? then e.(timestamp := VInt(defaultTime)) else e
  }

  /** The event `create_event` builds reads back, column by column, as the
      data with the assigned id and the timestamp default applied. */
  lemma NewEventFacts(data: Dict, uuid8: string, defaultTime: int)
    ensures var e := NewEvent(data, uuid8, defaultTime);
      var d := EventToDict(e);
      && e.id == Get(AssignId(data, EventPrefix, uuid8), "id")
      && (Truthy(Get(data, "id")) ==> d["id"] == data["id"])
      && d["timestamp"] == (if Get(data, "timestamp").VNone? then VInt(defaultTime) else data["timestamp"])
      && (forall c :: c in EventColumns && c != "id" && c != "timestamp" ==> d[c] == Get(data, c))
  {
    AssignIdFacts(data, EventPrefix, uuid8);
    var a := AssignId(data, EventPrefix, uuid8);
    EventRoundTrip(a, EventFromDict(a));
  }

  /** Creating an event in a valid store leaves a valid store. */
  lemma CreateEventValid(db: Db, data: Dict, uuid8: string, defaultTime: int)
    requires Valid(db)
    ensures Valid(CreateEvent(db, data, uuid8, defaultTime).db)
  {
    var r := CreateEvent(db, data, uuid8, defaultTime);
    if r.result.Row? {
      var e := NewEvent(data, uuid8, defaultTime);
      assert r.db == db.(events := db.events[e.id.s := e]);
    }
  }

  /** The row after `update_event`'s loop. */
  function ApplyEvent(e: Event, data: Dict): Event {
    Event(e.id,
      GetOr(data, "dog_id", e.dogId), GetOr(data, "event_type", e.eventType),
      GetOr(data, "timestamp", e.timestamp), GetOr(data, "end_timestamp", e.endTimestamp),
      GetOr(data, "location", e.location), GetOr(data, "notes", e.notes),
      GetOr(data, "bristol_stool_scale", e.bristol))
  }

  /** Each event column after the update is the data's value when it names
      the column and the old one otherwise; the id never changes. */
  lemma ApplyEventFacts(e: Event, data: Dict)
    ensures ApplyEvent(e, data).id == e.id
    ensures forall c :: c in EventColumns && c != "id" ==>
      EventToDict(ApplyEvent(e, data))[c] == GetOr(data, c, EventToDict(e)[c])
  {
  }

  /** `update_event(id, data)`: as `update_dog`, and the commit is also
      refused when the event would move to a dog that does not exist. */
  function UpdateEvent(db: Db, id: string, data: Dict): (r: Outcome<Reply>)
    ensures id !in db.events <==> r.result.Missing?
    ensures !r.result.Row? ==> r.db == db
    ensures r.result.Row? ==>
      && id in db.events
      && r.db.dogs == db.dogs
      && r.db.events.Keys == db.events.Keys
      && (forall j :: j in db.events && j != id ==> r.db.events[j] == db.events[j])
      && r.db.events[id].id == db.events[id].id
      && r.result.value == EventToDict(r.db.events[id])
      && (forall c :: c in EventColumns && c != "id" ==>
            r.result.value[c] == GetOr(data, c, EventToDict(db.events[id])[c]))
    ensures Valid(db) && id in db.events ==>
      (r.result.Row? <==> StorableEvent(ApplyEvent(db.events[id], data)) && OwnedBy(db.dogs, ApplyEvent(db.events[id], data)))
  {
    if id !in db.events then Outcome(db, Missing)
    else
      var e := ApplyEvent(db.events[id], data);
      ApplyEventFacts(db.events[id], data);
      if StorableEvent(e) && OwnedBy(db.dogs, e) then
        Outcome(db.(events := db.events[id := e]), Row(EventToDict(e)))
      else
        Outcome(db, Raised)
  }

  /** Updating an event in a valid store leaves a valid store. */
  lemma UpdateEventValid(db: Db, id: string, data: Dict)
    requires Valid(db)
    ensures Valid(UpdateEvent(db, id, data).db)
  {
    var r := UpdateEvent(db, id, data);
    if r.result.Row? {
      var e := ApplyEvent(db.events[id], data);
      assert r.db == db.(events := db.events[id := e]);
      assert e.id == VStr(id);
    }
  }

  /** `delete_event(id)`: `True` exactly when the event existed; afterwards
      it is absent and nothing else has changed. */
  function DeleteEvent(db: Db, id: string): (r: Outcome<bool>)
    ensures r.result <==> id in db.events
    ensures !r.result ==> r.db == db
    ensures id !in r.db.events
    ensures r.db.dogs == db.dogs
    ensures r.db.events.Keys == db.events.Keys - {id}
    ensures forall k :: k in r.db.events ==> r.db.events[k] == db.events[k]
    ensures Valid(db) ==> Valid(r.db)
  {
    if id in db.events then Outcome(db.(events := db.events - {id}), true) else Outcome(db, false)
  }

  // --------------------------------------------------- events of one dog

  /** The ordering key of `order_by(Event.timestamp.desc())`. */
  function Time(events: map<string, Event>, k: string): int {
    if k in events && events[k].timestamp.VInt? then events[k].timestamp.i else 0
  }

  /** Newest first: timestamps never increase along the list. */
  predicate NewestFirst(ids: seq<string>, events: map<string, Event>) {
    forall i, j :: 0 <= i < j < |ids| ==> Time(events, ids[i]) >= Time(events, ids[j])
  }

  /** Puts `k` into a list before the first entry that is not newer than
      it. */
  function InsertNewest(ids: seq<string>, k: string, events: map<string, Event>): (r: seq<string>)
    ensures multiset(r) == multiset(ids) + multiset{k}
  {
    if |ids| == 0 || Time(events, k) >= Time(events, ids[0]) then
      [k] + ids
    else
      assert ids == [ids[0]] + ids[1..];
      [ids[0]] + InsertNewest(ids[1..], k, events)
  }

  /** Insertion adds `k` and nothing else. */
  lemma {:induction false} InsertNewestMembers(ids: seq<string>, k: string, events: map<string, Event>)
    ensures forall x :: x in InsertNewest(ids, k, events) <==> x == k || x in ids
    decreases |ids|
  {
    if |ids| > 0 && Time(events, k) < Time(events, ids[0]) {
      InsertNewestMembers(ids[1..], k, events);
      assert forall x :: x in ids <==> x == ids[0] || x in ids[1..];
    }
  }

  /** Inserting into a newest-first list keeps it newest first. */
  lemma {:induction false} InsertNewestSorted(ids: seq<string>, k: string, events: map<string, Event>)
    requires NewestFirst(ids, events)
    ensures NewestFirst(InsertNewest(ids, k, events), events)
    decreases |ids|
  {
    if |ids| > 0 && Time(events, k) < Time(events, ids[0]) {
      var rest := InsertNewest(ids[1..], k, events);
      InsertNewestSorted(ids[1..], k, events);
      var r := [ids[0]] + rest;
      InsertNewestMembers(ids[1..], k, events);
      forall j | 0 < j < |r| ensures Time(events, ids[0]) >= Time(events, r[j]) {
        assert r[j] == rest[j - 1] && rest[j - 1] in rest;
        if rest[j - 1] != k {
          var m :| 0 <= m < |ids[1..]| && ids[1..][m] == rest[j - 1];
          assert ids[m + 1] == rest[j - 1];
        }
      }
      forall i, j | 0 <= i < j < |r| ensures Time(events, r[i]) >= Time(events, r[j]) {
        if i > 0 { assert r[i] == rest[i - 1] && r[j] == rest[j - 1]; }
      }
    }
  }

  /** Taking `k` out of the pending set adds it to the finished part of `s`
      exactly when it belongs to `s`. */
  lemma PendingStep(s: set<string>, pending: set<string>, k: string)
    requires k in pending
    ensures k in s ==> multiset(s - (pending - {k})) == multiset(s - pending) + multiset{k}
    ensures k !in s ==> s - (pending - {k}) == s - pending
  {
    if k in s {
      assert s - (pending - {k}) == (s - pending) + {k};
      assert k !in s - pending;
    }
  }

  /** The query of `get_dog_events(id)`: the keys of the events whose
      `dog_id` is `id`, each exactly once, newest first. */
  method CollectEvents(db: Db, id: string) returns (ids: seq<string>)
    ensures multiset(ids) == multiset(EventsOf(db.events, id))
    ensures NewestFirst(ids, db.events)
    ensures forall i :: 0 <= i < |ids| ==> ids[i] in db.events && db.events[ids[i]].dogId == VStr(id)
  {
    var pending := db.events.Keys;
    ids := [];
    while pending != {}
      invariant pending <= db.events.Keys
      invariant multiset(ids) == multiset(EventsOf(db.events, id) - pending)
      invariant NewestFirst(ids, db.events)
      invariant forall x :: x in ids ==> x in db.events && db.events[x].dogId == VStr(id)
      decreases |pending|
    {
      var k :| k in pending;
      PendingStep(EventsOf(db.events, id), pending, k);
      if db.events[k].dogId == VStr(id) {
        InsertNewestSorted(ids, k, db.events);
        InsertNewestMembers(ids, k, db.events);
        ids := InsertNewest(ids, k, db.events);
      }
      pending := pending - {k};
    }
    assert EventsOf(db.events, id) - pending == EventsOf(db.events, id);
    assert forall i :: 0 <= i < |ids| ==> ids[i] in ids;
  }

  /** `get_dog_events(id)`: the events whose `dog_id` is `id`, each exactly
      once, newest first, as dictionaries. `ids` lists their keys in the
      same order. */
  method GetDogEvents(db: Db, id: string) returns (ids: seq<string>, r: seq<Dict>)
    ensures multiset(ids) == multiset(EventsOf(db.events, id))
    ensures NewestFirst(ids, db.events)
    ensures |r| == |ids|
    ensures forall i :: 0 <= i < |ids| ==> ids[i] in db.events && r[i] == EventToDict(db.events[ids[i]])
  {
    ids := CollectEvents(db, id);
    r := [];
    var n := 0;
    while n < |ids|
      invariant n <= |ids|
      invariant |r| == n
      invariant forall i :: 0 <= i < n ==> r[i] == EventToDict(db.events[ids[i]])
    {
      r := r + [EventToDict(db.events[ids[n]])];
      n := n + 1;
    }
  }
}
