/** The Employee record and its store (the serverless app's `models.py`).

    The database table is a finite map from primary key to row. A commit is
    accepted only when every NOT NULL column holds a string and the primary
    key is new; any other commit raises, the session is rolled back, and the
    store is left exactly as it was. The stored `badges` column is text
    produced by `json.dumps`; `to_dict` reads it back with `json.loads`. */
module Employees {
  import opened Common
  import opened Values
  import Json

  /** Prefix of the identifiers `Employee.__init__` generates. */
  const IdPrefix := "emp-"

  /** The mapped columns: the only keys `__init__` accepts and the only keys
      `update_employee` writes. */
  const Attributes: set<string> := {"id", "fullname", "location", "job_title", "badges"}

  /** An `Employee` object: each column holds whatever value was assigned. */
  datatype Employee = Employee(id: Value, fullname: Value, location: Value, jobTitle: Value, badges: Value)

  type Store = map<string, Employee>

  /** The declarative constructor behind `super().__init__(**kwargs)`: unknown
      keywords raise `TypeError` (`None` here), unset columns stay `None`. */
  function Construct(kw: Dict): Option<Employee> {
    if kw.Keys <= Attributes then
      Some(Employee(Get(kw, "id"), Get(kw, "fullname"), Get(kw, "location"), Get(kw, "job_title"), Get(kw, "badges")))
    else
      None
  }

  /** `Employee.__init__(**kwargs)`. `uuid8` stands for the first eight
      characters of a random UUID; it is used only when no `id` keyword is
      given at all. */
  function Init(kw: Dict, uuid8: string): (r: Option<Employee>)
    ensures r.Some? <==> kw.Keys <= Attributes
    ensures r.Some? && "id" in kw ==> r.value.id == kw["id"]
    ensures r.Some? && "id" !in kw ==> r.value.id == VStr(IdPrefix + uuid8)
    ensures r.Some? ==>
      && r.value.fullname == Get(kw, "fullname") && r.value.location == Get(kw, "location")
      && r.value.jobTitle == Get(kw, "job_title") && r.value.badges == Get(kw, "badges")
  {
    var kw' := if "id" !in kw then kw["id" := VStr(IdPrefix + uuid8)] else kw;
    Construct(kw')
  }

  /** The keyword arguments `from_dict` passes: every column, with `id` taken
      from the dictionary even when it is absent there. */
  function FromDictKwargs(d: Dict): Dict {
    map[
      "id" := Get(d, "id"),
      "fullname" := Get(d, "fullname"),
      "location" := Get(d, "location"),
      "job_title" := Get(d, "job_title"),
      "badges" := VStr(Json.Encode(GetOr(d, "badges", VList([]))))
    ]
  }

  /** `Employee.from_dict(d)`. */
  function FromDict(d: Dict): Employee {
    Construct(FromDictKwargs(d)).value
  }

  /** `from_dict` always passes `id=`, so `__init__` never generates an
      identifier for it: the result is the same whatever UUID would have been
      drawn, and a dictionary without `id` yields a `None` identifier. */
  lemma FromDictNeverGenerates(d: Dict, uuid8: string)
    ensures Init(FromDictKwargs(d), uuid8) == Some(FromDict(d))
    ensures FromDict(d).id == Get(d, "id")
    ensures "id" !in d ==> FromDict(d).id == VNone
  {
  }

  /** The badge list `to_dict` reports: `[]` for a falsy column, otherwise
      `json.loads` of the text (`None` when it raises). */
  function LoadBadges(b: Value): Option<Value> {
    if !Truthy(b) then Some(VList([]))
    else if b.VStr? then Json.Decode(b.s)
    else None
  }

  /** `employee.to_dict()`; `None` when `json.loads` raises. */
  function ToDict(e: Employee): (r: Option<Dict>)
    ensures r.Some? <==> LoadBadges(e.badges).Some?
    ensures r.Some? ==> r.value.Keys == {"id", "fullname", "location", "job_title", "badges"}
    ensures r.Some? ==>
      && r.value["id"] == e.id && r.value["fullname"] == e.fullname
      && r.value["location"] == e.location && r.value["job_title"] == e.jobTitle
    ensures !Truthy(e.badges) ==> r.Some? && r.value["badges"] == VList([])
  {
    match LoadBadges(e.badges)
    case None => None
    case Some(b) =>
      Some(map["id" := e.id, "fullname" := e.fullname, "location" := e.location, "job_title" := e.jobTitle, "badges" := b])
  }

  /** `to_dict(from_dict(d))` gives back the four scalar fields and
      `d.get('badges', [])`. */
  lemma ToDictFromDict(d: Dict)
    ensures var r := ToDict(FromDict(d));
      && r.Some?
      && r.value["id"] == Get(d, "id")
      && r.value["fullname"] == Get(d, "fullname")
      && r.value["location"] == Get(d, "location")
      && r.value["job_title"] == Get(d, "job_title")
      && r.value["badges"] == GetOr(d, "badges", VList([]))
  {
    Json.DecodeEncode(GetOr(d, "badges", VList([])));
  }

  /** The declared widths of the string columns. */
  const IdWidth := 36
  const TextWidth := 100

  /** What the database accepts in a row: a `VARCHAR(36)` key, the three NOT
      NULL `VARCHAR(100)` columns, and `badges`, a nullable unbounded text
      column. */
  predicate Storable(e: Employee) {
    && Fits(e.id, IdWidth) && Fits(e.fullname, TextWidth) && Fits(e.location, TextWidth)
    && Fits(e.jobTitle, TextWidth) && (e.badges.VNone? || e.badges.VStr?)
  }

  /** The store invariant: each row sits under its own key, is storable, and
      its badge text can be read back by `to_dict`. */
  predicate Valid(s: Store) {
    forall k :: k in s ==> s[k].id == VStr(k) && Storable(s[k]) && ToDict(s[k]).Some?
  }

  /** `get_employee(id)`: the row as a dictionary, `None` when absent (or
      when reading it raises, which a valid store rules out). */
  function GetEmployee(s: Store, id: string): (r: Option<Dict>)
    ensures Valid(s) ==> (r.None? <==> id !in s)
    ensures id in s ==> r == ToDict(s[id])
    ensures r.Some? ==> id in s && "id" in r.value && r.value["id"] == s[id].id
    ensures r.Some? && Valid(s) ==> r.value["id"] == VStr(id)
  {
    if id in s then ToDict(s[id]) else None
  }

  /** Session add + commit: the new row is accepted only when storable and
      its key is unused; otherwise the commit raises (`None`). */
  function Insert(s: Store, e: Employee): (r: Option<Store>)
    ensures r.Some? <==> Storable(e) && e.id.s !in s
    ensures r.Some? ==>
      && r.value.Keys == s.Keys + {e.id.s} && r.value[e.id.s] == e
      && forall k :: k in s ==> r.value[k] == s[k]
  {
    if Storable(e) && e.id.s !in s then Some(s[e.id.s := e]) else None
  }

  /** The outcome of a store operation: the store afterwards and the value
      the Python function returns. */
  datatype Outcome<T> = Outcome(store: Store, result: T)

  /** `create_employee(data)` exactly as written: it goes through `from_dict`,
      which never generates an identifier, so data without an `id` reaches
      the database with a NULL primary key, the commit raises, the session
      rolls back and the function returns `None`. */
  function CreateEmployeeAsWritten(s: Store, data: Dict): (r: Outcome<Option<Dict>>)
    ensures r.result.None? ==> r.store == s
    ensures "id" !in data ==> r == Outcome(s, None)
    ensures r.result.Some? ==> "id" in data && data["id"].VStr? && data["id"].s in r.store
  {
    var e := FromDict(data);
    ToDictFromDict(data);
    match Insert(s, e)
    case None => Outcome(s, None)
    case Some(s') => Outcome(s', ToDict(e))
  }

  /** The keyword arguments of the corrected `from_dict`: `id` is passed only
      when the dictionary has one, so `__init__` can generate it. */
  function FromDictKwargsFixed(d: Dict): Dict {
    var kw := FromDictKwargs(d);
    if "id" in d then kw else kw - {"id"}
  }

  /** The identifier the corrected creation gives a new employee. */
  function NewId(data: Dict, uuid8: string): Value {
    if "id" in data then data["id"] else VStr(IdPrefix + uuid8)
  }

  /** `create_employee(data)` with the corrected `from_dict`. It succeeds
      exactly when the identifier is a new string of at most 36 characters
      and the three required fields are strings of at most 100; on success the new row is readable under its key
      and returns what was supplied; on failure the store is unchanged. */
  function CreateEmployee(s: Store, data: Dict, uuid8: string): (r: Outcome<Option<Dict>>)
    ensures r.result.Some? <==>
      && Fits(NewId(data, uuid8), IdWidth) && NewId(data, uuid8).s !in s
      && Fits(Get(data, "fullname"), TextWidth) && Fits(Get(data, "location"), TextWidth)
      && Fits(Get(data, "job_title"), TextWidth)
    ensures r.result.None? ==> r.store == s
    ensures r.result.Some? ==>
      var k := NewId(data, uuid8).s;
      && r.store.Keys == s.Keys + {k}
      && (forall j :: j in s ==> r.store[j] == s[j])
      && GetEmployee(r.store, k) == r.result
      && r.result.value["id"] == VStr(k)
      && r.result.value["fullname"] == Get(data, "fullname")
      && r.result.value["location"] == Get(data, "location")
      && r.result.value["job_title"] == Get(data, "job_title")
      && r.result.value["badges"] == GetOr(data, "badges", VList([]))
  {
    var kw := FromDictKwargsFixed(data);
    var e := Init(kw, uuid8).value;
    Json.DecodeEncode(GetOr(data, "badges", VList([])));
    match Insert(s, e)
    case None => Outcome(s, None)
    case Some(s') => Outcome(s', ToDict(e))
  }

  /** Creating an employee in a consistent store leaves it consistent. */
  lemma CreateEmployeeValid(s: Store, data: Dict, uuid8: string)
    requires Valid(s)
    ensures Valid(CreateEmployee(s, data, uuid8).store)
  {
    var r := CreateEmployee(s, data, uuid8);
    if r.result.Some? {
      var k := NewId(data, uuid8).s;
      forall j | j in r.store ensures r.store[j].id == VStr(j) && Storable(r.store[j]) && ToDict(r.store[j]).Some? {
        if j == k {
          assert GetEmployee(r.store, k) == r.result;
        }
      }
    }
  }

  /** The object after `update_employee`'s loop: every column named in the
      data except `id` takes the new value, `badges` as JSON text; keys that
      are not columns are ignored. */
  function Apply(e: Employee, data: Dict): Employee {
    Employee(
      e.id,
      GetOr(data, "fullname", e.fullname),
      GetOr(data, "location", e.location),
      GetOr(data, "job_title", e.jobTitle),
      if "badges" in data then VStr(Json.Encode(data["badges"])) else e.badges)
  }

  /** `update_employee(id, data)`. An unknown id returns `None` and changes
      nothing; a commit the database refuses rolls back and returns `None`.
      Otherwise only the row `id` changes, its identifier never does, the
      fields named in the data take their new values (badges read back as
      supplied) and the others keep theirs. The commit comes before
      `to_dict`: when the old badge text cannot be read back and the data
      does not replace it, the update is stored and `None` is returned. */
  function UpdateEmployee(s: Store, id: string, data: Dict): (r: Outcome<Option<Dict>>)
    ensures id !in s ==> r == Outcome(s, None)
    ensures r.result.None? && r.store != s ==>
      && id in s && "badges" !in data && ToDict(s[id]).None?
      && r.store == s[id := Apply(s[id], data)]
    ensures r.result.Some? ==>
      && id in s
      && r.store.Keys == s.Keys
      && (forall k :: k in s && k != id ==> r.store[k] == s[k])
      && r.store[id] == Apply(s[id], data)
      && r.store[id].id == s[id].id
      && GetEmployee(r.store, id) == r.result
    ensures r.result.Some? ==>
      && r.result.value["fullname"] == GetOr(data, "fullname", s[id].fullname)
      && r.result.value["location"] == GetOr(data, "location", s[id].location)
      && r.result.value["job_title"] == GetOr(data, "job_title", s[id].jobTitle)
      && ("badges" in data ==> r.result.value["badges"] == data["badges"])
      && ("badges" !in data ==> r.store[id].badges == s[id].badges)
    ensures Valid(s) && id in s ==>
      (r.result.Some? <==> Storable(Apply(s[id], data)))
  {
    if id !in s then Outcome(s, None)
    else
      var e := Apply(s[id], data);
      assert "badges" in data ==> Json.Decode(Json.Encode(data["badges"])) == Some(data["badges"]) by {
        if "badges" in data { Json.DecodeEncode(data["badges"]); }
      }
      if Storable(e) then Outcome(s[id := e], ToDict(e))
      else Outcome(s, None)
  }

  /** Updating an employee in a consistent store leaves it consistent. */
  lemma UpdateEmployeeValid(s: Store, id: string, data: Dict)
    requires Valid(s)
    ensures Valid(UpdateEmployee(s, id, data).store)
  {
    var r := UpdateEmployee(s, id, data);
    if r.result.Some? {
      assert GetEmployee(r.store, id) == r.result;
    }
  }

  /** `delete_employee(id)`: `True` exactly when the row existed; afterwards
      the id is absent and every other row is unchanged. */
  function DeleteEmployee(s: Store, id: string): (r: Outcome<bool>)
    ensures r.result <==> id in s
    ensures id !in r.store
    ensures r.store.Keys == s.Keys - {id}
    ensures forall k :: k in r.store ==> r.store[k] == s[k]
    ensures !r.result ==> r.store == s
    ensures Valid(s) ==> Valid(r.store)
  {
    if id in s then Outcome(s - {id}, true) else Outcome(s, false)
  }
}
