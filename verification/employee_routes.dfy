/** The form handling of the serverless Employee Directory (`routes.py`):
    normalising the submitted fields, the required-field gate, badge-list
    parsing, and the not-found branches of `edit` and `api_employee`. */
module EmployeeRoutes {
  import opened Common
  import opened Values
  import PyStr
  import Employees

  /** `request.form`: field name to submitted text. */
  type Form = map<string, string>

  const MsgRequired := "All fields are required"
  const MsgAdded := "Employee added successfully!"
  const MsgAddFailed := "Error adding employee"
  const MsgUpdated := "Employee updated successfully!"
  const MsgUpdateFailed := "Error updating employee"
  const MsgNotFound := "Employee not found"

  /** `request.form.get(k, '')`. */
  function Field(form: Form, k: string): string {
    if k in form then form[k] else ""
  }

  /** A badge as the cleaned list holds it: non-empty, already stripped, and
      free of the `,` separator. */
  predicate CleanBadge(b: string) {
    b != "" && PyStr.IsStripped(b) && ',' !in b
  }

  /** `[b.strip() for b in pieces if b.strip()]`. */
  function CleanBadges(ps: seq<string>): (r: seq<string>)
    ensures |r| <= |ps|
    ensures forall i :: 0 <= i < |r| ==> r[i] != "" && PyStr.IsStripped(r[i])
    ensures (forall j :: 0 <= j < |ps| ==> ',' !in ps[j]) ==> forall i :: 0 <= i < |r| ==> CleanBadge(r[i])
  {
    if |ps| == 0 then []
    else
      var b := PyStr.Strip(ps[0]);
      assert ',' in b ==> ',' in ps[0] by {
        if ',' in b { PyStr.StripKeeps(ps[0], ','); }
      }
      (if b == "" then [] else [b]) + CleanBadges(ps[1..])
  }

  /** Cleaning keeps the order of the pieces: it distributes over
      concatenation. */
  lemma {:induction false} CleanBadgesAppend(a: seq<string>, b: seq<string>)
    ensures CleanBadges(a + b) == CleanBadges(a) + CleanBadges(b)
    decreases |a|
  {
    if |a| > 0 {
      assert (a + b)[1..] == a[1..] + b;
      CleanBadgesAppend(a[1..], b);
    } else {
      assert a + b == b;
    }
  }

  /** An already clean list is its own cleaning. */
  lemma {:induction false} CleanBadgesOfClean(xs: seq<string>)
    requires forall i :: 0 <= i < |xs| ==> CleanBadge(xs[i])
    ensures CleanBadges(xs) == xs
    decreases |xs|
  {
    if |xs| > 0 {
      PyStr.StripOfStripped(xs[0]);
      CleanBadgesOfClean(xs[1..]);
      assert [xs[0]] + xs[1..] == xs;
    }
  }

  /** The badge list built from the `badges` form field: missing or empty
      gives `[]`; otherwise the text is split on `,`, each piece stripped, and
      blank pieces dropped. No badge is empty, carries surrounding
      whitespace, or contains a comma. */
  function ParseBadges(form: Form): (r: seq<string>)
    ensures Field(form, "badges") == "" ==> r == []
    ensures forall i :: 0 <= i < |r| ==> CleanBadge(r[i])
  {
    var raw := Field(form, "badges");
    CleanBadges(if raw != "" then PyStr.Split(raw, ',') else [])
  }

  /** Badges written back as comma-separated text parse to the same list:
      `ParseBadges` inverts `','.join` on clean badge lists. */
  lemma ParseBadgesJoin(form: Form, xs: seq<string>)
    requires forall i :: 0 <= i < |xs| ==> CleanBadge(xs[i])
    requires Field(form, "badges") == (if |xs| == 0 then "" else PyStr.Join(xs, ','))
    ensures ParseBadges(form) == xs
  {
    if |xs| > 0 {
      PyStr.SplitJoin(xs, ',');
      CleanBadgesOfClean(xs);
      assert PyStr.Join(xs, ',') != "" by { JoinNonEmpty(xs); }
    }
  }

  lemma {:induction false} JoinNonEmpty(xs: seq<string>)
    requires |xs| >= 1 && xs[0] != ""
    ensures |PyStr.Join(xs, ',')| >= |xs[0]|
  {
  }

  /** The submitted employee after normalisation. */
  datatype Input = Input(fullname: string, location: string, jobTitle: string, badges: seq<string>)

  /** Strips the three text fields and parses the badges. */
  function Normalize(form: Form): Input {
    Input(
      PyStr.Strip(Field(form, "fullname")),
      PyStr.Strip(Field(form, "location")),
      PyStr.Strip(Field(form, "job_title")),
      ParseBadges(form))
  }

  /** The required-field gate: every stripped text field is non-empty. */
  predicate RequiredPresent(i: Input) {
    i.fullname != "" && i.location != "" && i.jobTitle != ""
  }

  /** The normalised text fields fit their `VARCHAR(100)` columns. */
  predicate FitsColumns(i: Input) {
    |i.fullname| <= Employees.TextWidth && |i.location| <= Employees.TextWidth && |i.jobTitle| <= Employees.TextWidth
  }

  /** The `employee_data` dictionary the routes hand to the store. */
  function RouteData(i: Input): Dict {
    map["fullname" := VStr(i.fullname), "location" := VStr(i.location),
        "job_title" := VStr(i.jobTitle), "badges" := VList(i.badges)]
  }

  /** The route data names no `id`, and its columns read back as the
      normalised input. */
  lemma RouteDataFields(i: Input, uuid8: string)
    ensures var d := RouteData(i);
      && "id" !in d
      && Employees.NewId(d, uuid8) == VStr(Employees.IdPrefix + uuid8)
      && Get(d, "fullname") == VStr(i.fullname) && Get(d, "location") == VStr(i.location)
      && Get(d, "job_title") == VStr(i.jobTitle) && GetOr(d, "badges", VList([])) == VList(i.badges)
      && "badges" in d && d["badges"] == VList(i.badges)
      && (forall x :: GetOr(d, "fullname", x) == VStr(i.fullname))
      && (forall x :: GetOr(d, "location", x) == VStr(i.location))
      && (forall x :: GetOr(d, "job_title", x) == VStr(i.jobTitle))
  {
  }

  datatype Target = Home | ViewEmployee(id: string)

  /** What a request produces: the form page again (with an optional flash
      message) or a redirect with a flash message. */
  datatype Reply = ShowForm(flash: Option<string>) | Redirect(target: Target, message: string)

  /** The POST branch of `add` as written. A blank required field re-renders
      the form with 'All fields are required'. Otherwise the route calls
      `create_employee` as written, whose data carries no `id`: the commit
      always fails, so the form comes back with 'Error adding employee' and
      the store never changes. */
  function Add(s: Employees.Store, form: Form): (r: Employees.Outcome<Reply>)
    ensures r.store == s
    ensures !RequiredPresent(Normalize(form)) ==> r.result == ShowForm(Some(MsgRequired))
    ensures RequiredPresent(Normalize(form)) ==> r.result == ShowForm(Some(MsgAddFailed))
  {
    var i := Normalize(form);
    if !RequiredPresent(i) then Employees.Outcome(s, ShowForm(Some(MsgRequired)))
    else
      var c := Employees.CreateEmployeeAsWritten(s, RouteData(i));
      AddAsWrittenNeverCreates(s, form);
      if c.result.Some? then Employees.Outcome(c.store, Redirect(Home, MsgAdded))
      else Employees.Outcome(s, ShowForm(Some(MsgAddFailed)))
  }

  /** With `create_employee` as written, `add` can never create anyone: the
      route's data has no `id`, so the insert always fails. */
  lemma AddAsWrittenNeverCreates(s: Employees.Store, form: Form)
    ensures Employees.CreateEmployeeAsWritten(s, RouteData(Normalize(form))) == Employees.Outcome(s, None)
  {
    assert "id" !in RouteData(Normalize(form));
  }

  /** The POST branch of `add` over the corrected `create_employee`. A blank
      required field re-renders the form with 'All fields are required' and
      the store is not touched; otherwise the employee is created with the
      stripped fields and cleaned badges under a generated `emp-`
      identifier, unless the commit is refused because that identifier is
      taken or a value is wider than its column. */
  function AddCorrected(s: Employees.Store, form: Form, uuid8: string): (r: Employees.Outcome<Reply>)
    ensures !RequiredPresent(Normalize(form)) ==> r == Employees.Outcome(s, ShowForm(Some(MsgRequired)))
    ensures r.result.ShowForm? ==> r.store == s
    ensures r.result.Redirect? <==>
      && RequiredPresent(Normalize(form)) && FitsColumns(Normalize(form))
      && Employees.IdPrefix + uuid8 !in s && |Employees.IdPrefix + uuid8| <= Employees.IdWidth
    ensures r.result.Redirect? ==>
      var i := Normalize(form);
      var k := Employees.IdPrefix + uuid8;
      var e := Employees.GetEmployee(r.store, k);
      && r.store.Keys == s.Keys + {k}
      && (forall j :: j in s ==> r.store[j] == s[j])
      && e.Some?
      && e.value["fullname"] == VStr(i.fullname)
      && e.value["location"] == VStr(i.location)
      && e.value["job_title"] == VStr(i.jobTitle)
      && e.value["badges"] == VList(i.badges)
  {
    var i := Normalize(form);
    if !RequiredPresent(i) then Employees.Outcome(s, ShowForm(Some(MsgRequired)))
    else
      CreateFromInput(s, i, uuid8);
      var c := Employees.CreateEmployee(s, RouteData(i), uuid8);
      if c.result.Some? then Employees.Outcome(c.store, Redirect(Home, MsgAdded))
      else Employees.Outcome(s, ShowForm(Some(MsgAddFailed)))
  }

  /** `create_employee` on the data a route builds from its input: it
      succeeds exactly when the generated identifier is new and fits its
      column and the three text fields fit theirs, and the new row carries
      the input's fields. */
  lemma CreateFromInput(s: Employees.Store, i: Input, uuid8: string)
    ensures var c := Employees.CreateEmployee(s, RouteData(i), uuid8);
      var k := Employees.IdPrefix + uuid8;
      && (c.result.Some? <==> FitsColumns(i) && k !in s && |k| <= Employees.IdWidth)
      && (c.result.None? ==> c.store == s)
      && (c.result.Some? ==>
        && c.store.Keys == s.Keys + {k}
        && (forall j :: j in s ==> c.store[j] == s[j])
        && Employees.GetEmployee(c.store, k) == c.result
        && c.result.value["fullname"] == VStr(i.fullname)
        && c.result.value["location"] == VStr(i.location)
        && c.result.value["job_title"] == VStr(i.jobTitle)
        && c.result.value["badges"] == VList(i.badges))
  {
    RouteDataFields(i, uuid8);
  }

  /** The corrected route keeps the store consistent. */
  lemma AddCorrectedValid(s: Employees.Store, form: Form, uuid8: string)
    requires Employees.Valid(s)
    ensures Employees.Valid(AddCorrected(s, form, uuid8).store)
  {
    if RequiredPresent(Normalize(form)) {
      Employees.CreateEmployeeValid(s, RouteData(Normalize(form)), uuid8);
    }
  }

  /** The two routes agree on a blank required field and part ways on every
      complete form whose values fit their columns and whose generated
      identifier is unused: as written the form comes back with 'Error
      adding employee', corrected the employee is added. */
  lemma AddCorrectedDiffers(s: Employees.Store, form: Form, uuid8: string)
    ensures !RequiredPresent(Normalize(form)) ==> Add(s, form) == AddCorrected(s, form, uuid8)
    ensures
      && RequiredPresent(Normalize(form)) && FitsColumns(Normalize(form))
      && Employees.IdPrefix + uuid8 !in s && |Employees.IdPrefix + uuid8| <= Employees.IdWidth
      ==>
      && Add(s, form) == Employees.Outcome(s, ShowForm(Some(MsgAddFailed)))
      && AddCorrected(s, form, uuid8).result == Redirect(Home, MsgAdded)
      && AddCorrected(s, form, uuid8).store != s
  {
    if && RequiredPresent(Normalize(form)) && FitsColumns(Normalize(form))
       && Employees.IdPrefix + uuid8 !in s && |Employees.IdPrefix + uuid8| <= Employees.IdWidth
    {
      var k := Employees.IdPrefix + uuid8;
      assert k in AddCorrected(s, form, uuid8).store;
    }
  }

  /** `edit(id)`. An unknown id redirects home with 'Employee not found' and
      never updates; a GET shows the form; a POST with a blank required field
      re-renders without updating; otherwise only row `id` changes, keeping
      its identifier and taking the stripped fields and cleaned badges. */
  function Edit(s: Employees.Store, id: string, form: Form, isPost: bool): (r: Employees.Outcome<Reply>)
    ensures Employees.GetEmployee(s, id).None? ==> r == Employees.Outcome(s, Redirect(Home, MsgNotFound))
    ensures Employees.Valid(s) && id !in s ==> r.store == s && r.result == Redirect(Home, MsgNotFound)
    ensures r.result.ShowForm? ==> r.store == s
    ensures !isPost ==> r.store == s
    ensures Employees.GetEmployee(s, id).Some? && !isPost ==> r == Employees.Outcome(s, ShowForm(None))
    ensures Employees.GetEmployee(s, id).Some? && isPost && !RequiredPresent(Normalize(form)) ==>
      r == Employees.Outcome(s, ShowForm(Some(MsgRequired)))
    ensures Employees.GetEmployee(s, id).Some? && isPost && RequiredPresent(Normalize(form)) ==>
      r.result == Redirect(ViewEmployee(id), MsgUpdated) || r == Employees.Outcome(s, ShowForm(Some(MsgUpdateFailed)))
    ensures r.result.Redirect? && r.result.target.ViewEmployee? ==>
      && isPost && RequiredPresent(Normalize(form))
      && id in s && r.store.Keys == s.Keys
      && (forall j :: j in s && j != id ==> r.store[j] == s[j])
      && r.store[id].id == s[id].id
      && r.store[id].fullname == VStr(PyStr.Strip(Field(form, "fullname")))
      && r.store[id].location == VStr(PyStr.Strip(Field(form, "location")))
      && r.store[id].jobTitle == VStr(PyStr.Strip(Field(form, "job_title")))
      && Employees.GetEmployee(r.store, id).Some?
      && Employees.GetEmployee(r.store, id).value["badges"] == VList(ParseBadges(form))
  {
    if Employees.GetEmployee(s, id).None? then Employees.Outcome(s, Redirect(Home, MsgNotFound))
    else if !isPost then Employees.Outcome(s, ShowForm(None))
    else
      var i := Normalize(form);
      if !RequiredPresent(i) then Employees.Outcome(s, ShowForm(Some(MsgRequired)))
      else
        RouteDataFields(i, "");
        var u := Employees.UpdateEmployee(s, id, RouteData(i));
        if u.result.Some? then Employees.Outcome(u.store, Redirect(ViewEmployee(id), MsgUpdated))
        else Employees.Outcome(u.store, ShowForm(Some(MsgUpdateFailed)))
  }

  /** The edit route keeps the store consistent. */
  lemma EditValid(s: Employees.Store, id: string, form: Form, isPost: bool)
    requires Employees.Valid(s)
    ensures Employees.Valid(Edit(s, id, form, isPost).store)
  {
    var i := Normalize(form);
    if Employees.GetEmployee(s, id).Some? && isPost && RequiredPresent(i) {
      var u := Employees.UpdateEmployee(s, id, RouteData(i));
      Employees.UpdateEmployeeValid(s, id, RouteData(i));
      assert Edit(s, id, form, isPost).store == u.store;
    }
  }

  /** On a consistent store a complete edit of an existing employee commits
      exactly when the stripped fields fit their columns (the row keeps its
      key, and every written column is a string); otherwise it reports
      'Error updating employee' and nothing changes. */
  lemma EditSucceeds(s: Employees.Store, id: string, form: Form)
    requires Employees.Valid(s) && id in s && RequiredPresent(Normalize(form))
    ensures FitsColumns(Normalize(form)) ==> Edit(s, id, form, true).result == Redirect(ViewEmployee(id), MsgUpdated)
    ensures !FitsColumns(Normalize(form)) ==> Edit(s, id, form, true) == Employees.Outcome(s, ShowForm(Some(MsgUpdateFailed)))
  {
    var i := Normalize(form);
    RouteDataFields(i, "");
    var e := Employees.Apply(s[id], RouteData(i));
    assert Employees.Storable(e) <==> FitsColumns(i);
  }

  /** The JSON reply of `api_employee`. */
  datatype ApiReply = ApiReply(status: int, success: bool, data: Option<Dict>, error: Option<string>)

  /** `api_employee(id)`: 404 with `success: False` and 'Employee not found'
      when there is no such employee, otherwise 200 with `success: True` and
      the record. */
  function ApiEmployee(s: Employees.Store, id: string): (r: ApiReply)
    ensures r.status == 200 || r.status == 404
    ensures Employees.Valid(s) ==> (r.status == 404 <==> id !in s)
    ensures r.status == 404 ==> !r.success && r.data.None? && r.error == Some(MsgNotFound)
    ensures r.status == 200 ==>
      && r.success && id in s
      && r.data == Employees.ToDict(s[id]) && r.data.Some?
      && r.data.value["id"] == s[id].id && r.data.value["fullname"] == s[id].fullname
      && r.data.value["location"] == s[id].location && r.data.value["job_title"] == s[id].jobTitle
  {
    match Employees.GetEmployee(s, id)
    case Some(e) => ApiReply(200, true, Some(e), None)
    case None => ApiReply(404, false, None, Some(MsgNotFound))
  }
}
