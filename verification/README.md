# cruddy-side-project in Dafny

A functional model of the decision logic in the two small Flask applications
of *cruddy-side-project*, with proofs about that logic:

- the serverless **Employee Directory** (`lambda-app`):
  - the `Employee` record and its store (`models.py`);
  - the form normalisation of the `add`/`edit` routes and `api_employee`
    (`routes.py`);
  - the header policy of the Lambda entry point (`handler.py`);
  - the S3 static-asset handler (`static.py`);
- the **Dog Events Tracker** (`directory-frontend`):
  - the `Dog`/`Event` store with its cascade (`database.py`);
  - the declared field rules of its forms, and the Bristol-scale parse and
    pre-populate pair;
  - the login, registration and admin-only delete decisions
    (`application.py`).

Each store is a finite map from primary key to row. A commit that the
database refuses leaves the map as it was. Those refusals are: a NULL in a
NOT NULL column, a duplicate key, a string longer than its
`VARCHAR(n)` column (PostgreSQL refuses it rather than truncating; the
widths are those the columns declare, e.g. `String(36)` for an employee id and
`String(100)` for its text fields), or an event
whose `dog_id` names no dog (PostgreSQL enforces the foreign key). The same refusal then either
returns `None` (`models.py`, which catches and rolls back) or raises
(`database.py`, which does not catch). Routes are pure functions that take the
store, the submitted form and the caller's role and return the new store plus
a reply: a form page with an optional flash message, or a redirect.

Environment and outside code become parameters:

- random UUIDs are an `uuid8` string;
- bcrypt is a `checkPassword` function and a `hash` value;
- the e-mail syntax validator is a boolean;
- the S3 `head_object`/`copy_object` pair is a `head` function;
- the environment variables are `Option<string>` inputs;
- the import-time default of `Event.timestamp` is `defaultTime`.

Modules, one per concern:

- `Common`: `Option`, prefix and suffix tests.
- `PyStr`: Python's `str.strip`, `split`, `join`, `isdigit`, `int`/`str` on
  naturals.
- `Values`: the dynamic values held in request and record dictionaries.
- `Json`: `json.dumps`/`json.loads` on those values.
- `Employees`, `EmployeeRoutes`, `DogStore`, `Forms`, `Access`,
  `LambdaHandler`, `StaticAssets`: as named above.

## Model

| member | source | states |
|---|---|---|
| Employees.Init | lambda-app/app/models.py:19-23 | Construction succeeds iff every keyword names a column, and each column takes its keyword's value. A given `id` keyword is kept as passed, even `None`; only an absent one becomes `emp-` plus the UUID prefix. |
| Employees.FromDictNeverGenerates | lambda-app/app/models.py:35-44 | `from_dict` always passes `id=`, so its result does not depend on the UUID. Its id is `d.get('id')`: `None` for a dictionary without `id`, never a generated one. |
| Employees.ToDict | lambda-app/app/models.py:25-33 | Exactly the five column keys. The scalar columns are reported as stored; a falsy `badges` column reports `[]`. A non-empty `badges` text is read with the model's JSON reader, so the result is `None` whenever that reader rejects the text (see "Left out" for what it reads). |
| Employees.ToDictFromDict | lambda-app/app/models.py:25-44 | `to_dict(from_dict(d))` gives back `id`, `fullname`, `location` and `job_title` of `d`, and `badges == d.get('badges', [])`. |
| Employees.GetEmployee | lambda-app/app/models.py:58-65 | A present row is returned as its `to_dict` (five keys, the stored columns). On a consistent store, `None` exactly when the id is absent, and the record carries the key as its id. |
| Employees.Insert | lambda-app/app/models.py:70-72 | The commit is accepted iff the row is storable (a string id of at most 36 characters and fullname, location and job_title strings of at most 100, the widths declared at models.py lines 13-16) and its key is new. The row is then added under its key and every other row is kept. |
| Employees.CreateEmployeeAsWritten | lambda-app/app/models.py:67-77 | Data without `id` always returns `None` and leaves the store unchanged. Any failure leaves it unchanged, and a success needs a supplied string id. |
| Employees.CreateEmployee | lambda-app/app/models.py:67-77 | The corrected creation succeeds iff the (given or generated) id is a new string of at most 36 characters and the three required fields are strings of at most 100. On success only that row is added, and it reads back as supplied, badges included. On failure nothing changes. |
| Employees.CreateEmployeeValid | lambda-app/app/models.py:67-77 | Creation in a consistent store (rows under their own keys, storable, badges readable) leaves it consistent. |
| Employees.UpdateEmployee | lambda-app/app/models.py:79-98 | An unknown id returns `None` with no change; a refused commit returns `None` with no change. The commit comes before `to_dict`, so a `None` with a changed store is exactly an accepted commit whose stored `badges` then fail to read back; only an update without `badges` over such a row can do that. Otherwise only row `id` changes and its id never does. Named fields take the new values, `badges` reads back as given, and unnamed fields are kept. It succeeds iff the updated row is storable. |
| Employees.UpdateEmployeeValid | lambda-app/app/models.py:79-98 | An update keeps a consistent store consistent. |
| Employees.DeleteEmployee | lambda-app/app/models.py:100-112 | `True` iff the row existed. Afterwards it is absent and every other row is unchanged; on `False` nothing changed. |
| Json.DecodeEncode | lambda-app/app/models.py:32-43 | `json.loads(json.dumps(v)) == v` for every value the stores hold: strings, integers, `None` and string lists. |
| PyStr.Strip | lambda-app/app/routes.py:46-48 | The result is no longer than the input and has no whitespace at either end. |
| PyStr.StripFacts | lambda-app/app/routes.py:46-48 | `strip` removes only a whitespace prefix and a whitespace suffix. It yields `''` iff the text is all whitespace. |
| PyStr.StripIdempotent | lambda-app/app/routes.py:58 | Stripping twice equals stripping once. |
| PyStr.Split | lambda-app/app/routes.py:49 | `split(sep)` yields at least one piece. No piece contains `sep`, and joining the pieces with `sep` gives the text back. |
| PyStr.SplitJoin | lambda-app/app/routes.py:49 | `sep.join(xs).split(sep) == xs` when no element contains `sep`. |
| EmployeeRoutes.CleanBadges | lambda-app/app/routes.py:58 | The cleaned list is no longer than the pieces. Each entry is non-empty and stripped, and comma-free when the pieces are. |
| EmployeeRoutes.CleanBadgesAppend | lambda-app/app/routes.py:58 | Cleaning distributes over concatenation, so badge order is kept. |
| EmployeeRoutes.CleanBadgesOfClean | lambda-app/app/routes.py:58 | A list that is already clean is its own cleaning. |
| EmployeeRoutes.ParseBadges | lambda-app/app/routes.py:49-58 | A missing or empty `badges` field gives `[]`. Every badge is non-empty, has no surrounding whitespace and contains no comma. |
| EmployeeRoutes.ParseBadgesJoin | lambda-app/app/routes.py:49-58 | Badge parsing inverts `','.join` on clean badge lists. |
| EmployeeRoutes.Add | lambda-app/app/routes.py:40-70 | The route as written never changes the store. A blank stripped required field gives 'All fields are required'. Every complete form gives 'Error adding employee', because `create_employee` as written always fails on the route's id-less data. |
| EmployeeRoutes.AddCorrected | lambda-app/app/routes.py:40-70 | The route over the corrected `create_employee`. A blank required field gives 'All fields are required' with no change. Otherwise it redirects iff the `emp-` id is unused and at most 36 characters and the three stripped fields are at most 100 characters; then exactly one employee is added under that id, with the stripped fields and cleaned badges, and on any refusal the form comes back with no change. |
| EmployeeRoutes.AddCorrectedValid | lambda-app/app/routes.py:40-70 | The corrected route keeps a consistent store consistent. |
| EmployeeRoutes.CreateFromInput | lambda-app/app/models.py:67-77 | `create_employee` on a route's normalised input succeeds iff the generated id is new and fits 36 characters and the three fields fit 100; the new row reads back with the input's fields and badges. |
| EmployeeRoutes.AddCorrectedDiffers | lambda-app/app/routes.py:45-66 | The two routes agree on a blank required field. On every complete form whose stripped fields fit their columns and whose fresh id is unused, the route as written returns 'Error adding employee' with no change, while the corrected one adds the employee. |
| EmployeeRoutes.AddAsWrittenNeverCreates | lambda-app/app/routes.py:45-66 | With `create_employee` as written, the route's data never yields an employee: it returns `None` and leaves the store unchanged. |
| EmployeeRoutes.Edit | lambda-app/app/routes.py:88-125 | An unknown id redirects with 'Employee not found' and never updates. For an existing id: a GET shows the form unchanged; a blank required field gives 'All fields are required' with no change. A complete POST either redirects to the employee with 'Employee updated successfully!' or gives 'Error updating employee' with no change. A successful edit changes only row `id`, keeps its id, and stores the stripped fields and the cleaned badges. |
| EmployeeRoutes.EditSucceeds | lambda-app/app/routes.py:100-118 | On a consistent store, a complete edit of an existing employee commits and redirects to the employee exactly when the three stripped fields fit their 100-character columns; otherwise the form comes back with 'Error updating employee' and nothing changes. |
| EmployeeRoutes.EditValid | lambda-app/app/routes.py:88-125 | The edit route keeps a consistent store consistent. |
| EmployeeRoutes.ApiEmployee | lambda-app/app/routes.py:162-180 | 404 with `success: False` and 'Employee not found' iff the id is absent. Otherwise 200 with `success: True` and the row's `to_dict` record: its id, name, location and job title as stored. |
| DogStore.DogToDict | directory-frontend/app/database.py:32-40 | The dictionary has exactly the five dog columns. |
| DogStore.DogRoundTrip | directory-frontend/app/database.py:32-51 | `to_dict(from_dict(d))` keeps all five dog columns of `d`, and `from_dict(to_dict(g)) == g`. |
| DogStore.EventToDict | directory-frontend/app/database.py:66-82 | The dictionary has exactly the eight event columns. |
| DogStore.EventRoundTrip | directory-frontend/app/database.py:66-96 | `to_dict(from_dict(d))` keeps every event column of `d`, and `from_dict(to_dict(e)) == e`. |
| DogStore.GetDog | directory-frontend/app/database.py:175-178 | `None` iff the id is absent. A returned dictionary reads back as the stored dog. |
| DogStore.AssignIdFacts | directory-frontend/app/database.py:183-184 | A truthy supplied id is kept. A missing or falsy one is replaced by the prefix plus the UUID part. No other key changes. |
| DogStore.CreateDog | directory-frontend/app/database.py:180-189 | Succeeds iff the assigned id is a new key and every column is a string within its `VARCHAR` width (id 36, name 100, approx_age 50, size 20, breed_type 100); otherwise it raises with no change. On success exactly that dog is added, the events are untouched, a truthy supplied id is kept, and the returned dictionary is the stored row. |
| DogStore.OverlongNameRaises | directory-frontend/app/database.py:24 | A name longer than 100 characters makes `create_dog` raise, and nothing is stored. |
| DogStore.CreateDogValid | directory-frontend/app/database.py:180-189 | Creating a dog keeps the store consistent, the foreign key of every event included. |
| DogStore.UpdateDog | directory-frontend/app/database.py:191-202 | An unknown id returns `None` with no change. Otherwise only dog `id` changes and its id never does. Named columns take the new values and the others are kept. It succeeds iff the new row is storable (strings within the column widths); otherwise it raises with no change. |
| DogStore.UpdateDogValid | directory-frontend/app/database.py:191-202 | Updating a dog keeps the store consistent. |
| DogStore.DeleteDog | directory-frontend/app/database.py:204-211 | `True` iff the dog existed, and afterwards it is absent. The cascade removes exactly that dog's events, so no remaining event names it. Everything else is unchanged. |
| DogStore.DeleteDogValid | directory-frontend/app/database.py:30 | Thanks to the cascade, deleting a dog never leaves an event without its dog. |
| DogStore.CreateEvent | directory-frontend/app/database.py:218-227 | Succeeds iff the row is storable, its key is new and its dog exists; otherwise it raises with no change. Storable includes the widths: id and dog_id 36, event_type 50, location 200. A missing timestamp takes the column default. The returned dictionary is the stored row, and the dogs are untouched. |
| DogStore.CreateEventValid | directory-frontend/app/database.py:58-60 | Creating an event keeps every event attached to an existing dog. |
| DogStore.UpdateEvent | directory-frontend/app/database.py:229-240 | An unknown id returns `None` with no change. Otherwise only event `id` changes and its id never does. Named columns take the new values and the others are kept. On a consistent store it succeeds iff the new row is storable, column widths included, and its dog exists. |
| DogStore.UpdateEventValid | directory-frontend/app/database.py:229-240 | Updating an event preserves store consistency, the foreign key included. |
| DogStore.DeleteEvent | directory-frontend/app/database.py:242-249 | `True` iff the event existed, and afterwards it is absent. Nothing else changes and consistency is preserved. |
| DogStore.InsertNewest | directory-frontend/app/database.py:215 | Insertion into the ordered list adds exactly the new key. |
| DogStore.InsertNewestMembers | directory-frontend/app/database.py:215 | The list after insertion holds the new key and the old entries, and nothing else. |
| DogStore.InsertNewestSorted | directory-frontend/app/database.py:215 | Insertion keeps a list in non-increasing timestamp order. |
| DogStore.CollectEvents | directory-frontend/app/database.py:213-215 | The query returns the keys of exactly the dog's events, each once, in non-increasing timestamp order. |
| DogStore.GetDogEvents | directory-frontend/app/database.py:213-216 | Exactly the events whose `dog_id` is the dog, each once, in non-increasing timestamp order, each reported as its `to_dict`. |
| Forms.Run | directory-frontend/app/application.py:190 | The greedy `[C]+` run is the longest prefix of class characters. |
| Forms.MatchesClassIff | directory-frontend/app/application.py:189-192 | `^[C]+$` accepts exactly a non-empty run of class characters, optionally followed by one final newline. |
| Forms.MatchesSpaceClass | directory-frontend/app/application.py:189-192 | For the classes that include `\s`, the pattern accepts exactly the non-empty texts of class characters. |
| Forms.UsernameTrailingNewline | directory-frontend/app/application.py:397-400 | `bob\n` passes the user-name pattern although the newline is outside the class. |
| Forms.FirstLine | directory-frontend/app/application.py:457 | The text before the first newline: the part a look-ahead's `.*` can scan. |
| Forms.LookAheadIff | directory-frontend/app/application.py:457 | `(?=.*[X])` at the start succeeds iff the first line holds a class character. |
| Forms.RunChain | directory-frontend/app/application.py:182-193 | A field reports no error iff every rule accepts. With all rules accepting, exactly the earlier errors are kept. |
| Forms.DogFormRules | directory-frontend/app/application.py:176-252 | The dog form is valid iff: the name has 2..100 characters from letters, whitespace, `-`, `'`, `.`; the age has 2..50 such characters or digits; the size is small, medium or large; the breed has 2..100 name characters or `,` `&`. |
| Forms.EmptySizeMessage | directory-frontend/app/application.py:222-231 | An empty size reports only 'Size is required'. |
| Forms.UserPasswordRules | directory-frontend/app/application.py:448-466 | A password is accepted iff: it has at least 8 characters; its first character is a letter, digit or one of `@$!%*?&`; and its first line holds a lower-case letter, an upper-case letter, a digit and a special. Later characters are unrestricted. |
| Forms.UserUsernameRules | directory-frontend/app/application.py:388-407 | A user name is accepted iff it has 3..80 characters from `[A-Za-z0-9_-]`, the last possibly being a single final newline. |
| Forms.UserCredentialsPassLogin | directory-frontend/app/application.py:351-384 | Any user name and password the user form accepts also pass the login form: 3..80 characters, and at least 6 for the password. |
| Forms.UserRoleRules | directory-frontend/app/application.py:468-480 | The role is accepted iff it is admin, manager or employee. |
| Forms.ParseBristol | directory-frontend/app/application.py:852 | The scale is stored as an integer iff the value is a non-empty digit string, otherwise `None`. It is never negative. |
| Forms.Prepopulate | directory-frontend/app/application.py:902 | The form is filled with `''` iff the stored scale is unset or 0. |
| Forms.BristolRoundTrip | directory-frontend/app/application.py:888-902 | Parse after pre-populate returns the stored scale iff it is unset or positive. |
| Forms.BristolChoicesRoundTrip | directory-frontend/app/application.py:336-345 | Every choice survives parse then pre-populate, and parses to nothing or to 1..7. |
| Forms.BristolAcceptedRange | directory-frontend/app/application.py:331-349 | Every value the select accepts, blank text included, stores nothing or a scale from 1 to 7. |
| Access.FindUsername | directory-frontend/app/application.py:661 | `filter_by(username).first()`: `None` iff no user has the name; otherwise the first user with it. |
| Access.NextAsWritten | directory-frontend/app/application.py:665-667 | `next` is followed iff it is present, non-empty and starts with `/`; otherwise the target is home. |
| Access.NextAsWrittenLeavesSite | directory-frontend/app/application.py:665-667 | The check as written follows `//evil.example`, which is not a path on this site. |
| Access.SafeNext | directory-frontend/app/application.py:665-667 | The corrected target is always a local path: home or `next`. |
| Access.SafeNextFollows | directory-frontend/app/application.py:665-667 | `next` is followed iff it is a local path. On local paths the corrected check agrees with the one as written. |
| Access.Login | directory-frontend/app/application.py:653-677 | An authenticated visitor goes home. A login happens only for a valid form and an existing, active user whose password checks; it redirects to the target of the `next` check as written, with the welcome message. An inactive user gets 'Account is disabled…'. A wrong password or unknown name gets 'Invalid username or password.'. An invalid or unsubmitted form shows the page. |
| Access.SafeLogin | directory-frontend/app/application.py:653-677 | The corrected login makes the same decision as `login`, for the same user with the same message, but a successful login always lands on a local path. |
| Access.LoginFollowsNext | directory-frontend/app/application.py:663-668 | A successful login follows `next` iff it is non-empty and starts with `/`, so `//evil.example` leaves the site. The corrected login stays on it. |
| Access.Register | directory-frontend/app/application.py:690-727 | Non-admins are refused with no change. An existing user name, then an existing e-mail, is rejected before anything is created. An admin's valid submission with an unused name and e-mail appends exactly the active user `user-<uuid8>` with the submitted fields and the hash, and redirects home with 'User … created successfully!'. If that id is taken, or the id or hash is wider than its `String(36)`/`String(128)` column, the form comes back with 'Error creating user' and nothing changes. Nothing else creates a user. Uniqueness of ids, names and e-mails is preserved. |
| Access.RegisteredFits | directory-frontend/app/application.py:77-82 | A registered user fits every `VARCHAR` column of `users`: id 36, user name 80, e-mail 120, hash 128, full name 100, role 20. |
| Access.RegisteredRole | directory-frontend/app/application.py:709-715 | A registered user has an allowed role, is active and has a `user-` id. |
| Access.DeleteDogRoute | directory-frontend/app/application.py:812-830 | Non-admins are refused with no change. For an admin the dog is gone and, when it existed, exactly its events go with it. Every other dog and event is unchanged. The flash message says which case happened. |
| Access.DeleteEventRoute | directory-frontend/app/application.py:913-933 | Non-admins are refused with no change. For an admin exactly that event is gone; the dogs and every other event are unchanged. The redirect goes to its dog's page, or home with 'Event not found'. |
| LambdaHandler.AllowOrigin | lambda-app/handler.py:31-37 | The request origin is echoed iff it is listed (exact match) or the environment is development. Otherwise the first listed origin is sent. |
| LambdaHandler.OriginExactMatch | lambda-app/handler.py:31-35 | An origin listed after `", "` carries the space and is not echoed: no trimming. |
| LambdaHandler.Decorate | lambda-app/handler.py:23-48 | The header keys afterwards are the original keys plus exactly the keys the handler writes. |
| LambdaHandler.DecorateFacts | lambda-app/handler.py:23-48 | Headers not written are preserved. The fixed CORS and security headers are always set. Cache-Control is set iff the path is static, else left as it was. The origin rule holds. |
| LambdaHandler.DecorateIdempotent | lambda-app/handler.py:23-48 | Decorating already decorated headers changes nothing. |
| LambdaHandler.ErrorResponse | lambda-app/handler.py:52-63 | Status 500 with exactly Content-Type `application/json` and the first configured origin. The exception text appears only in development. |
| LambdaHandler.ErrorDefaultAllowed | lambda-app/handler.py:58 | Without `ALLOWED_ORIGINS` the error response allows `http://localhost:3000`. |
| LambdaHandler.Handle | lambda-app/handler.py:16-63 | A raising application or a null path, request headers or response headers gives exactly the error response. Otherwise status and body pass through. The headers are the response's own plus the written ones, with unwritten ones kept. The fixed headers are set, and `Access-Control-Allow-Origin` is the allowed origin for the request's `origin`. Cache-Control is set on static paths. |
| StaticAssets.CacheControl | lambda-app/static.py:70-79 | One year iff the key ends in `.css`, `.js` or `.ico`; thirty days iff `.png`, `.jpg` or `.gif`; one hour otherwise. The content type plays no part. |
| StaticAssets.CacheControlCaseSensitive | lambda-app/static.py:72 | `STYLE.CSS` gets the one-hour default: suffixes are case-sensitive. |
| StaticAssets.StylesheetsCachedForAYear | lambda-app/static.py:72-73 | Every `.css` key is cached for a year. |
| StaticAssets.Dispatch | lambda-app/static.py:21-26 | A record produces an action iff its event name starts with `ObjectCreated` or `ObjectRemoved`, and the action is for the record's bucket and key. `ObjectCreated*` gets new-file processing: a failed S3 call is noted, otherwise a copy with the reported content type (default `application/octet-stream`) and the key's Cache-Control. Any other `ObjectRemoved*` gets deletion processing. |
| StaticAssets.FirstUnreadable | lambda-app/static.py:14-17 | The position of the first record whose lookups raise. |
| StaticAssets.Handle | lambda-app/static.py:11-38 | Status 200 iff `Records` exists and every record is readable; S3 failures never change it. The work done is that of the records before the first unreadable one, in order. A 500 carries the `KeyError` text. |
| StaticAssets.ActionsSnoc | lambda-app/static.py:14 | Records are processed in order: one more record appends its actions. |
| StaticAssets.ActionsFromRecords | lambda-app/static.py:14-26 | Every action belongs to some record, and every copy carries its key's Cache-Control. |
| StaticAssets.ActionsIgnoreOthers | lambda-app/static.py:21-26 | No action is taken iff no record names a creation or a removal. |

## Left out

- Flask, flask_login, flask_wtf and flask_limiter machinery is left out: routing, sessions, CSRF, templates, flash categories and the rate-limit algorithm. The configured limit strings appear only as constants (`Access.DefaultRateLimits` …, `directory-frontend/app/config.py:31-36`).
- bcrypt is the `checkPassword` parameter and the stored `hash`. UUID generation is the `uuid8` parameter. Neither is modelled further.
- Json.Encode: escapes only `"` and `\`. The `\uXXXX` escapes `json.dumps` writes for control and non-ASCII characters are not modelled, so the round trip is proved for this escaping only.
- Event `duration`, ISO-format timestamps and datetime arithmetic are left out. Timestamps are integers, and `to_dict` is modelled without the derived `duration` entry.
- PyStr.IsDigit: `\d` and `str.isdigit` are taken as ASCII `0`-`9`. Python also accepts other Unicode digits.
- The e-mail syntax check is a library validator; its verdict is the `emailSyntax` input.
- The `EventForm` fields other than the Bristol scale are left out: dog, type, timestamps, location and notes. So are the bodies of `add`/`edit`/`view` for dogs and events beyond the Bristol parse and pre-populate.
- `get_employees`, `get_dogs` and the list APIs are left out. They are plain `to_dict` maps over all rows.
- Employees.Apply, DogStore.ApplyDog, DogStore.ApplyEvent: keys naming non-column attributes are ignored. Examples are a relationship or a method name, which `hasattr` also accepts.
- Employees.Init, Employees.Construct: only column keywords are modelled as accepted. SQLAlchemy's declarative constructor also accepts any other class attribute that passes `hasattr`, such as `query` or `to_dict`, which the model treats as a `TypeError`.
- The database is taken to be a PostgreSQL server: `lambda-app`'s tests and data migration target one, and `directory-frontend`'s configuration defaults to one. So the foreign key and the declared `VARCHAR` widths are enforced. SQLite enforces neither: it would accept orphan events and over-long strings. Both applications fall back to it when `DATABASE_URL` is unset (`lambda-app/app/__init__.py:26`, `directory-frontend/app/database.py:12` and its run scripts).
- Employees.Storable, DogStore.StorableDog, DogStore.StorableEvent: a value of another type in a typed column (an integer for a `VARCHAR`, a digit string for an `INTEGER`) is modelled as a refusal. PostgreSQL instead applies its assignment cast and stores the converted value, so e.g. `create_dog` with `approx_age` the integer `3` succeeds there and reads back `'3'`. The routes only pass strings.
- Employees.ToDict, Json.Decode: `Json.Decode` reads only the text `Json.Encode` writes: `null`, a quoted string, a decimal integer, or a list of strings with the `", "` separator, with only `\"` and `\\` escapes. `json.loads` also accepts whitespace, compact separators, `true`/`false`, floats, objects, lists holding non-strings and `\u` escapes. So on a `badges` column written by other code the model can return `None` where the source returns a value.
- Access.Login: the `except` branch that flashes 'Login error' is not modelled; the model has no raising query.
- Access.Register: the text of a failed commit's exception after 'Error creating user: ' is not modelled.
- The exception branches of the routes (`Error adding employee: …`, `Error editing employee: …`) are left out. The store functions they call do not raise in the model.
- Role checks exist only on `register`, `delete` and `delete_event`; every other route is open to any logged-in user.
- `InputRequired` stops the chain and discards earlier errors; `Length`/`Regexp` errors accumulate.
- StaticAssets.MissingName: a record without its `s3`, `bucket` or `object` entry is treated as lacking the nested entry. The `KeyError` text then names the inner key, not the missing outer one.
- StaticAssets.Handle: a record whose fields are not strings is not modelled; `startswith` on those would raise. Logging and `process_file_deletion`'s print are left out.
- The one-shot helpers (`init_sample_*`, `before_request`), the migration script, config loading and the test files are not part of this model.

## Findings

| source | as written | input that shows it | evidently intended | confidence | as-written member | corrected member |
|---|---|---|---|---|---|---|
| lambda-app/app/models.py:35-44 | `from_dict` passes `id=data.get('id')`, so `__init__` sees an `id` key and never generates one. The route's data has no `id`, so the INSERT has a NULL primary key, the commit fails, and `/add` always reports 'Error adding employee'. | any `/add` POST with all required fields, e.g. fullname `Ann`, location `Oslo`, job_title `Dev` | a new `emp-` identifier is generated when the data has no id | high (not executed) | Employees.CreateEmployeeAsWritten, EmployeeRoutes.Add, EmployeeRoutes.AddAsWrittenNeverCreates | Employees.CreateEmployee, EmployeeRoutes.AddCorrected |
| directory-frontend/app/application.py:665-667 | the `next` check accepts any value starting with `/` | `next=//evil.example`: a browser reads it as a link to another host | only paths on this site are followed | high (not executed) | Access.NextAsWritten, Access.NextAsWrittenLeavesSite, Access.Login, Access.LoginFollowsNext | Access.SafeNext, Access.SafeLogin |
