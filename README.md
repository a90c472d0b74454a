# File-management server: verified model of the upload registry

This project models the request-handling core of a small file-management
server (`backend/server.js`). The server keeps the metadata of uploaded files
in a module-level in-memory table, `uploadedFiles`. Its route handlers change
that table one step at a time:

- `POST /upload` appends a record for the stored file.
- `POST /add-tags` replaces the tags of the first record with a given name.
- `GET /uploads/:filename` and `GET /uploads/share/:filename` serve a file and add one to its view count.
- `GET /uploads/stats/:filename` and `GET /uploads` only read the table.

Three routes sit behind a bearer-token gate: upload, add-tags and the listing.
The project also models that gate, the seeded user table, the lookup of a user
by email and the login route.

Layout, one module per file:

- `common.dfy` (`Common`): `Option` stands for a JavaScript `undefined`. `Result` is either a value or a `Failure`, which is an HTTP status plus the JSON message the server sends.
- `text.dfy` (`Text`): the JavaScript string behaviour the server relies on. Writing the clock value as decimal text (`Date.now() + "-"`) is `Decimal`; `String.prototype.split` with a one-character separator is `Split`.
- `lookup.dfy` (`Lookup`): `Array.prototype.find`, returning the index of the first match so that a handler can update that record in place.
- `auth.dfy` (`Auth`): the seeded users, `findUserByEmail`, token extraction, the gate (`authenticateToken`) and the login route.
- `files.dfy` (`FileTable`): the pure specification of the table. It holds the record type, the stored-name scheme, the lookup by name, the change each route makes (`Tagged`, `Accessed`, `Step`, `Run`) and the lemmas relating them.
- `server.dfy` (`Server`): class `Registry`. Its field `files` is the table, and its methods are the route handlers. Each handler is proved to leave the table exactly as the matching `FileTable` function says.

The calls into external libraries are parameters:

- Token verification (signature and expiry) is `verify: string -> Option<Claims>`.
- Token signing is `sign: Claims -> string`.
- Password comparison is `compare: (string, string) -> bool`.
- Password hashing is `hash: string -> string`.
- The clock value (`Date.now()`), the request's protocol and its host are plain parameters.

A few facts about the server that the model keeps as they are:

- A new record's tags are an empty list.
- Tags are stored as the list the client sends.
- The stored name is the millisecond clock value, a dash and the client's file name.
- Add-tags answers 400 for an unknown name, while the read routes answer 404.
- The server has no delete route and no register route.

## Model

| member | source | states |
|---|---|---|
| Text.Decimal | backend/server.js:48 | the clock value's text is non-empty, all decimal digits, without a leading zero, and exactly "0" for zero |
| Text.ParseDecimalOfDecimal | backend/server.js:48 | reading the decimal text back gives the clock value (round trip) |
| Text.DecimalInjective | backend/server.js:48 | two clock values with the same text are equal |
| Text.Split | backend/server.js:58 | `split(' ')` yields at least one piece and no piece contains the separator |
| Text.JoinOfSplit | backend/server.js:58 | joining the pieces with the separator gives back the original header |
| Text.SplitOfJoin | backend/server.js:58 | splitting a join of separator-free pieces gives back the pieces |
| Lookup.FindIndex | backend/server.js:54 | `find` returns the first position whose element passes the test, and none exactly when no element passes |
| Auth.InitialUsers | backend/server.js:25-33 | the server starts with exactly the admin user (id 1, role admin) and the regular user (id 2, role user), each holding the hash of its seeded password; no other email is known |
| Auth.FindUserByEmail | backend/server.js:54 | returns the first user whose email is equal to the given one, and nothing exactly when no user has it |
| Auth.ExtractToken | backend/server.js:58-60 | a token that is found is non-empty, free of spaces, and comes from a present header |
| Auth.TokenOfBearerHeader | backend/server.js:58 | a header `scheme token[ rest]` yields exactly `token` |
| Auth.TokenShape | backend/server.js:58 | conversely, every token found is the piece right after the header's first space |
| Auth.Authenticate | backend/server.js:57-67 | 401 exactly when there is no token; 403 exactly when there is one and verification rejects it; when verification accepts the token, exactly `Ok` of the claims it returns |
| Auth.MissingTokenSkipsVerification | backend/server.js:60-62 | without a token the outcome is 401 whatever the verifier would say, so verification is never consulted |
| Auth.Login | backend/server.js:70-82 | success exactly when the first user with that email exists and the password matches its hash; the session then carries that user's role and a token over its id and role; every failure is 400 "Invalid credentials" |
| Auth.UnknownEmailIgnoresPassword | backend/server.js:73-74 | an unknown email is refused with 400 whatever the password and the comparison, so the password is not checked |
| Auth.SeededAdminLogin | backend/server.js:26-30 | the seeded admin logs in exactly when the password matches the hash of its seeded password, and gets the admin role |
| FileTable.StoredFilename | backend/server.js:47-49 | the stored name ends with a dash and the client's file name, preceded by a non-empty run of digits that reads back as the clock value |
| FileTable.StoredFilenameInjective | backend/server.js:48 | different clock values or different client names never give the same stored name |
| FileTable.NewRecord | backend/server.js:88-95 | a new record keeps the stored and original names, has view count 0, no tags, path `/uploads/<name>`, and a link ending in `/uploads/share/<name>` |
| FileTable.FindFile | backend/server.js:106 | the first record stored under the name, and none exactly when no record has it |
| FileTable.FindFileSameNames | backend/server.js:121 | the lookup depends only on the names in the table, so changing tags or view counts never moves it |
| FileTable.Tagged | backend/server.js:106-110 | the first record with the name gets exactly the given tags; every other field and every other record is unchanged; an unknown name changes nothing |
| FileTable.Accessed | backend/server.js:121-124 | the first record with the name gets its view count raised by one; everything else is unchanged; an unknown name changes nothing |
| FileTable.StatsOf | backend/server.js:146-157 | 404 "File not found" exactly when no record has the name; otherwise the name, original name, view count and tags of the first such record |
| FileTable.StepEvolves | backend/server.js:85-158 | no single request removes a record, changes its names, path or link, or lowers its view count |
| FileTable.RunEvolves | backend/server.js:85-158 | the same holds for any sequence of requests: view counts never decrease |
| FileTable.AccessesAddExactlyN | backend/server.js:119-142 | N accesses to a known file, by any mix of the plain and share routes, add exactly N to its view count and change nothing else |
| FileTable.AccessesOfUnknownChangeNothing | backend/server.js:126-140 | any number of accesses to an unknown name leave the table unchanged |
| FileTable.TagsReplacedNotMerged | backend/server.js:109 | tagging twice leaves only the second list of tags |
| FileTable.StatsAfterAddTags | backend/server.js:103-111 | after tagging a known file its statistics show exactly the new tags and are otherwise unchanged; an unknown name still gives 404 |
| FileTable.TagsAndAccessCommute | backend/server.js:109-136 | tagging one file and serving another (or the same) give the same table in either order |
| FileTable.StatsAfterUpload | backend/server.js:88-97 | after an upload the new name's statistics show a never-viewed, untagged file; if a record already had that name, the lookup keeps finding the older one |
| Server.Registry.constructor | backend/server.js:36 | the table starts empty |
| Server.Registry.Upload | backend/server.js:85-100 | the gate's 401/403 and a missing file's 400 leave the table unchanged; otherwise exactly one new record is appended at the end, with the stored name for the clock value; once past the gate the table changes exactly as `Step` says for an upload request |
| Server.Registry.AddTags | backend/server.js:103-111 | the gate's 401/403 and an unknown name's 400 leave the table unchanged; otherwise the table becomes `Tagged` and the updated record is returned; once past the gate the table changes exactly as `Step` says for an add-tags request |
| Server.Registry.List | backend/server.js:114-116 | behind the gate, returns the whole table, and changes nothing |
| Server.Registry.View | backend/server.js:119-129 | 404 exactly for an unknown name; the table becomes `Accessed`, so only that file's view count rises by one; this is `Step` for a view request |
| Server.Registry.Share | backend/server.js:132-142 | the share route has the same outcome and the same table change as the plain route; this is `Step` for a share request |
| Server.Registry.Stats | backend/server.js:145-158 | read-only; answers `StatsOf` the current table |
| Server.UploadTagAndView | backend/server.js:85-158 | an authenticated upload, one tagging and three accesses give statistics with view count 3 and exactly those tags |

## Left out

- JWT signing and verification and bcrypt hashing and comparison are library calls. They are function parameters, so the 1-hour expiry and the secret are not modelled.
- Bcrypt's hash is salted and therefore random. As a parameter, `hash` is a fixed function.
- Multer's disk storage, the creation of the uploads directory, `res.sendFile` and path joining are filesystem I/O. `View` and `Share` return the name of the stored file whose bytes would be sent.
- Express wiring, CORS, dotenv and `app.listen` are not modelled. The user table is passed to `Login` as the value `InitialUsers` produces at start-up.
- The requests and answers that reach `Login` before the user table is initialised are not modelled.
- Server.Registry.Upload: the real response body carries multer's own description of the file plus the shareable link. The model returns the appended record, which holds the stored name, the original name and the same link.
- Server.Registry.AddTags: request-body values are taken to be well typed (a string name and a list of string tags). The source stores whatever JSON value `tags` holds, and an absent `filename` simply matches no record.
- Auth.Login: the email and password are taken to be strings. The source reads them from an untyped JSON body; a missing or non-string password makes the hash comparison reject, so the handler's promise fails and no 400 is sent. That path is not modelled, so "every failure is 400" holds only for string inputs.
- A multipart request whose file sits under a field other than `file` makes multer fail before the handler runs. That error path is not modelled.
- FileTable.Accessed: view counts are unbounded naturals. A JavaScript number stops counting exactly above 2^53.
- Text.Decimal: it writes every number in plain decimal. JavaScript switches to exponent notation at 10^21, far beyond any clock value.
- Concurrent requests are not modelled; handlers run one after another. In the source each handler runs without suspending between the lookup and the update.
- `backend/db.js` is a database pool configuration the server never uses. It is not part of this model, and neither are the frontend components.
