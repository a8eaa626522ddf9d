# Garage sales API: a verified model

This project models the back end of a car dealership's management tool. The
server is an HTTP API over a relational store. It holds employee accounts and
their profiles, vehicles (`voitures`), customers (`clients`) and sales
(`ventes`). The model covers these parts of it:

- the CORS origin check;
- the bearer-token gate in front of every protected route;
- employee registration, which inserts an account and its profile in one transaction;
- login;
- the create, update and delete handlers for vehicles and customers, and the create handler for sales;
- the listings, and the dashboard figures of `GET /api/stats`;
- the statement splitter of the database bootstrap script.

The store is a `Store.Database` object. Its fields are:

- the five tables, each a sequence of rows in primary-key order;
- their AUTO_INCREMENT counters;
- the number of pooled connections handed out and not yet given back;
- the snapshot an open transaction started from.

Each store call takes a `fails` flag, or registration's `Faults` record, that
says whether the store rejects that call. The handlers answer with an
`Api.Reply`, which stands for the status code and the JSON body.

Password hashing and token signing are the function-valued fields of
`Auth.Crypto`. What the libraries promise is written as predicates that the
lemmas assume:

- `HashSound`: a password matches its own hash.
- `HashBinding`: a hash matches no other password.
- `TokensSound`: a token verifies to its claims for seven days, and fails after that.

Time (`now`), the bcrypt salt, and whether each store call fails are
parameters.

Modules follow the program's structure:

- `JsValues`: request bodies, truthiness, `||` and `? 1 : 0`.
- `Cors`: the origin callback.
- `Auth`: credentials, the bearer gate and token expiry.
- `SchemaSplit`: the bootstrap's statement splitter.
- `Tables`: rows and the SQL statements on one table.
- `UpdateBuilder`: the dynamic `SET` list of the update handlers.
- `InsertParams`: the positional INSERT parameter lists.
- `Reporting`: the listings, the sales join and the dashboard.
- `Store`: the database object, its pool and its transactions.
- `Api`: the handlers and the router.

## Model

| member | source | states |
|---|---|---|
| JsValues.Truthy | server/index.js:59 | the falsy values are exactly `undefined`, `null`, `false`, `0` and `""` (also lines 94, 162, 227 and 288) |
| JsValues.AllPresent | server/index.js:162 | the required-field check passes iff every listed field is truthy, and then every listed field was sent (also lines 59, 94, 227 and 288) |
| JsValues.Or | server/index.js:171-172 | `v \|\| fallback` is `v` when `v` is truthy and `fallback` otherwise, and it is truthy iff either operand is |
| JsValues.Flag | server/index.js:193 | `v ? 1 : 0` is 1 or 0, and it is truthy exactly when `v` is |
| JsValues.AsId | server/index.js:276-277 | a JSON value names a row id iff it is a non-negative whole number, and the id is that number |
| Cors.IndexOf | server/index.js:22 | -1 iff the origin is not listed; otherwise the first index holding it |
| Cors.CheckOrigin | server/index.js:18-27 | an origin is allowed iff it is missing, empty or one of the four listed dev servers; a refusal carries the CORS policy message |
| Cors.OnlyListedOrigins | server/index.js:11-16 | a non-empty origin gets through iff it is one of `http://localhost:5173` to `5176` |
| Auth.BearerToken | server/index.js:36-38 | a token is taken iff the header is longer than `Bearer ` and starts with it; the header is then the prefix followed by that non-empty token |
| Auth.BearerRoundTrip | server/index.js:37 | stripping `Bearer ` from `Bearer ` + a non-empty token gives the token back |
| Auth.Authenticate | server/index.js:35-46 | `Unauthorized` iff no bearer token; `Invalid token` iff the token does not verify; on success the claims are what the token verifies to |
| Auth.IssuedTokenAuthenticates | server/index.js:40 | a token signed at time `t` passes the gate before `t` + 7 days and is refused as `Invalid token` from then on |
| SchemaSplit.Split | server/setup-db.js:32 | `split(';')` gives one more piece than there are separators, and no piece contains `;` |
| SchemaSplit.JoinSplit | server/setup-db.js:32 | joining the pieces with `;` gives the script back |
| SchemaSplit.SplitJoin | server/setup-db.js:32 | splitting a `;`-join of separator-free pieces gives exactly those pieces |
| SchemaSplit.SplitPiece | server/setup-db.js:32 | a separator-free prefix becomes the start of the first piece |
| SchemaSplit.SplitAtSep | server/setup-db.js:32 | a leading `;` yields an empty first piece |
| SchemaSplit.LeadingSpaces | server/setup-db.js:33 | the length of the whitespace run that starts the string |
| SchemaSplit.TrimEnd | server/setup-db.js:33 | a prefix that does not end in whitespace, and is followed only by whitespace |
| SchemaSplit.Trim | server/setup-db.js:33 | `trim()` is the slice after the leading whitespace; it neither starts nor ends with whitespace and is followed only by whitespace; it is empty iff the string is all whitespace |
| SchemaSplit.TrimAll | server/setup-db.js:33 | `.map(s => s.trim())` trims each piece in place |
| SchemaSplit.DropEmpty | server/setup-db.js:34 | `.filter(s => s.length > 0)` keeps every non-empty piece and nothing else |
| SchemaSplit.DropEmptyAppend | server/setup-db.js:34 | the filter keeps the pieces in order: filtering two runs in turn is filtering both |
| SchemaSplit.Statements | server/setup-db.js:31-34 | at most one statement more than there are separators; every statement run is non-empty, contains no `;` and has no surrounding whitespace |
| SchemaSplit.TrimmedPiecesWellFormed | server/setup-db.js:33-34 | trimming separator-free pieces and dropping the empty ones leaves non-empty, separator-free, trimmed statements |
| SchemaSplit.TrimKeepsSeparatorsOut | server/setup-db.js:33 | trimming a separator-free piece leaves it separator-free |
| SchemaSplit.TrimIdempotent | server/setup-db.js:33 | trimming twice is trimming once |
| SchemaSplit.BlankScript | server/setup-db.js:31-34 | a script of only whitespace and `;` runs no statement |
| SchemaSplit.BlankPieces | server/setup-db.js:32 | such a script splits into all-whitespace pieces |
| SchemaSplit.NoNonEmpty | server/setup-db.js:34 | the filter drops a list of empty strings entirely |
| SchemaSplit.StatementsOfSegments | server/setup-db.js:31-34 | the statements of a `;`-join of segments are the trimmed non-empty segments, in order |
| Tables.WithRows | server/index.js:166-170 | a statement on one CRUD table leaves the other tables, the accounts and the profiles as they were |
| Tables.Find | server/index.js:276-277 | the row a join condition `c.id = v.client_id` finds: none iff no row has the id |
| Tables.Insert | server/index.js:175 | an INSERT adds exactly the new id to the table's ids |
| Tables.InsertKeyed | server/index.js:175 | an INSERT under the table's counter keeps the ids ascending and below the advanced counter |
| Tables.Delete | server/index.js:209 | `DELETE ... WHERE id = ?` never adds rows |
| Tables.DeleteContents | server/index.js:209 | a delete keeps exactly the rows with other ids |
| Tables.DeleteBounded | server/index.js:209 | the surviving ids stay within any bounds all ids were within |
| Tables.DeleteKeyed | server/index.js:209 | a delete keeps the table in key order |
| Tables.DeleteIdempotent | server/index.js:206-214 | deleting the same id twice is deleting it once |
| Tables.DeleteAbsent | server/index.js:206-214 | deleting an id no row has changes nothing |
| Tables.Assign | server/index.js:199 | the `SET` list writes the row's old columns plus exactly the assigned ones |
| Tables.AssignSpec | server/index.js:199 | a `SET` list over distinct columns gives each assigned column its value and keeps every other column |
| Tables.Modify | server/index.js:199 | `UPDATE ... WHERE id = ?` changes only the rows with that id, and those get the assignments and a fresh `updated_at` |
| Tables.ModifyAbsent | server/index.js:199 | an update of an id no row has changes nothing |
| Tables.FindByEmail | server/index.js:96-98 | `rows[0]` of the email lookup: none iff no account has the email, otherwise the first one that has it |
| Tables.FindInserted | server/index.js:63-73 | a lookup of a freshly inserted, previously unused email finds the new account |
| UpdateBuilder.Present | server/index.js:189-191 | the assigned columns are at most the listed ones, each listed and in the body |
| UpdateBuilder.Bound | server/index.js:192-194 | the bound value is the body's, except that `disponible` becomes 1 or 0 on vehicles; either way it is truthy iff the body's value is |
| UpdateBuilder.BoundValues | server/index.js:191-194 | one bound value per assigned column |
| UpdateBuilder.BuildUpdate | server/index.js:189-196 | the loop collects, in list order, exactly the listed fields the body mentions, each with its bound value (`disponible` coerced to 1/0 for vehicles) |
| UpdateBuilder.PresentAppend | server/index.js:189-196 | collecting over two lists in turn is collecting over both |
| UpdateBuilder.PresentMembers | server/index.js:190 | a column is assigned iff it is listed and `f in req.body` |
| UpdateBuilder.PresentOrder | server/index.js:189-196 | assignments come in the order of the field list |
| UpdateBuilder.PresentDistinct | server/index.js:189-196 | a duplicate-free field list gives duplicate-free assignments |
| UpdateBuilder.FieldListsDistinct | server/index.js:183-186 | the vehicle and customer field lists name each column once |
| UpdateBuilder.UpdatedRow | server/index.js:189-199 | after the update, each mentioned column holds its bound value and every other column is unchanged |
| InsertParams.Bind | server/index.js:170-173 | as sent, `\|\| null`, `\|\| 0` and `? 1 : 0` bind what JavaScript gives; only "as sent" can bind `undefined` |
| InsertParams.Columns | server/index.js:166-173 | every listed column is written by the INSERT |
| InsertParams.ColumnsSpec | server/index.js:166-173 | an INSERT writes exactly its listed columns, each holding its field bound by its rule |
| InsertParams.ColumnsDefined | server/index.js:170-173 | when every field bound as sent is truthy, no column is bound to `undefined` |
| InsertParams.ParamNamesAgree | server/index.js:168 | the vehicle and customer INSERTs write the same columns the matching update may set, each once |
| InsertParams.VenteNamesDistinct | server/index.js:292-293 | the sales INSERT writes each column once |
| InsertParams.SentFieldsChecked | server/index.js:162 | each field an INSERT binds as sent is among the fields the handler checks first (also lines 227 and 288) |
| InsertParams.RequiredDefined | server/index.js:162-173 | a request that passes the required-field check binds no `undefined` |
| InsertParams.VoitureDefaults | server/index.js:172 | a vehicle created without mileage or availability is stored with mileage 0 and `disponible` 0 |
| Reporting.InsertDesc | server/index.js:150 | inserting into a newest-first list keeps it newest first and adds exactly that element |
| Reporting.SortDesc | server/index.js:150 | `ORDER BY ... DESC` gives a newest-first permutation of the rows |
| Reporting.Listing | server/index.js:150 | `ORDER BY updated_at DESC` gives the table's rows, newest first (also line 218) |
| Reporting.Join | server/index.js:273-277 | each joined sale is a sale whose customer and vehicle both exist, shown with that customer's `nom` and `prenom` and that vehicle's `marque` and `modele` |
| Reporting.View | server/index.js:273-274 | a joined sale keeps the sale's own columns and carries the names of the customer and vehicle it references |
| Reporting.JoinOne | server/index.js:275-277 | a single sale joins to itself when its customer and vehicle exist and to nothing otherwise |
| Reporting.JoinAppend | server/index.js:275-277 | joining two runs of sales in turn is joining both: the join keeps order and adds no duplicates |
| Reporting.SalesListing | server/index.js:270-284 | the joined sales, each exactly once, most recent `date_vente` first |
| Reporting.JoinComplete | server/index.js:274-277 | every sale whose customer and vehicle exist appears in the join |
| Reporting.Summary | server/index.js:126-128 | a `recentVentes` item keeps the sale's id and date and the customer's and vehicle's names |
| Reporting.Summaries | server/index.js:127-129 | one `recentVentes` item per kept sale |
| Reporting.CountAvailable | server/index.js:114 | the available count is at most the vehicle count, and equal iff every vehicle has `disponible = 1` |
| Reporting.Revenue | server/index.js:123 | with no negative price, the `SUM` is not negative |
| Reporting.Available | server/index.js:114 | a vehicle counted as available has a truthy `disponible` |
| Reporting.ComputeStats | server/index.js:108-146 | the totals are the table sizes, at most as many available as vehicles, revenue 0 without sales, at most 5 recent sales |
| Reporting.RevenueAppend | server/index.js:123 | the `SUM` over two runs of sales is the sum of their sums |
| Reporting.RevenueOfNewSale | server/index.js:123 | a new sale adds exactly its price to the revenue |
| Reporting.CountAvailableAppend | server/index.js:114 | the available counts of two runs add up |
| Reporting.CountAvailableOfNew | server/index.js:114 | a new vehicle adds one to the available count iff it is available |
| Reporting.RecentSales | server/index.js:126-134 | at most five sales, and they are the start of the sales listing |
| Reporting.RecentSalesSpec | server/index.js:126-134 | `LIMIT 5`: exactly five sales, or all of them when fewer are joined; drawn from the joined sales without repeats; newest first; each with an existing customer and vehicle |
| Reporting.RecentSalesDrawn | server/index.js:132-133 | the kept sales number the smaller of five and the joined count, and are among the joined sales |
| Reporting.PrefixIncluded | server/index.js:133 | a prefix of a list holds nothing the list does not |
| Reporting.RecentSalesKeepsFew | server/index.js:132-133 | with at most five joined sales, all of them are reported |
| Reporting.PrefixDominates | server/index.js:132-133 | in a newest-first list, whatever a prefix leaves out is no newer than anything it keeps |
| Reporting.RecentSalesAreTheLatest | server/index.js:126-134 | no joined sale left out of `recentVentes` is newer than one kept |
| Reporting.RecentVentesFields | server/index.js:126-134 | each `recentVentes` item comes from a stored sale whose customer and vehicle exist: its id, `prix_vente` and `date_vente` are the sale's, `client_nom` and `client_prenom` the referenced customer's `nom` and `prenom`, `voiture_marque` and `voiture_modele` the referenced vehicle's `marque` and `modele` |
| Store.Bump | server/index.js:175 | an insert advances only its own table's counter |
| Store.Database.constructor | server/setup-db.js:31-38 | the store the model starts from, assumed empty: empty tables, counters at 1, no connection out, no transaction |
| Store.Database.InsertRow | server/index.js:166-175 | a pooled INSERT gives the row the counter's id and advances the counter; a rejected one changes nothing |
| Store.Database.UpdateRow | server/index.js:199 | a pooled UPDATE applies the assignments to the row with the id; a rejected one changes nothing |
| Store.Database.DeleteRow | server/index.js:209 | a pooled DELETE removes the rows with the id; a rejected one changes nothing |
| Store.Database.GetConnection | server/index.js:66 | a granted connection is one more out of the pool |
| Store.Database.Release | server/index.js:85 | a released connection goes back to the pool |
| Store.Database.BeginTransaction | server/index.js:68 | the transaction remembers the rows it started from |
| Store.Database.InsertUser | server/index.js:69-73 | the account gets the next user id; `insertId` is that id |
| Store.Database.InsertProfile | server/index.js:74-77 | the profile gets the next profile id |
| Store.Database.Commit | server/index.js:78 | a commit, allowed only on consistent rows, ends the transaction |
| Store.Database.Rollback | server/index.js:82 | the rows go back to the transaction's snapshot; the counters do not |
| Store.RegisterKeepsConsistent | server/index.js:67-78 | a new account with an unused email, plus one profile owned by it, keeps every account paired with exactly one profile and the emails unique |
| Store.InsertKeyedAll | server/index.js:175 | a saved snapshot stays keyed when a counter moves on |
| Api.Enroll | server/index.js:66-86 | the account and its profile are both inserted, with the new account's id, iff no call on the dedicated connection fails; otherwise the rows are as before; the connection is released either way |
| Api.InsertAccount | server/index.js:67-78 | begin, the two INSERTs and commit succeed together or leave the rows recoverable by rollback |
| Api.InsertPair | server/index.js:69-77 | the two INSERTs give the profile the new account's id, and the store stays consistent |
| Api.NewUser | server/index.js:69-72 | the new account has the body's email and the `employe` role, and, with a sound hash, its hash matches the password sent |
| Api.NewProfile | server/index.js:73-77 | the profile belongs to the new account and has the `nom`, `prenom` and email sent; its `garage_id` is the one sent when truthy and `null` otherwise |
| Api.Register | server/index.js:57-90 | 400 iff a required field is falsy; 409 iff the email is taken; a token for the new `employe` account iff no step fails; every other outcome is 500; the rows change only when a token is sent, and then by exactly the two inserts; a 400 or 409 leaves the counters as they were; no connection is leaked and no transaction is left open |
| Api.Login | server/index.js:92-106 | 400 iff email or password is falsy; the same 401 for an unknown email and a wrong password; a token for the account's id and role iff the password matches; every other outcome is 500 |
| Api.LoginAfterRegister | server/index.js:57-106 | a just-registered account logs in with its password and gets a token for its new id and `employe` |
| Api.WrongPasswordRefused | server/index.js:99-100 | with a binding hash, any other password for that account gets `Invalid credentials` |
| Api.RegisteredEmailTaken | server/index.js:63-64 | after a registration, the email lookup finds the account |
| Api.CreateHandler | server/index.js:157-179 | 400 iff a required field is falsy; 201 with a new id exactly when the INSERT succeeds, and then only the one row is added; otherwise nothing changes (also lines 225-238 and 286-301) |
| Api.UpdateHandler | server/index.js:181-204 | 400 iff the body mentions none of the listed fields; otherwise `{ok: true}` unless the store fails, with the row updated as built; a missing id still succeeds (also lines 240-258) |
| Api.DeleteHandler | server/index.js:206-214 | `{ok: true}` unless the store fails, with the rows of the id removed (also lines 260-268) |
| Api.NewVoitureCounted | server/index.js:108-114 | a created vehicle adds one to the vehicles, and one to the available count iff its `disponible` was truthy |
| Api.NewVenteCounted | server/index.js:120-123 | a recorded sale adds one to the sales and its price to the revenue |
| Api.Query | server/index.js:48-55 | the read-only routes answer 500 when the store fails; otherwise `{ok: true}` for health, the vehicle or customer listing, the joined sales listing, the stats, or a login (also lines 108-155, 216-223 and 270-284) |
| Api.CreatedVoitureCounted | server/index.js:108-114 | a vehicle created through `POST /api/voitures` adds one to the vehicles, and one to the available count iff its `disponible` was truthy (also lines 157-179) |
| Api.CreatedVenteCounted | server/index.js:119-123 | a sale recorded through `POST /api/ventes` adds one to the sales and its price to the revenue (also lines 286-301) |
| Api.Mutate | server/index.js:157-301 | each write route gets the create, update or delete outcome for its own table, required fields, 400 message, parameters and updatable columns; accounts and profiles are never touched |
| Api.Serve | server/index.js:18-301 | a request from a refused Origin gets 500 with the CORS policy message before any route runs, and changes nothing; a protected route with no valid token gets 401 and never reaches the store; a request let through gets its route's outcome: registration's, a read-only reply on unchanged rows, or a write route's; only registration changes accounts; no connection is leaked and no transaction is left open |
| Api.Onboarding | server/index.js:57-106 | register, register again, log in, call a protected route: a token, then 409, then a token that passes the gate as the new `employe` |

## Left out

- Express wiring, JSON parsing and response serialization: routes are a `Route` value and replies a `Reply` value. A path `:id` is taken as a natural number. A refused Origin reaches Express's default error handler, whose page is stood for by `OriginRefused` with the CORS message and status 500. The CORS response headers and the preflight `OPTIONS` exchange are not modelled.
- The text of an error the store or a library throws (`e.message`) is not modelled: every such failure is `Internal`, which stands for 500.
- Api.Query: the stats handler runs six separate queries, and any failing gives 500. This is modelled as one `fails` flag for the whole handler. The listings from concurrent writes are not modelled.
- Store.Database.Rollback: a rollback that itself fails is not modelled. If the transaction cannot be undone, the rows would stay uncertain.
- Foreign keys, ENUM checks, column types and MySQL's case-insensitive email collation are not modelled. The schema script is not part of this model. A sale may therefore name any customer or vehicle: the join drops it, and a price that is not a number adds 0 to the revenue.
- Tables.Modify: `updated_at` is taken to become the update's time. The schema declaring `ON UPDATE CURRENT_TIMESTAMP` is not part of this model. `date_vente`, `created_at` and `updated_at` are taken to be the insert's time. MySQL refreshes such a column only when the UPDATE actually changes a value; the model stamps every matched row, even when the assigned values equal the old ones.
- Store.Database.InsertRow: InnoDB may use up an AUTO_INCREMENT value on an INSERT that fails; the model leaves the counter as it was, so after a failure the ids the model gives can be lower than the store's, though both stay ascending. Store.Database.InsertUser and Store.Database.InsertProfile have the same limitation.
- Auth.Crypto: bcrypt's 72-byte password truncation and jsonwebtoken's own claim checks are not modelled. The JWT secret's `dev-secret` fallback and `dotenv` are not modelled either. The libraries are assumed to keep the promises `HashSound`, `HashBinding` and `TokensSound` name.
- JSON numbers are IEEE doubles in the source and exact reals in the model. Overflow, underflow and rounding are not modelled: `1e400` parses to `Infinity` and `1e-400` to `0`, which is falsy, while the model reads both as non-zero reals. The integer widths and decimal scales of the columns are not modelled either.
- Concurrency between requests is not modelled: each request runs to completion on the store before the next.
- The bootstrap's file reading, `CREATE DATABASE`, `USE` and the loop that runs each statement are I/O. Only the split, trim and filter pipeline that yields the statements is modelled.
- The health route's `SELECT 1` is modelled as a store call that may fail. Its `{ok: false}` body on failure is folded into `Internal`.
- The client application is not part of this model.
