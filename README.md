# Barangay records over Redis, in Dafny

A model of the record manager of a barangay (village) office. It covers the Express
backend `redis-backend/server.js` and the certificate request form of the user's
Certificates page, `redis-frontend/src/pages/User/Certificates.js`.

The backend keeps everything in Redis:

- hashes for user accounts, residents, officials, announcements, certificate requests and
  staff profiles;
- one set per user listing that user's open certificate requests;
- four INCR counters that number residents, officials, announcements and certificates.

Every route handler is a method of one class, `Server.Store`. The class holds those
hashes, sets and counters. Each method:

- answers the route's HTTP status (`Http.Status`);
- changes the store in the order the handler does;
- states outright, in its contract, the answer and the new store for every branch; a searched listing is the unsearched one filtered, in `KEYS` order;
- keeps the store invariant `Valid()` (`State.ValidState`).

The invariant says:

- Redis holds no empty hash and no empty set;
- only a user's `assignedResident` field holds a JSON copy;
- every certificate id was minted by the certificate counter;
- every id in `user:<name>:certificates` names a stored certificate whose username is `<name>`.

The pure parts are functions with lemmas:

- the two validators (`Validation`);
- identifier formatting (`Ids`) and the JavaScript string operations it needs (`Text`);
- `calculateAge` (`Age`);
- the authenticate and authorize middleware (`Http`);
- the listing and search code (`Listing`);
- the CSV row loop (`Csv`);
- the form rules (`CertificateForm`).

`Scenarios` describes short client sessions on an empty store. Their results follow from
the route contracts.

These are parameters rather than computed:

- bcrypt's hash of a password, and whether a password matches a hash;
- the year of a new identifier, the staff id (`Date.now()`) and the staff timestamp;
- "today", and the date parser behind `calculateAge`;
- the order of a `KEYS` reply (any order that lists each matching key once);
- the rows of an uploaded CSV file, already parsed.

`!isNaN(parseInt(s))` follows ECMAScript's parseInt, which reads a leading `"0x"` as a hex
prefix: `"0x"` followed by a non-hex character is not a number, although the character
after the `0` is a digit.

## Model

| member | source | states |
|---|---|---|
| Validation.FirstMissing | redis-backend/server.js:84-90 | the position of the first absent-or-empty field of the list; every earlier field is present |
| Validation.ResidentMissingField | redis-backend/server.js:82-116 | a resident body whose i-th required field is the first missing is refused naming that field, with the thrown message |
| Validation.ResidentCheckOrder | redis-backend/server.js:82-116 | with all fields present, the checks run in the order: length of stay is a number, income is one of six ranges, blood type is one of eight; the first failure is reported |
| Validation.ResidentAccepted | redis-backend/server.js:82-116 | a resident body is accepted iff nothing is missing and the three value checks pass; the accepted body is returned unchanged |
| Validation.OfficialMissingField | redis-backend/server.js:118-156 | an official body is refused naming its first missing field among name, age, position, description, contactNo |
| Validation.OfficialCheckOrder | redis-backend/server.js:118-156 | with all fields present, then age must parse as an integer, then contactNo must be ten digits, then position must be one of the ten titles |
| Validation.OfficialAccepted | redis-backend/server.js:118-156 | an official body is accepted iff all those checks pass; the accepted body is returned unchanged |
| Validation.ContactNoMustBeTenDigits | redis-backend/server.js:134-136 | a contact number of another length, or with a non-digit, is refused once the earlier checks pass |
| Text.TrimStartShape | redis-backend/server.js:217 | trimming the front removes exactly a blank prefix, and what is left is empty or starts with a non-space |
| Text.TrimEndShape | redis-backend/server.js:217 | trimming the back removes exactly a blank suffix, and what is left is empty or ends with a non-space |
| Text.TrimEmptyIffBlank | redis-backend/server.js:217 | `trim() === ''` holds exactly for strings made only of ECMAScript white space |
| Text.DigitsParseAsInt | redis-backend/server.js:92 | every non-empty string of decimal digits is a number for parseInt |
| Text.ParsesAsIntIgnoresTail | redis-backend/server.js:129 | a string that starts with a non-zero digit is a number for parseInt whatever follows it |
| Text.ValueOfDec | redis-backend/server.js:658 | `String(n)` reads back as n |
| Text.DecInjective | redis-backend/server.js:658 | distinct numbers have distinct decimal numerals |
| Text.DecLength | redis-backend/server.js:658 | `String(n)` has at most k digits iff n < 10^k |
| Text.ValueOfPadded | redis-backend/server.js:658 | `padStart(width, '0')` keeps the value of the numeral |
| Text.LexLessDigits | redis-frontend/src/pages/Admin/Residents.js:630-632 | for digit strings of one length, string order is numeric order |
| Text.ContainsIffOccurs | redis-backend/server.js:694-700 | `includes` holds iff the needle occurs at some position |
| Text.LowerIdempotent | redis-backend/server.js:694-700 | lowering case twice is lowering once |
| Text.SplitCount | redis-backend/server.js:362 | `split(':')` yields one more part than there are ':' characters |
| Text.SplitAfterPrefix | redis-backend/server.js:362-369 | splitting `p:u` at ':' gives p followed by the parts of u when p holds no ':' |
| Ids.SequencePartShape | redis-backend/server.js:658 | the padded counter is all digits and reads back as n; below 10^width it has exactly width digits, from there on padStart leaves the numeral whole |
| Ids.FormatIdInjective | redis-backend/server.js:658 | `<year>-<padded n>` determines the year and n, so distinct counter values give distinct ids |
| Ids.FormatIdOrder | redis-frontend/src/pages/Admin/Residents.js:630-632 | for n below 10^width, ids of one year compare as strings exactly as their counter values compare |
| Ids.IncreasingCountersMintDistinctIds | redis-backend/server.js:652-658 | the values an only-increasing counter hands out never repeat an id |
| Ids.FormatIdHasNoColon | redis-backend/server.js:658 | an id holds no ':', so `key.split(':')[1]` recovers it |
| Ids.FirstIdentifiers | redis-backend/server.js:658 | the first official of 2025 is 2025-001, the second 2025-002, the first resident 2025-00001 |
| Age.AgeIsCompletedYears | redis-backend/server.js:160-177 | for a valid birthdate, the age is the number of birthdays reached by today: that birthday has come, the next has not |
| Age.CompletedYearsUnique | redis-backend/server.js:160-177 | any k with the k-th birthday reached and the next not reached is the age |
| Http.Authenticate | redis-backend/server.js:306-322 | a request passes authenticate iff it carries a verified token, whose claims it then carries |
| Http.AuthorizeAdmits | redis-backend/server.js:329-336 | authenticate plus authorize(roles) admit exactly a verified token whose role is in the list; no token is 401, an invalid token or another role is 403 |
| Redis.TextsOfStrs | redis-backend/server.js:662-664 | reading back written strings gives them unchanged |
| Redis.SRem | redis-backend/server.js:1174 | SREM removes one member; the set goes when it empties; other keys are untouched |
| Redis.SAdd | redis-backend/server.js:1222 | SADD adds one member and creates the set if needed; other keys are untouched |
| Redis.MergeTwice | redis-backend/server.js:1208-1219 | two HSETs of one key equal one HSET of both field lists, the later winning |
| Redis.MergeEffect | redis-backend/server.js:745-751 | HSET changes only its key, gives the written fields their new values and keeps every other field |
| Redis.MergeFresh | redis-backend/server.js:188-191 | HSET on a key nobody holds stores exactly the written fields |
| Redis.AccountKeyRoundTrip | redis-backend/server.js:362-370 | `user:<name>` with a ':'-free name passes the two-part filter and gives back the name |
| Redis.CertificateSetKeyIsNotAccount | redis-backend/server.js:362 | a certificate set key never passes the two-part filter |
| Redis.KindsAreDisjoint | redis-backend/server.js:662 | keys of different record kinds never coincide, and only account keys start with `user:` |
| Seqs.KeepAppend | redis-backend/server.js:362 | the filter of two lists joined is the two filters joined, so the kept elements stay in their original order |
| Seqs.KeepMembers | redis-backend/server.js:362 | an element is in the filtered list iff it is in the list and passes |
| Seqs.KeepDistinct | redis-backend/server.js:361-362 | filtering a list without repeats leaves no repeats |
| State.NextCertificateIdIsFresh | redis-backend/server.js:1208 | in a valid store, the id the next INCR mints names no stored certificate |
| State.WriteElsewhere | redis-backend/server.js:662-664 | writing fitting fields under a key that is not a certificate keeps the store valid |
| State.WriteCertificate | redis-backend/server.js:1171 | writing string fields, other than the username, into a stored certificate keeps the store valid |
| State.DeleteElsewhere | redis-backend/server.js:452 | deleting a key that is not a certificate keeps the store valid |
| State.RemoveMember | redis-backend/server.js:1174 | removing an id from a certificate set keeps the store valid |
| State.AddCertificate | redis-backend/server.js:1208-1224 | a new certificate keeps the store valid when its id was minted by the next counter value, its key is unused, it names its owner, and it is listed in the owner's set |
| State.RemoveCertificate | redis-backend/server.js:1316-1319 | deleting an owned certificate and its set entry, in either order, keeps the store valid |
| Listing.Tagged | redis-backend/server.js:690-693 | a listed record has the stored string fields and, unless a field of that name is stored, the tag taken from the key |
| Listing.TagAll | redis-backend/server.js:688-693 | the listing has one record per key, in key order |
| Listing.SearchRecords | redis-backend/server.js:696-701 | no truthy search keeps the list; otherwise a record stays iff one of its values contains the term, ignoring case |
| Listing.AnnouncementEntries | redis-backend/server.js:1052-1060 | one announcement entry per key: the whole key, the title and the description |
| Listing.SearchAnnouncements | redis-backend/server.js:1062-1069 | the same search over announcement entries |
| Listing.HitByValue | redis-backend/server.js:696-701 | a record is found by any value containing the term in any case |
| Listing.EmptySearchKeepsAll | redis-backend/server.js:696-701 | an empty or missing search lists everything; the empty term would match every record with a field, so the falsy test decides only for records without one |
| Listing.UntitledAnnouncementMatchesUndefined | redis-backend/server.js:1062-1069 | an announcement without a title matches the search "undefined" |
| Listing.TaggedWithOwnId | redis-backend/server.js:690-693 | a record whose stored id equals its key's id lists exactly as stored |
| Listing.TagAllMembers | redis-backend/server.js:688-693 | a record is listed iff it is the record of one of the keys |
| Listing.EntriesMembers | redis-backend/server.js:1052-1060 | the same for announcement entries |
| Csv.WritesAreAcceptedRows | redis-backend/server.js:1438-1468 | the loop queues one resident per row with a Surname, in row order, numbered by successive counter values |
| Csv.WritesStep | redis-backend/server.js:1438-1468 | one row further, the queue grows by that row's write, under the id after those already queued, iff the row has a Surname |
| Csv.WritesHaveDistinctKeys | redis-backend/server.js:1451 | no two queued residents share a key |
| Csv.NoSurnameNoWrites | redis-backend/server.js:1439-1442 | rows without a Surname queue nothing |
| Csv.InvalidBirthdateStoresZero | redis-backend/server.js:1459 | a row whose birthdate does not parse stores age "0" |
| Csv.WritesAreResidents | redis-backend/server.js:1469-1471 | every queued write goes to a `resident:` key |
| Server.StaffChanges | redis-backend/server.js:600-601 | a staff update writes exactly the truthy name and position |
| Server.AccountWrites | redis-backend/server.js:188-191 | the three hSets on a fresh key store exactly password, role and status |
| Server.RequestKeepsValid | redis-backend/server.js:1208-1222 | the request's writes land on a fresh key and keep the store valid |
| Server.UpdateWrites | redis-backend/server.js:1277-1287 | the three conditional hSets of a user's update, one after the other, are one write of the update's fields |
| Server.CertificateUpdateFields | redis-backend/server.js:1277-1287 | the update writes certificateType iff it is truthy, details iff the body has it (even ''), status iff it is truthy, nothing else, each with the body's value |
| Server.Store.constructor | redis-backend/server.js:37 | an empty database: no hashes, no sets, counters at zero |
| Server.Store.HSetEach | redis-backend/server.js:662-664 | the `for … in` loop of hSets writes every field of the object and nothing else |
| Server.Store.InitializeAdmin | redis-backend/server.js:183-196 | creates the lrnblss admin account only when no such hash exists; once it exists nothing changes |
| Server.Store.Register | redis-backend/server.js:205-249 | 400 for a missing username or password, a blank username or a taken one; otherwise 201 and a user account, approved iff admin-created, storing the supplied resident copy |
| Server.Store.StoreRegistration | redis-backend/server.js:235-243 | the hSets of a registration on an unused key store exactly the new account and keep the store valid |
| Server.Store.Login | redis-backend/server.js:256-301 | 400 for missing fields, 401 for an unknown user, 403 for any status but approved (before the password), 500 without a stored hash, 401 for a wrong password; on success sets loggedIn and username and answers the token claims, role and resident copy |
| Server.Store.CheckUsername | redis-backend/server.js:339-353 | answers whether a hash named `user:<username>` exists |
| Server.Store.PendingUsers | redis-backend/server.js:359-380 | exactly the two-part user keys whose status is 'pending', each once, in KEYS order, with name and role |
| Server.Store.ActiveUsers | redis-backend/server.js:383-411 | exactly the two-part user keys with loggedIn 'true' other than lrnblss, each once, with role, status and whether a resident is assigned |
| Server.Store.GetAssignedResident | redis-backend/server.js:416-433 | 200 with the stored resident copy iff the user has one, 404 otherwise |
| Server.Store.DeleteUser | redis-backend/server.js:441-458 | 404 unless the user key exists; otherwise DEL of that key only, which leaves the user's certificate set behind |
| Server.Store.AssignUser | redis-backend/server.js:461-482 | 404 for a missing resident; otherwise the resident's copy is stored with the user, creating the user hash if needed |
| Server.Store.ApproveUser | redis-backend/server.js:487-503 | 404 for an unknown user; otherwise only the status becomes 'approved' |
| Server.Store.RejectUser | redis-backend/server.js:507-523 | 404 for an unknown user; otherwise the account is deleted and the certificate set stays |
| Server.Store.CreateStaff | redis-backend/server.js:530-568 | 400 unless username, password, name and position are all given, 400 for a taken username; otherwise an approved staff account and the staff profile |
| Server.Store.ListStaff | redis-backend/server.js:572-585 | every staff hash once, in KEYS order, tagged with its id |
| Server.Store.UpdateStaff | redis-backend/server.js:589-607 | 404 for an unknown profile; otherwise writes only the truthy name and position |
| Server.Store.DeleteStaff | redis-backend/server.js:611-631 | 404 for an unknown profile; otherwise deletes the account named in the profile, then the profile |
| Server.Store.CreateResident | redis-backend/server.js:638-672 | a refused body is a 500 with the validator's message and changes nothing; an accepted one increments only the resident counter, by one, and stores the body with its new id |
| Server.Store.CreateOfficial | redis-backend/server.js:792-833 | the photo path joins the body before validation; refusal is a 500 with the message; acceptance increments only the official counter and stores the body with its 3-digit id |
| Server.Store.CreateAnnouncement | redis-backend/server.js:949-983 | 400 unless title and description are both given, with no counter change; otherwise the next announcement id with exactly the title and description |
| Server.Store.GetRecord | redis-backend/server.js:711-730 | 200 with the stored fields iff the record exists, 404 with the kind's message otherwise (also officials and announcements) |
| Server.Store.UpdateRecord | redis-backend/server.js:733-1023 | PUT of a resident, an official or an announcement: 404 for an absent record; for an announcement then 400 iff exactly one of title and description is given; otherwise every body field is written, the id included, and nothing else changes |
| Server.Store.DeleteRecord | redis-backend/server.js:761-787 | 404 for an absent record; otherwise only that key is deleted (also officials and announcements) |
| Server.Store.ListRecords | redis-backend/server.js:676-707 | every resident (or official, by name) once, tagged from its key; with a truthy search, that listing filtered in order to exactly those with a value containing the term, ignoring case |
| Server.Store.ListAnnouncements | redis-backend/server.js:1047-1076 | every announcement once as key, title and description; a truthy search filters that listing, in order, to exactly the matching ones |
| Server.Store.AdminPendingCertificates | redis-backend/server.js:1106-1150 | exactly the certificates whose status is not 'Completed', each once, with the role of the user named in each |
| Server.Store.AdminUpdateCertificateStatus | redis-backend/server.js:1152-1182 | 404 for an unknown id before the status is looked at; 400 for a status outside the four; otherwise only the status changes, and 'Completed' also takes the id out of its owner's set while the hash stays |
| Server.Store.RequestCertificate | redis-backend/server.js:1194-1231 | 400 without a username or a type; otherwise the next certificate id, on a fresh key, with all nine fields ('' for absent details, the given status or 'Pending'), listed in the user's set |
| Server.Store.StoreRequest | redis-backend/server.js:1208-1224 | the next counter value names the certificate; its key was unused; its hash and its set entry are written and the store stays valid |
| Server.Store.OwnsCertificate | redis-backend/server.js:1266-1268 | the ownership test holds iff the id is in the caller's set, and then the certificate names the caller |
| Server.Store.UserCertificates | redis-backend/server.js:1235-1254 | the fields of every certificate in the caller's set, each once; each names the caller |
| Server.Store.UserUpdateCertificate | redis-backend/server.js:1256-1294 | 404 unless owned; 400 only for status 'IN PROCESS'; otherwise writes the truthy type, a defined details field and a truthy status, and nothing else |
| Server.Store.UserDeleteCertificate | redis-backend/server.js:1298-1327 | 404 unless owned; 400 only for status 'IN PROCESS'; otherwise deletes the hash and the set entry |
| Server.Store.StoreCertificateUpdate | redis-backend/server.js:1277-1287 | the three conditional hSets on a stored certificate write the update's fields and keep the store valid |
| Server.Store.DeleteOwned | redis-backend/server.js:1317-1320 | deleting an owned certificate's hash, then its set entry, leaves a valid store without both |
| Server.Store.UserCancelCertificate | redis-backend/server.js:1330-1358 | 404 unless owned; 400 unless the status is exactly 'Pending'; otherwise removes the set entry and the hash |
| Server.Store.CancelOwned | redis-backend/server.js:1348-1351 | removing an owned certificate's set entry, then its hash, leaves a valid store without both |
| Server.Store.Account | redis-backend/server.js:1361-1386 | 400 without a username in the token, 404 for a missing account; otherwise the stored username field and resident copy |
| Server.Store.AssignResidentToUser | redis-backend/server.js:1390-1407 | as written: always 200, storing the resident's copy, which is empty when the resident does not exist |
| Server.Store.AssignResidentToUserChecked | redis-backend/server.js:1390-1407 | corrected: 404 and no write for a missing resident; otherwise the non-empty copy is stored |
| Server.Store.UserUpdateCertificateChecked | redis-backend/server.js:1270-1273 | corrected: the update is also refused for 'Processing' |
| Server.Store.UserDeleteCertificateChecked | redis-backend/server.js:1311-1314 | corrected: the delete is also refused for 'Processing' |
| Server.Store.UploadCsv | redis-backend/server.js:1411-1473 | 400 without a file; otherwise the counter advances once per accepted row and the store gets exactly the queued residents |
| Server.Store.QueueResidents | redis-backend/server.js:1437-1468 | the row loop queues exactly the writes of the accepted rows, one INCR each |
| Server.Store.ExecWrites | redis-backend/server.js:1472 | EXEC applies the queued writes in order and keeps the store valid |
| CertificateForm.Request | redis-frontend/src/pages/User/Certificates.js:105-113 | the request has status 'Pending', the chosen type and all five detail keys with the form's values |
| CertificateForm.ChangeType | redis-frontend/src/pages/User/Certificates.js:61-72 | choosing a type sets it and clears all five details |
| CertificateForm.EmptyTypeRefused | redis-frontend/src/pages/User/Certificates.js:100-103 | nothing is sent without a type, whatever the details |
| CertificateForm.SubmitAccepts | redis-frontend/src/pages/User/Certificates.js:96-131 | a submission goes out iff a type is chosen and every detail that type needs is filled in; what goes out is the request |
| CertificateForm.RefusalsByType | redis-frontend/src/pages/User/Certificates.js:118-131 | guardianship needs child name and relationship, solo parent child name and father or mother, death deceased name and age; other types need nothing |
| CertificateForm.ChangeTypeForgets | redis-frontend/src/pages/User/Certificates.js:61-72 | after choosing a type the form depends on that type alone |
| CertificateForm.FreshTypeSubmission | redis-frontend/src/pages/User/Certificates.js:61-131 | right after choosing one of the three detailed types the form refuses; any other type submits with every detail '' |
| CertificateForm.RequestIsComplete | redis-frontend/src/pages/User/Certificates.js:105-113 | a detail is truthy in the request iff it is filled in; status is 'Pending'; no details field is sent |
| Scenarios.CancelOfferedMatchesRoute | redis-frontend/src/pages/User/Certificates.js:319-327 | Cancel is offered exactly on the rows whose stored status passes the cancel route's 'Pending' test |
| Scenarios.SubmittedFormStored | redis-backend/server.js:1210-1219 | a submitted form is stored with its type and details as entered, status 'Pending', its owner and its id |
| Scenarios.SignInAfterApproval | redis-backend/server.js:256-301 | a self-registered user gets 403 until approved; then a wrong password is 401 and the right one signs in |
| Scenarios.AdminCreatedOnce | redis-backend/server.js:183-196 | a second start keeps the first admin password hash |
| Scenarios.OfficialsNumbered | redis-backend/server.js:813-819 | two officials created one after the other get the ids of the next two official counter values, in that year, and the ids differ |
| Scenarios.OfficialIsAccepted | redis-backend/server.js:118-156 | a complete official body with a ten-digit number and a known title passes every check |
| Scenarios.CertificateLifecycles | redis-backend/server.js:1152-1358 | completing takes a request off the user's list; cancelling a pending one succeeds once, and a second cancel is 404 |
| Scenarios.AssignMissingResident | redis-backend/server.js:1390-1407 | as written, assigning a resident that does not exist answers 200 and stores an empty copy |
| Scenarios.AssignMissingResidentChecked | redis-backend/server.js:1390-1407 | corrected, the same call answers 404 and stores nothing |
| Scenarios.ProcessingCertificateDeleted | redis-backend/server.js:1311-1314 | as written, the owner deletes a certificate the administrator has set to 'Processing' |
| Scenarios.ProcessingCertificateKept | redis-backend/server.js:1311-1314 | corrected, the same deletion is refused with 400 |
| Scenarios.InProcessIsNoAdminStatus | redis-backend/server.js:1164 | 'IN PROCESS' is not among the statuses an administrator may set, while 'Processing' is |

## Left out

- HTTP and Express wiring: routing, cors, bodyParser, static files and JSON response bodies. Each route keeps only its status, its message and the data it answers.
- bcrypt hashing and comparing, and JWT signing and verifying, are foreign cryptography. The hash is a parameter and comparison is a parameter predicate. A token is missing, invalid, or carries its claims. Token expiry is not modelled.
- File I/O: multer uploads, the upload folder and csv-parser streaming. The CSV route receives its rows already parsed, or none when no file came.
- Concurrency: MULTI/EXEC atomicity, `Promise.all` fan-out and the Redis connection. Every command is one sequential update. The INCR inside the resident create's MULTI is one increment.
- The clock and JavaScript Date parsing: the year, `Date.now()`, `toISOString()`, time zones and "today" are parameters.
- JSON: `JSON.stringify` of a resident is kept as the copied map (`Redis.Json`). `JSON.parse` gives it back.
- Redis errors, WRONGTYPE replies and the 500 answers they cause are not modelled. Hashes and sets are kept in separate maps. A KEYS reply lists hashes only: every set key is `user:<name>:certificates`, which no listing keeps.
- Request bodies are maps from field to string. Numbers, booleans and nested objects in a body are not modelled, so `!data[field]` is "absent or ''".
- A stored `assignedResident` that is a string rather than a copy is not modelled; JSON.parse of a corrupt value (a 500) therefore does not arise.
- A CSV column a row lacks is read as ''. node-redis would reject an undefined value; that 500 is not modelled.
- `toLowerCase` in searches lowers ASCII letters only.
- Strings are sequences of Unicode scalar values, not UTF-16 code units.
- The unused `age` variable of the CSV loop and the unused `details` helper of the admin listing compute nothing the route answers, so they are not modelled.
- Console logging and `handleServerError`'s log lines.
- Certificates page: the axios calls, toasts, loading flags, modal state, list fetching and `handleChange` (a plain field copy) are UI and transport.
- The other frontend pages and components are UI. They are not part of this model, except that the resident table's sort order motivates `Ids.FormatIdOrder`.
- Ids.FormatIdOrder: proves that identifiers sort in code-point order (`<` on strings) as their counters do. The resident table sorts with `localeCompare`, whose locale collation is not modelled.
- Server.Store.UserUpdateCertificate: the 400 is stated for the stored status 'IN PROCESS' only, as written. `UserUpdateCertificateChecked` carries the evidently intended test.

## Findings

| source | as written | input that shows it | evidently intended | confidence | as-written member | corrected member |
|---|---|---|---|---|---|---|
| redis-backend/server.js:1395-1401 | `if (!resident)` after `hGetAll`, which answers `{}` for a missing key, so the test never holds | PUT /assignResidentToUser for a user and a resident id nobody holds: 200, and the user hash gets an empty `assignedResident` | 404 'Resident not found' and no write, as PUT /assignUser/:username does | high, not executed | Scenarios.AssignMissingResident | Scenarios.AssignMissingResidentChecked |
| redis-backend/server.js:1270-1273, 1311-1314 | update and delete are refused only for status 'IN PROCESS', which is none of the four statuses an administrator may set | request a certificate, have the administrator set 'Processing', then DELETE /user/certificate/:id as the owner: 200, and the certificate is gone | a certificate the office is processing cannot be changed or deleted by its owner | medium, not executed | Scenarios.ProcessingCertificateDeleted | Scenarios.ProcessingCertificateKept |
