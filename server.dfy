/**
  The route handlers of redis-backend/server.js as methods of one store: the hashes
  (users, residents, officials, announcements, certificates, staff), the per-user
  certificate sets and the four INCR counters.

  Each route answers a Status and changes the store in the order the handler does.
  The clock (the year of an identifier, a staff id from Date.now(), a timestamp),
  bcrypt (the hash a password gets, and whether a password matches a hash) and the
  date parser behind calculateAge are parameters.
*/
module Server {
  import opened Wrappers
  import opened Text
  import opened Ids
  import opened Validation
  import opened Age
  import opened Redis
  import opened Http
  import opened Seqs
  import opened State
  import opened Listing
  import Csv

  /** The answer of a successful login: the token's claims, the role, and the parsed
      assigned resident. */
  datatype LoginReply = LoginReply(token: Claims, role: Option<string>, assignedResident: Option<map<string, string>>)

  datatype AccountReply = AccountReply(username: Option<string>, assignedResident: Option<map<string, string>>)

  datatype PendingUser = PendingUser(username: string, role: Option<string>)

  datatype ActiveUser = ActiveUser(username: string, role: Option<string>, status: Option<string>, isAssigned: bool)

  datatype CertificateSummary = CertificateSummary(
    certificateId: Option<string>, username: Option<string>, certificateType: Option<string>,
    childName: Option<string>, relationship: Option<string>, fatherOrMother: Option<string>,
    deadName: Option<string>, deadAge: Option<string>, status: Option<string>,
    userRole: Option<string>)

  const PendingApproval := "Your account is pending approval. Please wait for admin confirmation."

  /** What bcrypt.compare throws when the stored hash is undefined. */
  const MissingHashError := "data and hash arguments required"

  /** The statuses an administrator may set. */
  const AdminStatuses: seq<string> := ["Pending", "Processing", "Ready for pick-up", "Completed"]

  /** The status that blocks a user's own update and delete. */
  const InProcess := "IN PROCESS"

  /** The statuses that evidently should block a user's own update and delete: the one
      the routes test, and the 'Processing' an administrator actually sets. */
  predicate InProcessStatus(status: Option<string>) {
    status == Some(InProcess) || status == Some("Processing")
  }

  /** `user.assignedResident ? JSON.parse(user.assignedResident) : null`. */
  function AssignedResident(user: Hash): Option<map<string, string>> {
    if "assignedResident" in user && user["assignedResident"].Json? then Some(user["assignedResident"].fields)
    else None
  }

  /** The three fields every account is created with. */
  function NewAccount(hashed: string, role: string, status: string): Hash {
    map["password" := Str(hashed), "role" := Str(role), "status" := Str(status)]
  }

  /** The hash /register stores. */
  function Registration(hashed: string, approved: bool, snapshot: Option<map<string, string>>): Hash {
    NewAccount(hashed, "user", if approved then "approved" else "pending")
    + (if snapshot.Some? then map["assignedResident" := Json(snapshot.value)] else map[])
  }

  /** The nine fields /user/requestCertificate stores: a missing detail is '' and a
      missing status is 'Pending'. */
  function CertificateFields(body: Body, username: string, id: string): map<string, string> {
    map[
      "certificateType" := Get(body, "certificateType"),
      "childName" := Get(body, "childName"),
      "relationship" := Get(body, "relationship"),
      "fatherOrMother" := Get(body, "fatherOrMother"),
      "deadName" := Get(body, "deadName"),
      "deadAge" := Get(body, "deadAge"),
      "status" := if Present(body, "status") then Get(body, "status") else "Pending",
      "username" := username,
      "certificateId" := id
    ]
  }

  /** What a stored request reads back as: its status, 'Pending' unless the body names
      one, and its owner. */
  lemma CertificateFieldsRead(body: Body, username: string, id: string)
    ensures FieldText(Strs(CertificateFields(body, username, id)), "status")
              == Some(if Present(body, "status") then Get(body, "status") else "Pending")
    ensures FieldText(Strs(CertificateFields(body, username, id)), "username") == Some(username)
  {
  }

  /** A field written when cond holds, and nothing otherwise. */
  function When(cond: bool, f: string, v: string): (m: map<string, string>)
    ensures cond ==> m == map[f := v]
    ensures !cond ==> m == map[]
  {
    if cond then map[f := v] else map[]
  }

  /** The fields a user's update of a certificate writes: a truthy certificateType, a
      details field that is not undefined (even ''), a truthy status. */
  function CertificateUpdate(body: Body): map<string, string> {
    When(Present(body, "certificateType"), "certificateType", Get(body, "certificateType"))
    + When("details" in body, "details", Get(body, "details"))
    + When(Present(body, "status"), "status", Get(body, "status"))
  }

  /** A certificate key whose status is not 'Completed'. */
  predicate OpenCertificate(hs: Keyspace, k: string) {
    FieldText(HGetAll(hs, k), "status") != Some("Completed")
  }

  /** The three kinds of record with the same get, update and delete handlers. */
  datatype Kind = Residents | Officials | Announcements {
    function Prefix(): string {
      match this
      case Residents => "resident:"
      case Officials => "official:"
      case Announcements => "announcement:"
    }

    function Key(id: string): (k: string)
      ensures k == Prefix() + id
    {
      match this
      case Residents => ResidentKey(id)
      case Officials => OfficialKey(id)
      case Announcements => AnnouncementKey(id)
    }

    /** The 404 message of the kind. */
    function Missing(): string {
      match this
      case Residents => "Resident not found"
      case Officials => "Official not found"
      case Announcements => "Announcement not found"
    }

    /** The field the listing fills from the key: officials are listed by `name`. */
    function Tag(): string {
      if this == Officials then "name" else "id"
    }
  }

  const StaffFields: seq<string> := ["username", "password", "name", "position"]

  /** The staff profile hash. */
  function StaffProfile(body: Body, createdAt: string): map<string, string> {
    map["username" := Get(body, "username"), "name" := Get(body, "name"),
        "position" := Get(body, "position"), "createdAt" := createdAt]
  }

  /** The fields PUT /staff/:id writes: the name and the position, each only when truthy. */
  function StaffChanges(body: Body): (m: map<string, string>)
    ensures m.Keys <= {"name", "position"}
    ensures forall f :: f in m <==> (f == "name" || f == "position") && Present(body, f)
    ensures forall f :: f in m ==> m[f] == Get(body, f)
  {
    (if Present(body, "name") then map["name" := Get(body, "name")] else map[])
    + (if Present(body, "position") then map["position" := Get(body, "position")] else map[])
  }

  /** `updateData.title && !updateData.description || !updateData.title && updateData.description`. */
  predicate HalfAnnouncement(body: Body) {
    Present(body, "title") != Present(body, "description")
  }

  /** The three hSet calls that create an account, on a key nobody holds. */
  lemma AccountWrites(hs: Keyspace, key: string, hashed: string, role: string, status: string)
    requires key !in hs
    ensures Merge(Merge(Merge(hs, key, map["password" := Str(hashed)]), key, map["role" := Str(role)]),
                  key, map["status" := Str(status)])
         == Merge(hs, key, NewAccount(hashed, role, status))
         == hs[key := NewAccount(hashed, role, status)]
  {
    var p, r, s := map["password" := Str(hashed)], map["role" := Str(role)], map["status" := Str(status)];
    MergeTwice(hs, key, p, r);
    MergeTwice(hs, key, p + r, s);
    NewAccountFields(hashed, role, status);
    MergeFresh(hs, key, NewAccount(hashed, role, status));
  }

  /** The three single-field writes together make up the new account's hash. */
  lemma NewAccountFields(hashed: string, role: string, status: string)
    ensures map["password" := Str(hashed)] + map["role" := Str(role)] + map["status" := Str(status)]
         == NewAccount(hashed, role, status)
    ensures "password" in NewAccount(hashed, role, status)
  {
  }

  /** Registration's optional fourth write. */
  lemma RegistrationWrites(hs: Keyspace, key: string, hashed: string, approved: bool,
                           snapshot: Option<map<string, string>>)
    requires key !in hs
    ensures (var acct := hs[key := NewAccount(hashed, "user", if approved then "approved" else "pending")];
             (if snapshot.Some? then Merge(acct, key, map["assignedResident" := Json(snapshot.value)]) else acct)
             == Merge(hs, key, Registration(hashed, approved, snapshot))
             == hs[key := Registration(hashed, approved, snapshot)])
  {
    var status := if approved then "approved" else "pending";
    assert "password" in NewAccount(hashed, "user", status);
    assert "password" in Registration(hashed, approved, snapshot);
    MergeFresh(hs, key, Registration(hashed, approved, snapshot));
    if snapshot.Some? {
      MergeFresh(hs, key, NewAccount(hashed, "user", status));
      MergeTwice(hs, key, NewAccount(hashed, "user", status), map["assignedResident" := Json(snapshot.value)]);
    } else {
      assert Registration(hashed, approved, snapshot) == NewAccount(hashed, "user", status);
    }
  }

  /** Storing a new account keeps the store's invariant. */
  lemma RegisteredKeepsValid(hs: Keyspace, sets: map<string, set<string>>, c: nat, username: string,
                             hashed: string, approved: bool, snapshot: Option<map<string, string>>)
    requires ValidState(hs, sets, c) && UserKey(username) !in hs
    ensures ValidState(hs[UserKey(username) := Registration(hashed, approved, snapshot)], sets, c)
  {
    RecordKeysAreNotCertificates(username);
    RegistrationWrites(hs, UserKey(username), hashed, approved, snapshot);
    WriteElsewhere(hs, sets, c, UserKey(username), Registration(hashed, approved, snapshot));
  }

  /** The three or four hSets of a registration store exactly the new account under a
      key nobody held, and keep the invariant. */
  lemma RegisterWritesKeepValid(hs: Keyspace, sets: map<string, set<string>>, c: nat, username: string,
                                hashed: string, approved: bool, snapshot: Option<map<string, string>>)
    requires ValidState(hs, sets, c) && HGetAll(hs, UserKey(username)) == map[]
    ensures var key := UserKey(username);
            var acct := Merge(Merge(Merge(hs, key, map["password" := Str(hashed)]), key, map["role" := Str("user")]),
                              key, map["status" := Str(if approved then "approved" else "pending")]);
            var final := if snapshot.Some? then Merge(acct, key, map["assignedResident" := Json(snapshot.value)]) else acct;
            final == hs[key := Registration(hashed, approved, snapshot)] && ValidState(final, sets, c)
  {
    var key := UserKey(username);
    assert key !in hs;
    AccountWrites(hs, key, hashed, "user", if approved then "approved" else "pending");
    RegistrationWrites(hs, key, hashed, approved, snapshot);
    RegisteredKeepsValid(hs, sets, c, username, hashed, approved, snapshot);
  }

  /** The two hSets of a successful login mark the user logged in under its name and
      keep the invariant. */
  lemma LoginKeepsValid(hs: Keyspace, sets: map<string, set<string>>, c: nat, username: string)
    requires ValidState(hs, sets, c)
    ensures var key := UserKey(username);
            var user := HGetAll(hs, key);
            var hs' := Merge(Merge(hs, key, map["loggedIn" := Str("true")]), key, map["username" := Str(username)]);
            hs' == hs[key := user["loggedIn" := Str("true")]["username" := Str(username)]] && ValidState(hs', sets, c)
  {
    var key := UserKey(username);
    var both := map["loggedIn" := Str("true")] + map["username" := Str(username)];
    LoginWrites(hs, key, username);
    assert Fits(key, both);
    RecordKeysAreNotCertificates(username);
    WriteElsewhere(hs, sets, c, key, both);
  }

  /** The loggedIn and username hSets, as one write of both fields. */
  lemma LoginWrites(hs: Keyspace, key: string, username: string)
    ensures var both := map["loggedIn" := Str("true")] + map["username" := Str(username)];
            var hs' := Merge(Merge(hs, key, map["loggedIn" := Str("true")]), key, map["username" := Str(username)]);
            && hs' == Merge(hs, key, both)
            && hs' == hs[key := HGetAll(hs, key)["loggedIn" := Str("true")]["username" := Str(username)]]
  {
    var both := map["loggedIn" := Str("true")] + map["username" := Str(username)];
    MergeTwice(hs, key, map["loggedIn" := Str("true")], map["username" := Str(username)]);
    assert "loggedIn" in both;
    assert HGetAll(hs, key) + both == HGetAll(hs, key)["loggedIn" := Str("true")]["username" := Str(username)];
  }

  /** An account key (`user:<name>`, not a certificate set) whose status is 'pending'. */
  predicate PendingAccount(hs: Keyspace, k: string) {
    IsAccountKey(k) && FieldText(HGetAll(hs, k), "status") == Some("pending")
  }

  /** An account key, other than the administrator's, of a user who has logged in. */
  predicate ActiveAccount(hs: Keyspace, k: string) {
    IsAccountKey(k) && FieldText(HGetAll(hs, k), "loggedIn") == Some("true") && KeyId(k) != AdminUsername
  }

  /** `userData.assignedResident ? true : false`. */
  predicate IsAssigned(user: Hash) {
    "assignedResident" in user && (user["assignedResident"].Json? || user["assignedResident"].text != "")
  }

  /** Storing a resident snapshot with a user keeps the store's invariant. */
  lemma SnapshotKeepsValid(hs: Keyspace, sets: map<string, set<string>>, c: nat, username: string,
                           snapshot: map<string, string>)
    requires ValidState(hs, sets, c)
    ensures ValidState(Merge(hs, UserKey(username), map["assignedResident" := Json(snapshot)]), sets, c)
  {
    RecordKeysAreNotCertificates(username);
    WriteElsewhere(hs, sets, c, UserKey(username), map["assignedResident" := Json(snapshot)]);
  }

  /** A staff account and its profile keep the store's invariant. */
  lemma StaffKeepsValid(hs: Keyspace, sets: map<string, set<string>>, c: nat, username: string, hashed: string,
                        staffId: string, profile: map<string, string>)
    requires ValidState(hs, sets, c) && UserKey(username) !in hs
    ensures ValidState(Merge(hs[UserKey(username) := NewAccount(hashed, "staff", "approved")], StaffKey(staffId), Strs(profile)),
                       sets, c)
  {
    RecordKeysAreNotCertificates(username);
    RecordKeysAreNotCertificates(staffId);
    KindsAreDisjoint(staffId, staffId);
    AccountWrites(hs, UserKey(username), hashed, "staff", "approved");
    WriteElsewhere(hs, sets, c, UserKey(username), NewAccount(hashed, "staff", "approved"));
    WriteElsewhere(hs[UserKey(username) := NewAccount(hashed, "staff", "approved")], sets, c, StaffKey(staffId), Strs(profile));
  }

  /** Two single-field hSet calls on one key. */
  lemma PairWrites(hs: Keyspace, key: string, f: string, a: string, g: string, b: string)
    requires f != g
    ensures Merge(Merge(hs, key, map[f := Str(a)]), key, map[g := Str(b)]) == Merge(hs, key, Strs(map[f := a, g := b]))
  {
    MergeTwice(hs, key, map[f := Str(a)], map[g := Str(b)]);
    assert map[f := Str(a)] + map[g := Str(b)] == Strs(map[f := a, g := b]);
  }

  /** Changing a staff profile's name and position keeps the invariant. */
  lemma StaffUpdateKeepsValid(hs: Keyspace, sets: map<string, set<string>>, c: nat, id: string, body: Body)
    requires ValidState(hs, sets, c)
    ensures ValidState(Merge(hs, StaffKey(id), Strs(StaffChanges(body))), sets, c)
  {
    KindsAreDisjoint(id, id);
    RecordKeysAreNotCertificates(id);
    WriteElsewhere(hs, sets, c, StaffKey(id), Strs(StaffChanges(body)));
  }

  /** The conditional name and position writes of PUT /staff/:id. */
  lemma StaffChangesWrites(hs: Keyspace, key: string, body: Body)
    ensures var named := if Present(body, "name") then Merge(hs, key, map["name" := Str(Get(body, "name"))]) else hs;
            (if Present(body, "position") then Merge(named, key, map["position" := Str(Get(body, "position"))]) else named)
            == Merge(hs, key, Strs(StaffChanges(body)))
  {
    var n, p := Get(body, "name"), Get(body, "position");
    if Present(body, "name") && Present(body, "position") {
      assert StaffChanges(body) == map["name" := n, "position" := p];
      PairWrites(hs, key, "name", n, "position", p);
    } else if Present(body, "name") {
      assert Strs(StaffChanges(body)) == map["name" := Str(n)];
    } else if Present(body, "position") {
      assert Strs(StaffChanges(body)) == map["position" := Str(p)];
    } else {
      assert Strs(StaffChanges(body)) == map[];
    }
  }

  /** The two hSet calls of POST /announcements keep the store's invariant. */
  lemma AnnouncementWrites(hs: Keyspace, sets: map<string, set<string>>, c: nat, id: string, title: string, description: string)
    requires ValidState(hs, sets, c)
    ensures var key := AnnouncementKey(id);
            var r := Merge(Merge(hs, key, map["title" := Str(title)]), key, map["description" := Str(description)]);
            r == Merge(hs, key, Strs(map["title" := title, "description" := description])) && ValidState(r, sets, c)
  {
    KindsAreDisjoint(id, id);
    RecordKeysAreNotCertificates(id);
    PairWrites(hs, AnnouncementKey(id), "title", title, "description", description);
    WriteElsewhere(hs, sets, c, AnnouncementKey(id), Strs(map["title" := title, "description" := description]));
  }

  /** The first hSet of a certificate stores the nine fields under a fresh key, and
      the whole request keeps the invariant with the counter one higher. */
  lemma RequestKeepsValid(hs: Keyspace, sets: map<string, set<string>>, c: nat, u: string, year: nat, id: string, body: Body)
    requires ValidState(hs, sets, c)
    requires id == FormatId(year, c + 1, CertificateWidth)
    ensures CertificateKey(id) !in hs
    ensures Merge(hs, CertificateKey(id), Strs(CertificateFields(body, u, id))) == hs[CertificateKey(id) := Strs(CertificateFields(body, u, id))]
    ensures ValidState(Merge(hs, CertificateKey(id), Strs(CertificateFields(body, u, id))),
                       SAdd(sets, CertificateSetKey(u), id), c + 1)
  {
    var fields := Strs(CertificateFields(body, u, id));
    assert "username" in fields && fields["username"] == Str(u);
    NextCertificateIdIsFresh(hs, sets, c, year);
    MergeFresh(hs, CertificateKey(id), fields);
    KindsAreDisjoint(id, id);
    AddCertificate(hs, sets, c, u, id, fields);
  }

  /** One-field HSETs of string maps add up. */
  lemma WritesAddUp(hs: Keyspace, key: string, a: map<string, string>, b: map<string, string>)
    ensures Merge(Merge(hs, key, Strs(a)), key, Strs(b)) == Merge(hs, key, Strs(a + b))
  {
    MergeTwice(hs, key, Strs(a), Strs(b));
    assert Strs(a) + Strs(b) == Strs(a + b);
  }

  /** The administrator's status change rewrites one field of a stored certificate and
      keeps the invariant, whether or not the certificate then leaves its owner's set. */
  lemma StatusChangeKeepsValid(hs: Keyspace, sets: map<string, set<string>>, c: nat, id: string, status: string)
    requires ValidState(hs, sets, c) && CertificateKey(id) in hs
    ensures var key := CertificateKey(id);
            var hs' := Merge(hs, key, map["status" := Str(status)]);
            && hs' == hs[key := hs[key]["status" := Str(status)]]
            && ValidState(hs', sets, c)
            && ValidState(hs', SRem(sets, CertificateSetKey(Render(FieldText(hs[key], "username"))), id), c)
  {
    var key := CertificateKey(id);
    var quo := map["status" := Str(status)];
    KindsAreDisjoint(id, id);
    WriteCertificate(hs, sets, c, id, quo);
    FieldWrite(hs, key, "status", Str(status));
    RemoveMember(Merge(hs, key, quo), sets, c, CertificateSetKey(Render(FieldText(hs[key], "username"))), id);
  }

  /** HSET of one field of a stored hash. */
  lemma FieldWrite(hs: Keyspace, key: string, f: string, v: Value)
    requires key in hs
    ensures Merge(hs, key, map[f := v]) == hs[key := hs[key][f := v]]
  {
    assert f in map[f := v] && hs[key] + map[f := v] == hs[key][f := v];
  }

  /** The three conditional hSets of a certificate update write the update's fields. */
  lemma UpdateWrites(hs: Keyspace, key: string, body: Body)
    ensures Merge(Merge(Merge(hs, key, Strs(When(Present(body, "certificateType"), "certificateType", Get(body, "certificateType")))),
                        key, Strs(When("details" in body, "details", Get(body, "details")))),
                  key, Strs(When(Present(body, "status"), "status", Get(body, "status"))))
         == Merge(hs, key, Strs(CertificateUpdate(body)))
  {
    var a := When(Present(body, "certificateType"), "certificateType", Get(body, "certificateType"));
    var b := When("details" in body, "details", Get(body, "details"));
    var c := When(Present(body, "status"), "status", Get(body, "status"));
    WritesAddUp(hs, key, a, b);
    WritesAddUp(hs, key, a + b, c);
  }

  /** Which fields a user's update writes, and with what: certificateType and status
      when truthy, details whenever the body has it, each with the body's value. */
  lemma CertificateUpdateFields(body: Body)
    ensures forall f :: f in CertificateUpdate(body) <==>
              || (f == "certificateType" && Present(body, "certificateType"))
              || (f == "details" && "details" in body)
              || (f == "status" && Present(body, "status"))
    ensures forall f :: f in CertificateUpdate(body) ==> CertificateUpdate(body)[f] == Get(body, f)
  {
    var a := When(Present(body, "certificateType"), "certificateType", Get(body, "certificateType"));
    var b := When("details" in body, "details", Get(body, "details"));
    var c := When(Present(body, "status"), "status", Get(body, "status"));
    assert CertificateUpdate(body) == a + b + c;
  }

  /** A user's update writes only the type, the details and the status. */
  lemma UpdateLeavesOwner(body: Body)
    ensures CertificateUpdate(body).Keys <= {"certificateType", "details", "status"}
    ensures "username" !in CertificateUpdate(body)
  {
    var a := When(Present(body, "certificateType"), "certificateType", Get(body, "certificateType"));
    var b := When("details" in body, "details", Get(body, "details"));
    var c := When(Present(body, "status"), "status", Get(body, "status"));
    assert a.Keys <= {"certificateType"} && b.Keys <= {"details"} && c.Keys <= {"status"};
    assert CertificateUpdate(body).Keys == a.Keys + b.Keys + c.Keys;
  }

  /** A user's update of a stored certificate keeps the invariant: it never writes the
      username field. */
  lemma UpdateKeepsValid(hs: Keyspace, sets: map<string, set<string>>, c: nat, id: string, body: Body)
    requires ValidState(hs, sets, c) && CertificateKey(id) in hs
    ensures ValidState(Merge(hs, CertificateKey(id), Strs(CertificateUpdate(body))), sets, c)
  {
    KindsAreDisjoint(id, id);
    StrsFit(CertificateKey(id), CertificateUpdate(body));
    UpdateLeavesOwner(body);
    WriteCertificate(hs, sets, c, id, Strs(CertificateUpdate(body)));
  }

  lemma ResidentKeyKind(k: string)
    requires StartsWith(k, "resident:")
    ensures !StartsWith(k, "user:") && !IsCertificateKey(k)
  {
    assert k[0] == 'r';
  }

  function SummaryOf(cert: Hash, user: Hash): CertificateSummary {
    CertificateSummary(
      FieldText(cert, "certificateId"), FieldText(cert, "username"), FieldText(cert, "certificateType"),
      FieldText(cert, "childName"), FieldText(cert, "relationship"), FieldText(cert, "fatherOrMother"),
      FieldText(cert, "deadName"), FieldText(cert, "deadAge"), FieldText(cert, "status"),
      FieldText(user, "role"))
  }

  class Store {
    var hashes: Keyspace
    var sets: map<string, set<string>>
    var residentIdCounter: nat
    var officialIdCounter: nat
    var announcementIdCounter: nat
    var certificateIdCounter: nat

    ghost predicate Valid()
      reads this
    {
      ValidState(hashes, sets, certificateIdCounter)
    }

    /** An empty Redis database. */
    constructor ()
      ensures Valid()
      ensures hashes == map[] && sets == map[]
      ensures residentIdCounter == 0 && officialIdCounter == 0
      ensures announcementIdCounter == 0 && certificateIdCounter == 0
    {
      hashes := map[];
      sets := map[];
      residentIdCounter := 0;
      officialIdCounter := 0;
      announcementIdCounter := 0;
      certificateIdCounter := 0;
    }

    /** HGETALL. */
    function Fields(key: string): Hash
      reads this
    {
      HGetAll(hashes, key)
    }

    /** SMEMBERS. */
    function Members(key: string): set<string>
      reads this
    {
      if key in sets then sets[key] else {}
    }

    /** A KEYS <prefix>* reply over the hashes: each matching key once, in some order. */
    ghost predicate KeysReply(order: seq<string>, prefix: string)
      reads this
    {
      Distinct(order) && forall k :: k in order <==> k in hashes && StartsWith(k, prefix)
    }

    // -------------------------------------------------------------------------
    // Store commands

    method HSet(key: string, fields: Hash)
      modifies this`hashes
      ensures hashes == Merge(old(hashes), key, fields)
    {
      hashes := Merge(hashes, key, fields);
    }

    /** `for (const key in data) await client.hSet(key, field, data[field])`. */
    method HSetEach(key: string, data: map<string, string>)
      modifies this`hashes
      ensures hashes == Merge(old(hashes), key, Strs(data))
    {
      var todo := data.Keys;
      ghost var done: map<string, string> := map[];
      while todo != {}
        invariant todo <= data.Keys
        invariant done.Keys == data.Keys - todo
        invariant forall f :: f in done ==> done[f] == data[f]
        invariant hashes == Merge(old(hashes), key, Strs(done))
        decreases |todo|
      {
        var f :| f in todo;
        ghost var before := hashes;
        HSet(key, map[f := Str(data[f])]);
        MergeTwice(old(hashes), key, Strs(done), map[f := Str(data[f])]);
        StrsInsert(done, f, data[f]);
        done := done[f := data[f]];
        todo := todo - {f};
      }
      assert done == data;
    }

    /** `if (cond) await client.hSet(key, f, v)`; written is the field written, if any. */
    method HSetWhen(key: string, cond: bool, f: string, v: string) returns (written: map<string, string>)
      modifies this`hashes
      ensures written == When(cond, f, v)
      ensures hashes == Merge(old(hashes), key, Strs(written))
    {
      written := When(cond, f, v);
      if cond {
        HSetEach(key, written);
      } else {
        assert Strs(written) == map[];
      }
    }

    /** DEL removes the key whatever it holds. */
    method Del(key: string)
      modifies this`hashes, this`sets
      ensures hashes == old(hashes) - {key} && sets == old(sets) - {key}
    {
      hashes := hashes - {key};
      sets := sets - {key};
    }

    method SAddMember(key: string, m: string)
      modifies this`sets
      ensures sets == SAdd(old(sets), key, m)
    {
      sets := SAdd(sets, key, m);
    }

    method SRemMember(key: string, m: string)
      modifies this`sets
      ensures sets == SRem(old(sets), key, m)
    {
      sets := SRem(sets, key, m);
    }

    /** INCR residentIdCounter: the new value. */
    method IncrResidentIds() returns (n: nat)
      modifies this`residentIdCounter
      ensures residentIdCounter == old(residentIdCounter) + 1 && n == residentIdCounter
    {
      residentIdCounter := residentIdCounter + 1;
      n := residentIdCounter;
    }

    method IncrOfficialIds() returns (n: nat)
      modifies this`officialIdCounter
      ensures officialIdCounter == old(officialIdCounter) + 1 && n == officialIdCounter
    {
      officialIdCounter := officialIdCounter + 1;
      n := officialIdCounter;
    }

    method IncrAnnouncementIds() returns (n: nat)
      modifies this`announcementIdCounter
      ensures announcementIdCounter == old(announcementIdCounter) + 1 && n == announcementIdCounter
    {
      announcementIdCounter := announcementIdCounter + 1;
      n := announcementIdCounter;
    }

    method IncrCertificateIds() returns (n: nat)
      modifies this`certificateIdCounter
      ensures certificateIdCounter == old(certificateIdCounter) + 1 && n == certificateIdCounter
    {
      certificateIdCounter := certificateIdCounter + 1;
      n := certificateIdCounter;
    }

    // -------------------------------------------------------------------------
    // Accounts

    /** initializeAdmin: creates user:lrnblss only when no such hash exists. */
    method InitializeAdmin(hashed: string)
      requires Valid()
      modifies this`hashes
      ensures Valid()
      ensures old(Fields(UserKey(AdminUsername))) == map[] ==>
                hashes == old(hashes)[UserKey(AdminUsername) := NewAccount(hashed, "admin", "approved")]
      ensures old(Fields(UserKey(AdminUsername))) != map[] ==> hashes == old(hashes)
    {
      var key := UserKey(AdminUsername);
      var existing := Fields(key);
      if existing == map[] {
        ghost var hs := hashes;
        HSet(key, map["password" := Str(hashed)]);
        HSet(key, map["role" := Str("admin")]);
        HSet(key, map["status" := Str("approved")]);
        AccountWrites(hs, key, hashed, "admin", "approved");
        RecordKeysAreNotCertificates(AdminUsername);
        WriteElsewhere(hs, sets, certificateIdCounter, key, NewAccount(hashed, "admin", "approved"));
      }
    }

    /** POST /register. */
    method Register(username: string, password: string, isAdminCreated: bool,
                    assignedResident: Option<map<string, string>>, hashed: string) returns (st: Status)
      requires Valid()
      modifies this`hashes
      ensures Valid()
      ensures st == (if username == "" || password == "" then BadRequest("Username and password are required")
                     else if Trim(username) == "" then BadRequest("Invalid username")
                     else if old(Fields(UserKey(username))) != map[] then BadRequest("Username already taken")
                     else Created)
      ensures st == Created ==>
                hashes == old(hashes)[UserKey(username) := Registration(hashed, isAdminCreated, assignedResident)]
      ensures st != Created ==> hashes == old(hashes)
    {
      if username == "" || password == "" {
        return BadRequest("Username and password are required");
      }
      if Trim(username) == "" {
        return BadRequest("Invalid username");
      }
      var key := UserKey(username);
      var existing := Fields(key);
      if existing != map[] {
        return BadRequest("Username already taken");
      }
      StoreRegistration(username, isAdminCreated, assignedResident, hashed);
      st := Created;
    }

    /** The hSets of a registration: password, role and status, then the resident
        snapshot when one was sent. */
    method StoreRegistration(username: string, isAdminCreated: bool,
                             assignedResident: Option<map<string, string>>, hashed: string)
      requires Valid() && Fields(UserKey(username)) == map[]
      modifies this`hashes
      ensures Valid()
      ensures hashes == old(hashes)[UserKey(username) := Registration(hashed, isAdminCreated, assignedResident)]
    {
      var key := UserKey(username);
      var status := if isAdminCreated then "approved" else "pending";
      RegisterWritesKeepValid(hashes, sets, certificateIdCounter, username, hashed, isAdminCreated, assignedResident);
      HSet(key, map["password" := Str(hashed)]);
      HSet(key, map["role" := Str("user")]);
      HSet(key, map["status" := Str(status)]);
      if assignedResident.Some? {
        HSet(key, map["assignedResident" := Json(assignedResident.value)]);
      }
    }

    /** POST /login. The approval status is checked before the password. */
    method Login(username: string, password: string, matches: (string, string) -> bool)
      returns (st: Status, reply: Option<LoginReply>)
      requires Valid()
      modifies this`hashes
      ensures Valid()
      ensures var user := old(Fields(UserKey(username)));
              st == (if username == "" || password == "" then BadRequest("Username and password are required")
                     else if user == map[] then Unauthorized("Invalid credentials")
                     else if FieldText(user, "status") != Some("approved") then Forbidden(PendingApproval)
                     else if FieldText(user, "password").None? then ServerError("Failed to login", MissingHashError)
                     else if !matches(password, FieldText(user, "password").value) then Unauthorized("Invalid credentials")
                     else Ok)
      ensures var user := old(Fields(UserKey(username)));
              st == Ok ==>
                && hashes == old(hashes)[UserKey(username) := user["loggedIn" := Str("true")]["username" := Str(username)]]
                && reply == Some(LoginReply(Claims(username, FieldText(user, "role")), FieldText(user, "role"),
                                            AssignedResident(user)))
      ensures st != Ok ==> hashes == old(hashes) && reply == None
    {
      reply := None;
      if username == "" || password == "" {
        return BadRequest("Username and password are required"), None;
      }
      var key := UserKey(username);
      var user := Fields(key);
      if user == map[] {
        return Unauthorized("Invalid credentials"), None;
      }
      if FieldText(user, "status") != Some("approved") {
        return Forbidden(PendingApproval), None;
      }
      var stored := FieldText(user, "password");
      if stored.None? {
        return ServerError("Failed to login", MissingHashError), None;
      }
      if !matches(password, stored.value) {
        return Unauthorized("Invalid credentials"), None;
      }
      ghost var hs := hashes;
      HSet(key, map["loggedIn" := Str("true")]);
      var resident := AssignedResident(user);
      HSet(key, map["username" := Str(username)]);
      LoginKeepsValid(hs, sets, certificateIdCounter, username);
      var role := FieldText(user, "role");
      st, reply := Ok, Some(LoginReply(Claims(username, role), role, resident));
    }

    /** GET /checkUsername/:username: whether a user hash of that name exists. */
    function CheckUsername(auth: Auth, username: string): (r: (Status, bool))
      requires Valid()
      reads this
      ensures Authenticate(auth).Failure? ==> r == (Authenticate(auth).error, false)
      ensures Authenticate(auth).Success? ==> r.0 == Ok && (r.1 <==> UserKey(username) in hashes)
    {
      match Authenticate(auth)
      case Failure(e) => (e, false)
      case Success(_) => (Ok, Fields(UserKey(username)) != map[])
    }

    /** GET /pendingUsers: the accounts whose status is 'pending', in the order of the
        KEYS user:* reply; ghost keys gives the key each entry was read from. */
    method PendingUsers(auth: Auth, order: seq<string>) returns (st: Status, users: seq<PendingUser>, ghost keys: seq<string>)
      requires KeysReply(order, "user:")
      ensures Authorize(auth, AdminOnly).Failure? ==> st == Authorize(auth, AdminOnly).error && users == [] && keys == []
      ensures Authorize(auth, AdminOnly).Success? ==>
                st == Ok && var hs := hashes; keys == Keep(order, k => PendingAccount(hs, k))
      ensures |users| == |keys| && Distinct(keys)
      ensures forall i :: 0 <= i < |keys| ==> users[i] == PendingUser(KeyId(keys[i]), FieldText(Fields(keys[i]), "role"))
      ensures Authorize(auth, AdminOnly).Success? ==> forall k :: k in keys <==> k in hashes && PendingAccount(hashes, k)
    {
      users, keys := [], [];
      match Authorize(auth, AdminOnly)
      case Failure(e) => return e, [], [];
      case Success(_) =>
      ghost var hs := hashes;
      ghost var pending := k => PendingAccount(hs, k);
      for n := 0 to |order|
        invariant keys == Keep(order[..n], pending)
        invariant |users| == |keys|
        invariant forall i :: 0 <= i < |keys| ==> users[i] == PendingUser(KeyId(keys[i]), FieldText(Fields(keys[i]), "role"))
      {
        var key := order[n];
        KeepSnoc(order[..n], key, pending);
        assert order[..n + 1] == order[..n] + [key];
        if IsAccountKey(key) {
          var userData := Fields(key);
          if FieldText(userData, "status") == Some("pending") {
            users := users + [PendingUser(KeyId(key), FieldText(userData, "role"))];
            keys := keys + [key];
          }
        }
      }
      assert order[..|order|] == order;
      KeepDistinct(order, pending);
      KeepMembers(order, pending);
      st := Ok;
    }

    /** GET /users: the accounts, other than lrnblss, whose loggedIn field is 'true', in the
        order of the KEYS user:* reply. */
    method ActiveUsers(auth: Auth, order: seq<string>) returns (st: Status, users: seq<ActiveUser>, ghost keys: seq<string>)
      requires KeysReply(order, "user:")
      ensures Authorize(auth, AdminOnly).Failure? ==> st == Authorize(auth, AdminOnly).error && users == [] && keys == []
      ensures Authorize(auth, AdminOnly).Success? ==>
                st == Ok && var hs := hashes; keys == Keep(order, k => ActiveAccount(hs, k))
      ensures |users| == |keys| && Distinct(keys)
      ensures forall i :: 0 <= i < |keys| ==>
                var user := Fields(keys[i]);
                users[i] == ActiveUser(KeyId(keys[i]), FieldText(user, "role"), FieldText(user, "status"), IsAssigned(user))
      ensures Authorize(auth, AdminOnly).Success? ==> forall k :: k in keys <==> k in hashes && ActiveAccount(hashes, k)
    {
      users, keys := [], [];
      match Authorize(auth, AdminOnly)
      case Failure(e) => return e, [], [];
      case Success(_) =>
      ghost var hs := hashes;
      ghost var active := k => ActiveAccount(hs, k);
      for n := 0 to |order|
        invariant keys == Keep(order[..n], active)
        invariant |users| == |keys|
        invariant forall i :: 0 <= i < |keys| ==>
                    var user := Fields(keys[i]);
                    users[i] == ActiveUser(KeyId(keys[i]), FieldText(user, "role"), FieldText(user, "status"), IsAssigned(user))
      {
        var key := order[n];
        KeepSnoc(order[..n], key, active);
        assert order[..n + 1] == order[..n] + [key];
        if IsAccountKey(key) {
          var userData := Fields(key);
          var username := KeyId(key);
          if FieldText(userData, "loggedIn") == Some("true") && username != AdminUsername {
            users := users + [ActiveUser(username, FieldText(userData, "role"), FieldText(userData, "status"), IsAssigned(userData))];
            keys := keys + [key];
          }
        }
      }
      assert order[..|order|] == order;
      KeepDistinct(order, active);
      KeepMembers(order, active);
      st := Ok;
    }

    /** GET /getAssignedResident/:username (no token needed): the snapshot stored with the user. */
    function GetAssignedResident(username: string): (r: (Status, Option<map<string, string>>))
      reads this
      ensures r.0 == Ok <==> r.1.Some?
      ensures r.0 != Ok ==> r.0 == NotFound("Assigned resident not found")
      ensures r.1.Some? ==> UserKey(username) in hashes && Field(hashes[UserKey(username)], "assignedResident") == Some(Json(r.1.value))
      ensures Valid() && UserKey(username) in hashes && "assignedResident" in hashes[UserKey(username)] ==> r.1.Some?
    {
      var v := Field(Fields(UserKey(username)), "assignedResident");
      if v.Some? && v.value.Json? then (Ok, Some(v.value.fields)) else (NotFound("Assigned resident not found"), None)
    }

    /** DELETE /deleteUser/:username: EXISTS, then DEL. */
    method DeleteUser(auth: Auth, username: string) returns (st: Status)
      requires Valid()
      modifies this`hashes, this`sets
      ensures Valid()
      ensures Authorize(auth, AdminOnly).Failure? ==> st == Authorize(auth, AdminOnly).error
      ensures Authorize(auth, AdminOnly).Success? ==>
                st == (if UserKey(username) in old(hashes) || UserKey(username) in old(sets) then Ok
                       else NotFound("User not found"))
      ensures st == Ok ==> hashes == old(hashes) - {UserKey(username)} && sets == old(sets) - {UserKey(username)}
      ensures st != Ok ==> hashes == old(hashes) && sets == old(sets)
    {
      match Authorize(auth, AdminOnly)
      case Failure(e) => return e;
      case Success(_) =>
      var key := UserKey(username);
      if key !in hashes && key !in sets {
        return NotFound("User not found");
      }
      RecordKeysAreNotCertificates(username);
      DeleteElsewhere(hashes, sets, certificateIdCounter, key);
      Del(key);
      st := Ok;
    }

    /** PUT /assignUser/:username: stores a JSON copy of an existing resident with the user. */
    method AssignUser(auth: Auth, username: string, residentId: string) returns (st: Status)
      requires Valid()
      modifies this`hashes
      ensures Valid()
      ensures Authorize(auth, AdminOnly).Failure? ==> st == Authorize(auth, AdminOnly).error
      ensures Authorize(auth, AdminOnly).Success? ==>
                st == (if old(Fields(ResidentKey(residentId))) == map[] then NotFound("Resident not found") else Ok)
      ensures st == Ok ==>
                hashes == Merge(old(hashes), UserKey(username),
                                map["assignedResident" := Json(Texts(old(Fields(ResidentKey(residentId)))))])
      ensures st != Ok ==> hashes == old(hashes)
    {
      match Authorize(auth, AdminOnly)
      case Failure(e) => return e;
      case Success(_) =>
      var resident := Fields(ResidentKey(residentId));
      if resident == map[] {
        return NotFound("Resident not found");
      }
      SnapshotKeepsValid(hashes, sets, certificateIdCounter, username, Texts(resident));
      HSet(UserKey(username), map["assignedResident" := Json(Texts(resident))]);
      st := Ok;
    }

    /** PUT /approveUser/:username. */
    method ApproveUser(auth: Auth, username: string) returns (st: Status)
      requires Valid()
      modifies this`hashes
      ensures Valid()
      ensures Authorize(auth, AdminOnly).Failure? ==> st == Authorize(auth, AdminOnly).error
      ensures Authorize(auth, AdminOnly).Success? ==>
                st == (if UserKey(username) in old(hashes) then Ok else NotFound("User not found"))
      ensures st == Ok ==>
                hashes == old(hashes)[UserKey(username) := old(hashes)[UserKey(username)]["status" := Str("approved")]]
      ensures st != Ok ==> hashes == old(hashes)
    {
      match Authorize(auth, AdminOnly)
      case Failure(e) => return e;
      case Success(_) =>
      var key := UserKey(username);
      if Fields(key) == map[] {
        return NotFound("User not found");
      }
      RecordKeysAreNotCertificates(username);
      WriteElsewhere(hashes, sets, certificateIdCounter, key, map["status" := Str("approved")]);
      assert Fields(key) + map["status" := Str("approved")] == Fields(key)["status" := Str("approved")];
      assert "status" in map["status" := Str("approved")];
      HSet(key, map["status" := Str("approved")]);
      st := Ok;
    }

    /** DELETE /rejectUser/:username. */
    method RejectUser(auth: Auth, username: string) returns (st: Status)
      requires Valid()
      modifies this`hashes, this`sets
      ensures Valid()
      ensures Authorize(auth, AdminOnly).Failure? ==> st == Authorize(auth, AdminOnly).error
      ensures Authorize(auth, AdminOnly).Success? ==>
                st == (if UserKey(username) in old(hashes) then Ok else NotFound("User not found"))
      ensures st == Ok ==> hashes == old(hashes) - {UserKey(username)} && sets == old(sets) - {UserKey(username)}
      ensures st != Ok ==> hashes == old(hashes) && sets == old(sets)
    {
      match Authorize(auth, AdminOnly)
      case Failure(e) => return e;
      case Success(_) =>
      var key := UserKey(username);
      if Fields(key) == map[] {
        return NotFound("User not found");
      }
      RecordKeysAreNotCertificates(username);
      DeleteElsewhere(hashes, sets, certificateIdCounter, key);
      Del(key);
      st := Ok;
    }

    /** hSet of string fields under a key that is neither an account's nor a certificate's. */
    method WriteRecord(key: string, data: map<string, string>)
      requires Valid() && !StartsWith(key, "user:") && !IsCertificateKey(key)
      modifies this`hashes
      ensures Valid() && hashes == Merge(old(hashes), key, Strs(data))
    {
      WriteElsewhere(hashes, sets, certificateIdCounter, key, Strs(data));
      HSetEach(key, data);
    }

    // -------------------------------------------------------------------------
    // Staff

    /** POST /staff: an approved account with role staff and a profile under staff:<staffId>. */
    method CreateStaff(auth: Auth, body: Body, hashed: string, staffId: string, createdAt: string)
      returns (st: Status)
      requires Valid()
      modifies this`hashes
      ensures Valid()
      ensures Authorize(auth, AdminOnly).Failure? ==> st == Authorize(auth, AdminOnly).error
      ensures Authorize(auth, AdminOnly).Success? ==>
                st == (if !AllPresent(StaffFields, body) then BadRequest("All fields are required")
                       else if old(Fields(UserKey(Get(body, "username")))) != map[] then BadRequest("Username already taken")
                       else Created)
      ensures st == Created ==>
                hashes == Merge(old(hashes)[UserKey(Get(body, "username")) := NewAccount(hashed, "staff", "approved")],
                                StaffKey(staffId), Strs(StaffProfile(body, createdAt)))
      ensures st != Created ==> hashes == old(hashes)
    {
      match Authorize(auth, AdminOnly)
      case Failure(e) => return e;
      case Success(_) =>
      if !AllPresent(StaffFields, body) {
        return BadRequest("All fields are required");
      }
      var key := UserKey(Get(body, "username"));
      if Fields(key) != map[] {
        return BadRequest("Username already taken");
      }
      ghost var hs := hashes;
      HSet(key, map["password" := Str(hashed)]);
      HSet(key, map["role" := Str("staff")]);
      HSet(key, map["status" := Str("approved")]);
      AccountWrites(hs, key, hashed, "staff", "approved");
      StaffKeepsValid(hs, sets, certificateIdCounter, Get(body, "username"), hashed, staffId, StaffProfile(body, createdAt));
      HSet(StaffKey(staffId), Strs(StaffProfile(body, createdAt)));
      st := Created;
    }

    /** GET /staffs: every staff profile with its id, in the order of the KEYS staff:* reply. */
    function ListStaff(auth: Auth, order: seq<string>): (r: (Status, seq<Record>))
      requires KeysReply(order, "staff:")
      reads this
      ensures Authorize(auth, AdminOnly).Failure? ==> r == (Authorize(auth, AdminOnly).error, [])
      ensures Authorize(auth, AdminOnly).Success? ==>
                && r.0 == Ok && |r.1| == |order|
                && forall i :: 0 <= i < |order| ==> order[i] in hashes && r.1[i] == Tagged("id", order[i], hashes[order[i]])
    {
      match Authorize(auth, AdminOnly)
      case Failure(e) => (e, [])
      case Success(_) => (Ok, TagAll("id", order, hashes))
    }

    /** PUT /staff/:id. */
    method UpdateStaff(auth: Auth, id: string, body: Body) returns (st: Status)
      requires Valid()
      modifies this`hashes
      ensures Valid()
      ensures Authorize(auth, AdminOnly).Failure? ==> st == Authorize(auth, AdminOnly).error
      ensures Authorize(auth, AdminOnly).Success? ==>
                st == (if StaffKey(id) in old(hashes) then Ok else NotFound("Staff not found"))
      ensures st == Ok ==> hashes == Merge(old(hashes), StaffKey(id), Strs(StaffChanges(body)))
      ensures st != Ok ==> hashes == old(hashes)
    {
      match Authorize(auth, AdminOnly)
      case Failure(e) => return e;
      case Success(_) =>
      var key := StaffKey(id);
      if Fields(key) == map[] {
        return NotFound("Staff not found");
      }
      StaffUpdateKeepsValid(hashes, sets, certificateIdCounter, id, body);
      ghost var hs := hashes;
      if Present(body, "name") {
        HSet(key, map["name" := Str(Get(body, "name"))]);
      }
      if Present(body, "position") {
        HSet(key, map["position" := Str(Get(body, "position"))]);
      }
      StaffChangesWrites(hs, key, body);
      st := Ok;
    }

    /** DELETE /staff/:id: the account named by the profile's username, then the profile. */
    method DeleteStaff(auth: Auth, id: string) returns (st: Status)
      requires Valid()
      modifies this`hashes, this`sets
      ensures Valid()
      ensures Authorize(auth, AdminOnly).Failure? ==> st == Authorize(auth, AdminOnly).error
      ensures Authorize(auth, AdminOnly).Success? ==>
                st == (if StaffKey(id) in old(hashes) then Ok else NotFound("Staff not found"))
      ensures st == Ok ==>
                var account := UserKey(Render(FieldText(old(hashes)[StaffKey(id)], "username")));
                hashes == old(hashes) - {account, StaffKey(id)} && sets == old(sets) - {account, StaffKey(id)}
      ensures st != Ok ==> hashes == old(hashes) && sets == old(sets)
    {
      match Authorize(auth, AdminOnly)
      case Failure(e) => return e;
      case Success(_) =>
      var key := StaffKey(id);
      var staff := Fields(key);
      if staff == map[] {
        return NotFound("Staff not found");
      }
      var account := UserKey(Render(FieldText(staff, "username")));
      RecordKeysAreNotCertificates(Render(FieldText(staff, "username")));
      RecordKeysAreNotCertificates(id);
      DeleteElsewhere(hashes, sets, certificateIdCounter, account);
      Del(account);
      DeleteElsewhere(hashes, sets, certificateIdCounter, key);
      Del(key);
      st := Ok;
    }

    // -------------------------------------------------------------------------
    // Residents, officials and announcements

    /** POST /residents: validate, INCR residentIdCounter, store the body with its new id. */
    method CreateResident(auth: Auth, body: Body, year: nat) returns (st: Status, id: Option<string>)
      requires Valid()
      modifies this`hashes, this`residentIdCounter
      ensures Valid()
      ensures Authorize(auth, AdminOnly).Failure? ==> st == Authorize(auth, AdminOnly).error
      ensures Authorize(auth, AdminOnly).Success? && ValidateResident(body).Failure? ==>
                st == ServerError("Failed to save resident", ValidateResident(body).error.Message())
      ensures Authorize(auth, AdminOnly).Success? && ValidateResident(body).Success? ==> st == Created
      ensures st == Created <==> id.Some?
      ensures st == Created ==>
                && residentIdCounter == old(residentIdCounter) + 1
                && id.value == FormatId(year, residentIdCounter, ResidentWidth)
                && hashes == Merge(old(hashes), ResidentKey(id.value), Strs(body["id" := id.value]))
      ensures st != Created ==> hashes == old(hashes) && residentIdCounter == old(residentIdCounter)
    {
      id := None;
      match Authorize(auth, AdminOnly)
      case Failure(e) => return e, None;
      case Success(_) =>
      match ValidateResident(body)
      case Failure(why) => return ServerError("Failed to save resident", why.Message()), None;
      case Success(data) =>
      var n := IncrResidentIds();
      var residentId := FormatId(year, n, ResidentWidth);
      KindsAreDisjoint(residentId, residentId);
      RecordKeysAreNotCertificates(residentId);
      WriteRecord(ResidentKey(residentId), data["id" := residentId]);
      st, id := Created, Some(residentId);
    }

    /** POST /officials: the uploaded photo's path joins the body before validation; the
        identifier is padded to three digits. */
    method CreateOfficial(auth: Auth, body: Body, photo: Option<string>, year: nat) returns (st: Status, id: Option<string>)
      requires Valid()
      modifies this`hashes, this`officialIdCounter
      ensures Valid()
      ensures var data := if photo.Some? then body["photo" := photo.value] else body;
              && (Authorize(auth, AdminOnly).Failure? ==> st == Authorize(auth, AdminOnly).error)
              && (Authorize(auth, AdminOnly).Success? && ValidateOfficial(data).Failure? ==>
                    st == ServerError("Failed to save official", ValidateOfficial(data).error.Message()))
              && (Authorize(auth, AdminOnly).Success? && ValidateOfficial(data).Success? ==> st == Created)
              && (st == Created ==>
                    && officialIdCounter == old(officialIdCounter) + 1
                    && id == Some(FormatId(year, officialIdCounter, OfficialWidth))
                    && hashes == Merge(old(hashes), OfficialKey(id.value), Strs(data["id" := id.value])))
      ensures st == Created <==> id.Some?
      ensures st != Created ==> hashes == old(hashes) && officialIdCounter == old(officialIdCounter)
    {
      id := None;
      match Authorize(auth, AdminOnly)
      case Failure(e) => return e, None;
      case Success(_) =>
      var officialData := if photo.Some? then body["photo" := photo.value] else body;
      match ValidateOfficial(officialData)
      case Failure(why) => return ServerError("Failed to save official", why.Message()), None;
      case Success(data) =>
      var n := IncrOfficialIds();
      var officialId := FormatId(year, n, OfficialWidth);
      KindsAreDisjoint(officialId, officialId);
      RecordKeysAreNotCertificates(officialId);
      WriteRecord(OfficialKey(officialId), data["id" := officialId]);
      st, id := Created, Some(officialId);
    }

    /** POST /announcements: only the title and the description are stored. */
    method CreateAnnouncement(auth: Auth, body: Body, year: nat) returns (st: Status, id: Option<string>)
      requires Valid()
      modifies this`hashes, this`announcementIdCounter
      ensures Valid()
      ensures Authorize(auth, AdminOnly).Failure? ==> st == Authorize(auth, AdminOnly).error
      ensures Authorize(auth, AdminOnly).Success? ==>
                st == (if !Present(body, "title") || !Present(body, "description")
                       then BadRequest("Title and description are required") else Created)
      ensures st == Created <==> id.Some?
      ensures st == Created ==>
                && announcementIdCounter == old(announcementIdCounter) + 1
                && id.value == FormatId(year, announcementIdCounter, AnnouncementWidth)
                && hashes == Merge(old(hashes), AnnouncementKey(id.value),
                                   Strs(map["title" := body["title"], "description" := body["description"]]))
      ensures st != Created ==> hashes == old(hashes) && announcementIdCounter == old(announcementIdCounter)
    {
      id := None;
      match Authorize(auth, AdminOnly)
      case Failure(e) => return e, None;
      case Success(_) =>
      if !Present(body, "title") || !Present(body, "description") {
        return BadRequest("Title and description are required"), None;
      }
      var n := IncrAnnouncementIds();
      var announcementId := FormatId(year, n, AnnouncementWidth);
      var key := AnnouncementKey(announcementId);
      ghost var hs := hashes;
      HSet(key, map["title" := Str(body["title"])]);
      HSet(key, map["description" := Str(body["description"])]);
      AnnouncementWrites(hs, sets, certificateIdCounter, announcementId, body["title"], body["description"]);
      st, id := Created, Some(announcementId);
    }

    /** GET /residents/:id, /officials/:id and /announcements/:id (any signed-in user). */
    function GetRecord(auth: Auth, kind: Kind, id: string): (r: (Status, Option<map<string, string>>))
      reads this
      ensures Authenticate(auth).Failure? ==> r == (Authenticate(auth).error, None)
      ensures Authenticate(auth).Success? ==>
                r.0 == (if Fields(kind.Key(id)) != map[] then Ok else NotFound(kind.Missing()))
      ensures r.1.Some? <==> r.0 == Ok
      ensures r.1.Some? ==> kind.Key(id) in hashes && r.1.value == Texts(hashes[kind.Key(id)])
    {
      match Authenticate(auth)
      case Failure(e) => (e, None)
      case Success(_) =>
        var data := Fields(kind.Key(id));
        if data == map[] then (NotFound(kind.Missing()), None) else (Ok, Some(Texts(data)))
    }

    /** PUT /residents/:id, /officials/:id and /announcements/:id: every body field is
        written; an announcement update must bring both its title and its description or
        neither. */
    method UpdateRecord(auth: Auth, kind: Kind, id: string, body: Body) returns (st: Status)
      requires Valid()
      modifies this`hashes
      ensures Valid()
      ensures Authorize(auth, AdminOnly).Failure? ==> st == Authorize(auth, AdminOnly).error
      ensures Authorize(auth, AdminOnly).Success? ==>
                st == (if kind.Key(id) !in old(hashes) then NotFound(kind.Missing())
                       else if kind == Announcements && HalfAnnouncement(body)
                       then BadRequest("Both title and description are required")
                       else Ok)
      ensures st == Ok ==> hashes == Merge(old(hashes), kind.Key(id), Strs(body))
      ensures st != Ok ==> hashes == old(hashes)
    {
      match Authorize(auth, AdminOnly)
      case Failure(e) => return e;
      case Success(_) =>
      var key := kind.Key(id);
      if Fields(key) == map[] {
        return NotFound(kind.Missing());
      }
      if kind == Announcements && HalfAnnouncement(body) {
        return BadRequest("Both title and description are required");
      }
      KindsAreDisjoint(id, id);
      RecordKeysAreNotCertificates(id);
      WriteRecord(key, body);
      st := Ok;
    }

    /** DELETE /residents/:id, /officials/:id and /announcements/:id. */
    method DeleteRecord(auth: Auth, kind: Kind, id: string) returns (st: Status)
      requires Valid()
      modifies this`hashes, this`sets
      ensures Valid()
      ensures Authorize(auth, AdminOnly).Failure? ==> st == Authorize(auth, AdminOnly).error
      ensures Authorize(auth, AdminOnly).Success? ==>
                st == (if kind.Key(id) in old(hashes) then Ok else NotFound(kind.Missing()))
      ensures st == Ok ==> hashes == old(hashes) - {kind.Key(id)} && sets == old(sets) - {kind.Key(id)}
      ensures st != Ok ==> hashes == old(hashes) && sets == old(sets)
    {
      match Authorize(auth, AdminOnly)
      case Failure(e) => return e;
      case Success(_) =>
      var key := kind.Key(id);
      if Fields(key) == map[] {
        return NotFound(kind.Missing());
      }
      RecordKeysAreNotCertificates(id);
      DeleteElsewhere(hashes, sets, certificateIdCounter, key);
      Del(key);
      st := Ok;
    }

    /** GET /residents and GET /officials: each record tagged with the id in its key
        (officials: as `name`), kept when a truthy search term occurs in one of its values. */
    function ListRecords(auth: Auth, kind: Kind, order: seq<string>, search: Option<string>): (r: (Status, seq<Record>))
      requires kind != Announcements && KeysReply(order, kind.Prefix())
      reads this
      ensures Authenticate(auth).Failure? ==> r == (Authenticate(auth).error, [])
      ensures Authenticate(auth).Success? ==> r.0 == Ok
      ensures Authenticate(auth).Success? && !Truthy(search) ==>
                |r.1| == |order| && forall i :: 0 <= i < |order| ==> r.1[i] == Tagged(kind.Tag(), order[i], Fields(order[i]))
      ensures Authenticate(auth).Success? ==>
                forall x :: x in r.1 <==>
                  && (exists k :: k in hashes && StartsWith(k, kind.Prefix()) && x == Tagged(kind.Tag(), k, hashes[k]))
                  && (Truthy(search) ==> RecordHit(x, search.value))
      ensures Authenticate(auth).Success? && Truthy(search) ==>
                r.1 == Keep(TagAll(kind.Tag(), order, hashes), x => RecordHit(x, search.value))
    {
      match Authenticate(auth)
      case Failure(e) => (e, [])
      case Success(_) =>
        TagAllMembers(kind.Tag(), order, hashes);
        (Ok, SearchRecords(TagAll(kind.Tag(), order, hashes), search))
    }

    /** GET /announcements: each announcement as its whole key, title and description,
        kept when a truthy search term occurs in one of the three, undefined read as
        "undefined". */
    function ListAnnouncements(auth: Auth, order: seq<string>, search: Option<string>): (r: (Status, seq<AnnouncementEntry>))
      requires KeysReply(order, "announcement:")
      reads this
      ensures Authenticate(auth).Failure? ==> r == (Authenticate(auth).error, [])
      ensures Authenticate(auth).Success? ==> r.0 == Ok
      ensures Authenticate(auth).Success? && !Truthy(search) ==>
                |r.1| == |order| && forall i :: 0 <= i < |order| ==> r.1[i] == EntryOf(order[i], Fields(order[i]))
      ensures Authenticate(auth).Success? ==>
                forall e :: e in r.1 <==>
                  && (exists k :: k in hashes && StartsWith(k, "announcement:") && e == EntryOf(k, hashes[k]))
                  && (Truthy(search) ==> AnnouncementHit(e, search.value))
      ensures Authenticate(auth).Success? && Truthy(search) ==>
                r.1 == Keep(AnnouncementEntries(order, hashes), e => AnnouncementHit(e, search.value))
    {
      match Authenticate(auth)
      case Failure(e) => (e, [])
      case Success(_) =>
        EntriesMembers(order, hashes);
        (Ok, SearchAnnouncements(AnnouncementEntries(order, hashes), search))
    }

    // -------------------------------------------------------------------------
    // Certificates

    /** GET /admin/pendingCertificateRequests: every certificate whose status is not
        'Completed', in the order of the KEYS certificate:* reply, with the role of the
        user named in it. */
    method AdminPendingCertificates(auth: Auth, order: seq<string>)
      returns (st: Status, requests: seq<CertificateSummary>, ghost keys: seq<string>)
      requires KeysReply(order, CertificatePrefix)
      ensures Authorize(auth, AdminOnly).Failure? ==> st == Authorize(auth, AdminOnly).error && requests == [] && keys == []
      ensures Authorize(auth, AdminOnly).Success? ==>
                st == Ok && var hs := hashes; keys == Keep(order, k => OpenCertificate(hs, k))
      ensures |requests| == |keys| && Distinct(keys)
      ensures forall i :: 0 <= i < |keys| ==>
                var cert := Fields(keys[i]);
                requests[i] == SummaryOf(cert, Fields(UserKey(Render(FieldText(cert, "username")))))
      ensures Authorize(auth, AdminOnly).Success? ==>
                forall k :: k in keys <==> k in hashes && IsCertificateKey(k) && OpenCertificate(hashes, k)
    {
      requests, keys := [], [];
      match Authorize(auth, AdminOnly)
      case Failure(e) => return e, [], [];
      case Success(_) =>
      ghost var hs := hashes;
      ghost var open := k => OpenCertificate(hs, k);
      for n := 0 to |order|
        invariant keys == Keep(order[..n], open)
        invariant |requests| == |keys|
        invariant forall i :: 0 <= i < |keys| ==>
                    var cert := Fields(keys[i]);
                    requests[i] == SummaryOf(cert, Fields(UserKey(Render(FieldText(cert, "username")))))
      {
        var key := order[n];
        KeepSnoc(order[..n], key, open);
        assert order[..n + 1] == order[..n] + [key];
        var certificate := Fields(key);
        if FieldText(certificate, "status") != Some("Completed") {
          var user := Fields(UserKey(Render(FieldText(certificate, "username"))));
          requests := requests + [SummaryOf(certificate, user)];
          keys := keys + [key];
        }
      }
      assert order[..|order|] == order;
      KeepDistinct(order, open);
      KeepMembers(order, open);
      st := Ok;
    }

    /** PUT /admin/updateCertificateStatus/:id: one of the four statuses; 'Completed'
        also takes the certificate out of its owner's set. */
    method AdminUpdateCertificateStatus(auth: Auth, id: string, body: Body) returns (st: Status)
      requires Valid()
      modifies this`hashes, this`sets
      ensures Valid()
      ensures Authorize(auth, AdminOnly).Failure? ==> st == Authorize(auth, AdminOnly).error
      ensures Authorize(auth, AdminOnly).Success? ==>
                st == (if CertificateKey(id) !in old(hashes) then NotFound("Certificate not found")
                       else if "status" !in body || body["status"] !in AdminStatuses then BadRequest("Invalid status")
                       else Ok)
      ensures st == Ok ==>
                && hashes == old(hashes)[CertificateKey(id) := old(hashes)[CertificateKey(id)]["status" := Str(body["status"])]]
                && sets == (if body["status"] == "Completed"
                            then SRem(old(sets), CertificateSetKey(Render(FieldText(old(hashes)[CertificateKey(id)], "username"))), id)
                            else old(sets))
      ensures st != Ok ==> hashes == old(hashes) && sets == old(sets)
    {
      match Authorize(auth, AdminOnly)
      case Failure(e) => return e;
      case Success(_) =>
      var key := CertificateKey(id);
      var certificateData := Fields(key);
      if certificateData == map[] {
        return NotFound("Certificate not found");
      }
      if "status" !in body || body["status"] !in AdminStatuses {
        return BadRequest("Invalid status");
      }
      var status := body["status"];
      StatusChangeKeepsValid(hashes, sets, certificateIdCounter, id, status);
      HSet(key, map["status" := Str(status)]);
      if status == "Completed" {
        SRemMember(CertificateSetKey(Render(FieldText(certificateData, "username"))), id);
      }
      st := Ok;
    }

    /** POST /user/requestCertificate: a new certificate under the next identifier,
        owned by the signed-in user and listed in that user's set. */
    method RequestCertificate(auth: Auth, body: Body, year: nat) returns (st: Status)
      requires Valid()
      modifies this`hashes, this`sets, this`certificateIdCounter
      ensures Valid()
      ensures Authorize(auth, UserOnly).Failure? ==> st == Authorize(auth, UserOnly).error
      ensures Authorize(auth, UserOnly).Success? ==>
                st == (if auth.claims.username == "" then BadRequest("Username is not available")
                       else if !Present(body, "certificateType") then BadRequest("Certificate type is required")
                       else Ok)
      ensures st == Ok ==>
                var u, id := auth.claims.username, FormatId(year, certificateIdCounter, CertificateWidth);
                && certificateIdCounter == old(certificateIdCounter) + 1
                && CertificateKey(id) !in old(hashes)
                && hashes == old(hashes)[CertificateKey(id) := Strs(CertificateFields(body, u, id))]
                && sets == SAdd(old(sets), CertificateSetKey(u), id)
      ensures st != Ok ==> hashes == old(hashes) && sets == old(sets) && certificateIdCounter == old(certificateIdCounter)
    {
      match Authorize(auth, UserOnly)
      case Failure(e) => return e;
      case Success(claims) =>
      var username := claims.username;
      if username == "" {
        return BadRequest("Username is not available");
      }
      if !Present(body, "certificateType") {
        return BadRequest("Certificate type is required");
      }
      var certificateId := StoreRequest(username, year, body);
      st := Ok;
    }

    /** The writes of a certificate request: the next id, its hash and its set entry. */
    method StoreRequest(username: string, year: nat, body: Body) returns (id: string)
      requires Valid()
      modifies this`hashes, this`sets, this`certificateIdCounter
      ensures Valid()
      ensures certificateIdCounter == old(certificateIdCounter) + 1
      ensures id == FormatId(year, certificateIdCounter, CertificateWidth)
      ensures CertificateKey(id) !in old(hashes)
      ensures hashes == old(hashes)[CertificateKey(id) := Strs(CertificateFields(body, username, id))]
      ensures sets == SAdd(old(sets), CertificateSetKey(username), id)
    {
      id := FormatId(year, certificateIdCounter + 1, CertificateWidth);
      RequestKeepsValid(hashes, sets, certificateIdCounter, username, year, id, body);
      var n := IncrCertificateIds();
      WriteRequest(username, id, body);
    }

    /** The request's nine field writes and its SADD. */
    method WriteRequest(username: string, id: string, body: Body)
      modifies this`hashes, this`sets
      ensures hashes == Merge(old(hashes), CertificateKey(id), Strs(CertificateFields(body, username, id)))
      ensures sets == SAdd(old(sets), CertificateSetKey(username), id)
    {
      HSetEach(CertificateKey(id), CertificateFields(body, username, id));
      SAddMember(CertificateSetKey(username), id);
    }

    /** The ownership check of the user's certificate routes: the certificate exists and
        its id is in the user's set. In a valid store the second implies the first. */
    function OwnsCertificate(username: string, id: string): (r: bool)
      reads this
      ensures r ==> CertificateKey(id) in hashes && id in Members(CertificateSetKey(username))
      ensures Valid() ==> (r <==> id in Members(CertificateSetKey(username)))
      ensures Valid() && r ==> FieldText(hashes[CertificateKey(id)], "username") == Some(username)
    {
      Fields(CertificateKey(id)) != map[] && id in Members(CertificateSetKey(username))
    }

    /** GET /user/certificates: the stored fields of each certificate in the user's set;
        ghost ids gives the SMEMBERS order the loop used. */
    method UserCertificates(auth: Auth) returns (st: Status, certificates: seq<map<string, string>>, ghost ids: seq<string>)
      requires Valid()
      ensures Authorize(auth, UserOnly).Failure? ==> st == Authorize(auth, UserOnly).error && certificates == [] && ids == []
      ensures Authorize(auth, UserOnly).Success? ==>
                st == Ok && Distinct(ids) && forall id :: id in ids <==> id in Members(CertificateSetKey(auth.claims.username))
      ensures |certificates| == |ids|
      ensures forall i :: 0 <= i < |ids| ==> certificates[i] == Texts(Fields(CertificateKey(ids[i])))
      ensures Authorize(auth, UserOnly).Success? ==>
                forall i :: 0 <= i < |ids| ==>
                  "username" in certificates[i] && certificates[i]["username"] == auth.claims.username
    {
      certificates, ids := [], [];
      match Authorize(auth, UserOnly)
      case Failure(e) => return e, [], [];
      case Success(claims) =>
      var members := Members(CertificateSetKey(claims.username));
      var todo := members;
      while todo != {}
        invariant todo <= members
        invariant Distinct(ids) && |certificates| == |ids|
        invariant forall id :: id in ids <==> id in members - todo
        invariant forall i :: 0 <= i < |ids| ==> certificates[i] == Texts(Fields(CertificateKey(ids[i])))
        invariant forall i :: 0 <= i < |ids| ==> "username" in certificates[i] && certificates[i]["username"] == claims.username
        decreases |todo|
      {
        var certId :| certId in todo;
        assert OwnsCertificate(claims.username, certId);
        DistinctSnoc(ids, certId);
        certificates := certificates + [Texts(Fields(CertificateKey(certId)))];
        ids := ids + [certId];
        todo := todo - {certId};
      }
      st := Ok;
    }

    /** PUT /user/certificate/:id. */
    method UserUpdateCertificate(auth: Auth, id: string, body: Body) returns (st: Status)
      requires Valid()
      modifies this`hashes
      ensures Valid()
      ensures Authorize(auth, UserOnly).Failure? ==> st == Authorize(auth, UserOnly).error
      ensures Authorize(auth, UserOnly).Success? ==>
                st == (if !old(OwnsCertificate(auth.claims.username, id))
                       then NotFound("Certificate not found or unauthorized access")
                       else if FieldText(old(hashes)[CertificateKey(id)], "status") == Some(InProcess)
                       then BadRequest("Cannot update a certificate that is already in process")
                       else Ok)
      ensures st == Ok ==> hashes == Merge(old(hashes), CertificateKey(id), Strs(CertificateUpdate(body)))
      ensures st != Ok ==> hashes == old(hashes)
    {
      match Authorize(auth, UserOnly)
      case Failure(e) => return e;
      case Success(claims) =>
      var key := CertificateKey(id);
      var existing := Fields(key);
      if !OwnsCertificate(claims.username, id) {
        return NotFound("Certificate not found or unauthorized access");
      }
      if FieldText(existing, "status") == Some(InProcess) {
        return BadRequest("Cannot update a certificate that is already in process");
      }
      StoreCertificateUpdate(id, body);
      st := Ok;
    }

    /** The hSets of a user's certificate update: each of certificateType, details and
        status that the body carries, one after the other. */
    method StoreCertificateUpdate(id: string, body: Body)
      requires Valid() && CertificateKey(id) in hashes
      modifies this`hashes
      ensures Valid()
      ensures hashes == Merge(old(hashes), CertificateKey(id), Strs(CertificateUpdate(body)))
    {
      UpdateKeepsValid(hashes, sets, certificateIdCounter, id, body);
      HSetUpdate(CertificateKey(id), body);
    }

    /** The three conditional hSets themselves. */
    method HSetUpdate(key: string, body: Body)
      modifies this`hashes
      ensures hashes == Merge(old(hashes), key, Strs(CertificateUpdate(body)))
    {
      UpdateWrites(hashes, key, body);
      var kind := HSetWhen(key, Present(body, "certificateType"), "certificateType", Get(body, "certificateType"));
      var details := HSetWhen(key, "details" in body, "details", Get(body, "details"));
      var status := HSetWhen(key, Present(body, "status"), "status", Get(body, "status"));
    }

    /** DELETE /user/certificate/:id: DEL of the certificate, then SREM from the user's set. */
    method UserDeleteCertificate(auth: Auth, id: string) returns (st: Status)
      requires Valid()
      modifies this`hashes, this`sets
      ensures Valid()
      ensures Authorize(auth, UserOnly).Failure? ==> st == Authorize(auth, UserOnly).error
      ensures Authorize(auth, UserOnly).Success? ==>
                st == (if !old(OwnsCertificate(auth.claims.username, id))
                       then NotFound("Certificate not found or unauthorized access")
                       else if FieldText(old(hashes)[CertificateKey(id)], "status") == Some(InProcess)
                       then BadRequest("Cannot delete a certificate that is in process")
                       else Ok)
      ensures st == Ok ==>
                && hashes == old(hashes) - {CertificateKey(id)}
                && sets == SRem(old(sets) - {CertificateKey(id)}, CertificateSetKey(auth.claims.username), id)
      ensures st != Ok ==> hashes == old(hashes) && sets == old(sets)
    {
      match Authorize(auth, UserOnly)
      case Failure(e) => return e;
      case Success(claims) =>
      var key := CertificateKey(id);
      var existing := Fields(key);
      if !OwnsCertificate(claims.username, id) {
        return NotFound("Certificate not found or unauthorized access");
      }
      if FieldText(existing, "status") == Some(InProcess) {
        return BadRequest("Cannot delete a certificate that is in process");
      }
      DeleteOwned(claims.username, id);
      st := Ok;
    }

    /** PUT /user/certificate/:id with the status test the handler evidently means. */
    method UserUpdateCertificateChecked(auth: Auth, id: string, body: Body) returns (st: Status)
      requires Valid()
      modifies this`hashes
      ensures Valid()
      ensures Authorize(auth, UserOnly).Failure? ==> st == Authorize(auth, UserOnly).error
      ensures Authorize(auth, UserOnly).Success? ==>
                st == (if !old(OwnsCertificate(auth.claims.username, id))
                       then NotFound("Certificate not found or unauthorized access")
                       else if InProcessStatus(FieldText(old(hashes)[CertificateKey(id)], "status"))
                       then BadRequest("Cannot update a certificate that is already in process")
                       else Ok)
      ensures st == Ok ==> hashes == Merge(old(hashes), CertificateKey(id), Strs(CertificateUpdate(body)))
      ensures st != Ok ==> hashes == old(hashes)
    {
      match Authorize(auth, UserOnly)
      case Failure(e) => return e;
      case Success(claims) =>
      var key := CertificateKey(id);
      var existing := Fields(key);
      if !OwnsCertificate(claims.username, id) {
        return NotFound("Certificate not found or unauthorized access");
      }
      if InProcessStatus(FieldText(existing, "status")) {
        return BadRequest("Cannot update a certificate that is already in process");
      }
      StoreCertificateUpdate(id, body);
      st := Ok;
    }

    /** DELETE /user/certificate/:id with the status test the handler evidently means. */
    method UserDeleteCertificateChecked(auth: Auth, id: string) returns (st: Status)
      requires Valid()
      modifies this`hashes, this`sets
      ensures Valid()
      ensures Authorize(auth, UserOnly).Failure? ==> st == Authorize(auth, UserOnly).error
      ensures Authorize(auth, UserOnly).Success? ==>
                st == (if !old(OwnsCertificate(auth.claims.username, id))
                       then NotFound("Certificate not found or unauthorized access")
                       else if InProcessStatus(FieldText(old(hashes)[CertificateKey(id)], "status"))
                       then BadRequest("Cannot delete a certificate that is in process")
                       else Ok)
      ensures st == Ok ==>
                && hashes == old(hashes) - {CertificateKey(id)}
                && sets == SRem(old(sets) - {CertificateKey(id)}, CertificateSetKey(auth.claims.username), id)
      ensures st != Ok ==> hashes == old(hashes) && sets == old(sets)
    {
      match Authorize(auth, UserOnly)
      case Failure(e) => return e;
      case Success(claims) =>
      var key := CertificateKey(id);
      var existing := Fields(key);
      if !OwnsCertificate(claims.username, id) {
        return NotFound("Certificate not found or unauthorized access");
      }
      if InProcessStatus(FieldText(existing, "status")) {
        return BadRequest("Cannot delete a certificate that is in process");
      }
      DeleteOwned(claims.username, id);
      st := Ok;
    }

    /** PUT /user/certificate/cancel/:id: only a 'Pending' certificate; SREM, then DEL. */
    method UserCancelCertificate(auth: Auth, id: string) returns (st: Status)
      requires Valid()
      modifies this`hashes, this`sets
      ensures Valid()
      ensures Authorize(auth, UserOnly).Failure? ==> st == Authorize(auth, UserOnly).error
      ensures Authorize(auth, UserOnly).Success? ==>
                st == (if !old(OwnsCertificate(auth.claims.username, id))
                       then NotFound("Certificate not found or unauthorized access")
                       else if FieldText(old(hashes)[CertificateKey(id)], "status") != Some("Pending")
                       then BadRequest("Cannot cancel a certificate that is not pending")
                       else Ok)
      ensures st == Ok ==>
                && hashes == old(hashes) - {CertificateKey(id)}
                && sets == SRem(old(sets), CertificateSetKey(auth.claims.username), id) - {CertificateKey(id)}
      ensures st != Ok ==> hashes == old(hashes) && sets == old(sets)
    {
      match Authorize(auth, UserOnly)
      case Failure(e) => return e;
      case Success(claims) =>
      var key := CertificateKey(id);
      var existing := Fields(key);
      if !OwnsCertificate(claims.username, id) {
        return NotFound("Certificate not found or unauthorized access");
      }
      if FieldText(existing, "status") != Some("Pending") {
        return BadRequest("Cannot cancel a certificate that is not pending");
      }
      CancelOwned(claims.username, id);
      st := Ok;
    }

    /** DEL of an owned certificate, then SREM from its owner's set. */
    method DeleteOwned(username: string, id: string)
      requires Valid() && CertificateSetKey(username) in sets && id in sets[CertificateSetKey(username)]
      modifies this`hashes, this`sets
      ensures Valid()
      ensures hashes == old(hashes) - {CertificateKey(id)}
      ensures sets == SRem(old(sets) - {CertificateKey(id)}, CertificateSetKey(username), id)
    {
      RemoveCertificate(hashes, sets, certificateIdCounter, username, id);
      Del(CertificateKey(id));
      SRemMember(CertificateSetKey(username), id);
    }

    /** SREM of an owned certificate from its owner's set, then DEL. */
    method CancelOwned(username: string, id: string)
      requires Valid() && CertificateSetKey(username) in sets && id in sets[CertificateSetKey(username)]
      modifies this`hashes, this`sets
      ensures Valid()
      ensures hashes == old(hashes) - {CertificateKey(id)}
      ensures sets == SRem(old(sets), CertificateSetKey(username), id) - {CertificateKey(id)}
    {
      RemoveCertificate(hashes, sets, certificateIdCounter, username, id);
      SRemMember(CertificateSetKey(username), id);
      Del(CertificateKey(id));
    }

    // -------------------------------------------------------------------------
    // Account and resident assignment

    /** GET /account: the signed-in user's stored username field and assigned resident. */
    function Account(auth: Auth): (r: (Status, Option<AccountReply>))
      reads this
      ensures Authenticate(auth).Failure? ==> r == (Authenticate(auth).error, None)
      ensures Authenticate(auth).Success? ==>
                r.0 == (if auth.claims.username == "" then BadRequest("Username not found in request")
                        else if UserKey(auth.claims.username) !in hashes || hashes[UserKey(auth.claims.username)] == map[]
                        then NotFound("User not found")
                        else Ok)
      ensures r.1.Some? <==> r.0 == Ok
      ensures r.1.Some? ==>
                var user := hashes[UserKey(auth.claims.username)];
                r.1.value == AccountReply(FieldText(user, "username"), AssignedResident(user))
    {
      match Authenticate(auth)
      case Failure(e) => (e, None)
      case Success(claims) =>
        if claims.username == "" then (BadRequest("Username not found in request"), None)
        else
          var user := Fields(UserKey(claims.username));
          if user == map[] then (NotFound("User not found"), None)
          else (Ok, Some(AccountReply(FieldText(user, "username"), AssignedResident(user))))
    }

    /** PUT /assignResidentToUser as written: its `!resident` test is never true, since
        hGetAll answers an object even for a missing resident, so the copy is always
        stored, possibly empty. */
    method AssignResidentToUser(username: string, residentId: string) returns (st: Status)
      requires Valid()
      modifies this`hashes
      ensures Valid()
      ensures st == Ok
      ensures hashes == Merge(old(hashes), UserKey(username),
                              map["assignedResident" := Json(Texts(old(Fields(ResidentKey(residentId)))))])
    {
      var resident := Fields(ResidentKey(residentId));
      SnapshotKeepsValid(hashes, sets, certificateIdCounter, username, Texts(resident));
      HSet(UserKey(username), map["assignedResident" := Json(Texts(resident))]);
      st := Ok;
    }

    /** PUT /assignResidentToUser with the test the handler evidently means, the one PUT
        /assignUser/:username makes: a missing resident is a 404 and nothing is written. */
    method AssignResidentToUserChecked(username: string, residentId: string) returns (st: Status)
      requires Valid()
      modifies this`hashes
      ensures Valid()
      ensures st == (if old(Fields(ResidentKey(residentId))) == map[] then NotFound("Resident not found") else Ok)
      ensures st == Ok ==>
                && hashes == Merge(old(hashes), UserKey(username),
                                   map["assignedResident" := Json(Texts(old(Fields(ResidentKey(residentId)))))])
                && Texts(old(Fields(ResidentKey(residentId)))) != map[]
      ensures st != Ok ==> hashes == old(hashes)
    {
      var resident := Fields(ResidentKey(residentId));
      if resident == map[] {
        return NotFound("Resident not found");
      }
      KindsAreDisjoint(residentId, residentId);
      ResidentsHoldText(ResidentKey(residentId));
      SnapshotKeepsValid(hashes, sets, certificateIdCounter, username, Texts(resident));
      HSet(UserKey(username), map["assignedResident" := Json(Texts(resident))]);
      st := Ok;
    }

    /** In a valid store a hash under a key other than a user's holds only strings, so
        its copy loses nothing. */
    lemma ResidentsHoldText(key: string)
      requires Valid() && key in hashes && !StartsWith(key, "user:")
      ensures Strs(Texts(hashes[key])) == hashes[key]
      ensures Texts(hashes[key]) != map[]
    {
      var h := hashes[key];
      assert h != map[];
      var f :| f in h;
      assert Fits(key, h);
      assert f in Texts(h);
    }

    // -------------------------------------------------------------------------
    // CSV upload

    /** POST /uploadCSV: rows with a Surname each take the next resident identifier as
        they are read; the queued writes then run together. */
    method UploadCsv(file: Option<seq<Csv.Row>>, year: nat, today: Date, parse: string -> Option<Date>)
      returns (st: Status)
      requires Valid()
      modifies this`hashes, this`residentIdCounter
      ensures Valid()
      ensures st == (if file.None? then BadRequest("No CSV file uploaded") else Ok)
      ensures st == Ok ==>
                var w := Csv.Writes(file.value, year, today, parse, old(residentIdCounter));
                residentIdCounter == old(residentIdCounter) + |w| && hashes == Csv.ApplyWrites(old(hashes), w)
      ensures st != Ok ==> hashes == old(hashes) && residentIdCounter == old(residentIdCounter)
    {
      if file.None? {
        return BadRequest("No CSV file uploaded");
      }
      var queue := QueueResidents(file.value, year, today, parse);
      Csv.WritesAreResidents(file.value, year, today, parse, old(residentIdCounter));
      ExecWrites(queue);
      st := Ok;
    }

    /** The row loop: INCR per accepted row, queueing its resident. */
    method QueueResidents(rows: seq<Csv.Row>, year: nat, today: Date, parse: string -> Option<Date>)
      returns (queue: seq<Csv.Write>)
      modifies this`residentIdCounter
      ensures queue == Csv.Writes(rows, year, today, parse, old(residentIdCounter))
      ensures residentIdCounter == old(residentIdCounter) + |queue|
    {
      queue := [];
      for i := 0 to |rows|
        invariant queue == Csv.Writes(rows[..i], year, today, parse, old(residentIdCounter))
        invariant residentIdCounter == old(residentIdCounter) + |queue|
      {
        var resident := rows[i];
        Csv.WritesStep(rows, i, year, today, parse, old(residentIdCounter));
        if !Csv.Accepted(resident) {
          continue;
        }
        var n := IncrResidentIds();
        queue := queue + [Csv.Queued(resident, year, today, parse, n)];
      }
      assert rows[..|rows|] == rows;
    }

    /** EXEC of the queued resident writes, in order. */
    method ExecWrites(queue: seq<Csv.Write>)
      requires Valid() && forall i :: 0 <= i < |queue| ==> StartsWith(queue[i].key, "resident:")
      modifies this`hashes
      ensures Valid() && hashes == Csv.ApplyWrites(old(hashes), queue)
    {
      for j := 0 to |queue|
        invariant Valid()
        invariant hashes == Csv.ApplyWrites(old(hashes), queue[..j])
      {
        ResidentKeyKind(queue[j].key);
        assert queue[..j + 1][..j] == queue[..j];
        WriteRecord(queue[j].key, queue[j].fields);
      }
      assert queue[..|queue|] == queue;
    }
  }
}
