/**
  Client runs against an empty database: short sequences of route calls whose
  answers follow from the route contracts alone, and the two places where the
  Certificates page and the certificate routes meet.
*/
module Scenarios {
  import opened Wrappers
  import opened Text
  import opened Ids
  import opened Validation
  import opened Redis
  import opened Http
  import opened Server
  import CertificateForm

  const Admin := Bearer(Claims(AdminUsername, Some("admin")))

  /** A password check that accepts exactly the pair (password, stored hash). */
  function Checks(password: string, hashed: string): (string, string) -> bool {
    (p: string, h: string) => p == password && h == hashed
  }

  const Ana := "ana"

  /** The account a self-registration of ana with hash h1 stores. */
  const Pending := NewAccount("h1", "user", "pending")

  /** The same account once approved. */
  const Approved := NewAccount("h1", "user", "approved")

  /** A sign-in attempt of ana against a store holding only ana's account. */
  method SignIn(store: Store, account: Hash, password: string) returns (st: Status, reply: Option<LoginReply>)
    requires store.Valid() && store.hashes == map[UserKey(Ana) := account]
    requires account == Pending || account == Approved
    requires password != ""
    modifies store
    ensures store.Valid()
    ensures st != Ok ==> store.hashes == old(store.hashes)
    ensures account == Pending ==> st == Forbidden(PendingApproval) && reply == None
    ensures account == Approved && password != "secret" ==> st == Unauthorized("Invalid credentials") && reply == None
    ensures account == Approved && password == "secret" ==>
              st == Ok && reply == Some(LoginReply(Claims(Ana, Some("user")), Some("user"), None))
  {
    assert FieldText(account, "status") == Some(if account == Pending then "pending" else "approved");
    assert FieldText(account, "password") == Some("h1") && FieldText(account, "role") == Some("user");
    st, reply := store.Login(Ana, password, Checks("secret", "h1"));
  }

  lemma AnaIsNotBlank()
    ensures Trim(Ana) != ""
  {
    TrimEmptyIffBlank(Ana);
    assert !IsJsSpace(Ana[0]);
  }

  /** A user registers on an empty store. */
  method RegisterOn(store: Store, username: string) returns (st: Status)
    requires store.Valid() && store.hashes == map[]
    requires username != "" && Trim(username) != ""
    modifies store
    ensures store.Valid() && st == Created && store.hashes == map[UserKey(username) := Pending]
  {
    st := store.Register(username, "secret", false, None, "h1");
    assert Registration("h1", false, None) == Pending;
  }

  /** The administrator approves ana's pending account. */
  method ApproveAna(store: Store) returns (st: Status)
    requires store.Valid() && store.hashes == map[UserKey(Ana) := Pending]
    modifies store
    ensures store.Valid() && st == Ok && store.hashes == map[UserKey(Ana) := Approved]
  {
    st := store.ApproveUser(Admin, Ana);
    assert Pending["status" := Str("approved")] == Approved;
  }

  /** A self-registered user cannot sign in until an administrator approves the
      account; afterwards the right password signs in and a wrong one does not. */
  method SignInAfterApproval() returns (before: Status, wrong: Status, after: Status, reply: Option<LoginReply>)
    ensures before == Forbidden(PendingApproval)
    ensures wrong == Unauthorized("Invalid credentials")
    ensures after == Ok && reply == Some(LoginReply(Claims(Ana, Some("user")), Some("user"), None))
  {
    var store := new Store();
    AnaIsNotBlank();
    var registered := RegisterOn(store, Ana);
    var ignored;
    before, ignored := SignIn(store, Pending, "secret");
    var approved := ApproveAna(store);
    wrong, ignored := SignIn(store, Approved, "guess");
    after, reply := SignIn(store, Approved, "secret");
  }

  /** The administrator account is created once: a second start leaves it alone,
      whatever hash the second start computes. */
  method AdminCreatedOnce() returns (stored: Hash)
    ensures stored == NewAccount("h1", "admin", "approved")
  {
    var store := new Store();
    store.InitializeAdmin("h1");
    store.InitializeAdmin("h2");
    stored := store.Fields(UserKey(AdminUsername));
  }

  /** An official body every check accepts. */
  const Official: Body := map["name" := "Rosa", "age" := "41", "position" := "Barangay Captain",
                              "description" := "Serves the barangay", "contactNo" := "0912345678"]

  lemma OfficialFieldsPresent()
    ensures AllPresent(OfficialFields, Official)
  {
    assert forall i :: 0 <= i < |OfficialFields| ==> OfficialFields[i] in Official && Official[OfficialFields[i]] != "";
  }

  lemma OfficialAgeParses()
    ensures ParsesAsInt(Get(Official, "age"))
  {
    assert Get(Official, "age") == "41";
    DigitsParseAsInt("41");
  }

  lemma OfficialContactIsTenDigits()
    ensures IsTenDigits(Get(Official, "contactNo"))
  {
    var c := "0912345678";
    assert Get(Official, "contactNo") == c;
    assert forall i :: 0 <= i < |c| ==> IsDigit(c[i]);
  }

  /** Every check of validateOfficialData passes on the body. */
  lemma OfficialIsAccepted()
    ensures ValidateOfficial(Official).Success?
  {
    OfficialFieldsPresent();
    OfficialAgeParses();
    OfficialContactIsTenDigits();
    assert Get(Official, "position") == Positions[0];
    OfficialAccepted(Official);
  }

  /** An administrator creates an official from an accepted body, without a photo. */
  method CreateOfficialOn(store: Store, body: Body, year: nat) returns (id: Option<string>)
    requires store.Valid() && ValidateOfficial(body).Success?
    modifies store
    ensures store.Valid() && store.officialIdCounter == old(store.officialIdCounter) + 1
    ensures id == Some(FormatId(year, store.officialIdCounter, OfficialWidth))
  {
    var st;
    st, id := store.CreateOfficial(Admin, body, None, year);
  }

  /** Two officials created one after the other take the next two counter values and
      differ; on a fresh store of 2025 these are 2025-001 and 2025-002
      (Ids.FirstIdentifiers). */
  method OfficialsNumbered(store: Store, body: Body, year: nat) returns (first: Option<string>, second: Option<string>)
    requires store.Valid() && ValidateOfficial(body).Success?
    modifies store
    ensures first == Some(FormatId(year, old(store.officialIdCounter) + 1, OfficialWidth))
    ensures second == Some(FormatId(year, old(store.officialIdCounter) + 2, OfficialWidth))
    ensures first != second
  {
    first := CreateOfficialOn(store, body, year);
    second := CreateOfficialOn(store, body, year);
    FormatIdInjective(year, old(store.officialIdCounter) + 1, year, old(store.officialIdCounter) + 2, OfficialWidth);
  }

  /** A signed-in user requests a certificate whose body names no status. */
  method RequestOn(store: Store, username: string, body: Body, year: nat) returns (id: string)
    requires store.Valid() && username != ""
    requires Present(body, "certificateType") && !Present(body, "status")
    modifies store
    ensures store.Valid()
    ensures id == FormatId(year, store.certificateIdCounter, CertificateWidth)
    ensures id in store.Members(CertificateSetKey(username))
    ensures FieldText(store.Fields(CertificateKey(id)), "status") == Some("Pending")
  {
    var st := store.RequestCertificate(Bearer(Claims(username, Some("user"))), body, year);
    id := FormatId(year, store.certificateIdCounter, CertificateWidth);
    assert store.Fields(CertificateKey(id)) == Strs(CertificateFields(body, username, id));
    CertificateFieldsRead(body, username, id);
  }

  /** The administrator marks a listed certificate 'Completed'. */
  method CompleteOn(store: Store, username: string, id: string) returns (st: Status)
    requires store.Valid() && id in store.Members(CertificateSetKey(username))
    modifies store
    ensures store.Valid() && st == Ok
    ensures id !in store.Members(CertificateSetKey(username))
  {
    assert store.OwnsCertificate(username, id) && CertificateKey(id) in store.hashes;
    assert Authorize(Admin, AdminOnly).Success? && "Completed" in AdminStatuses;
    st := store.AdminUpdateCertificateStatus(Admin, id, map["status" := "Completed"]);
  }

  /** The owner cancels one of their certificates. */
  method CancelOn(store: Store, username: string, id: string) returns (st: Status)
    requires store.Valid() && username != ""
    modifies store
    ensures store.Valid()
    ensures id in old(store.Members(CertificateSetKey(username)))
            && FieldText(old(store.Fields(CertificateKey(id))), "status") == Some("Pending") ==>
              st == Ok && id !in store.Members(CertificateSetKey(username))
    ensures id !in old(store.Members(CertificateSetKey(username))) ==>
              st == NotFound("Certificate not found or unauthorized access")
  {
    st := store.UserCancelCertificate(Bearer(Claims(username, Some("user"))), id);
  }

  /** A request the administrator completes leaves the user's list; a pending request
      the user cancels is gone altogether, and a second cancel finds nothing. */
  method CertificateLifecycles(username: string, body: Body, year: nat)
    returns (completed: Status, cancelled: Status, again: Status)
    requires username != "" && Present(body, "certificateType") && !Present(body, "status")
    ensures completed == Ok && cancelled == Ok
    ensures again == NotFound("Certificate not found or unauthorized access")
  {
    var store := new Store();
    var first := RequestOn(store, username, body, year);
    completed := CompleteOn(store, username, first);
    var second := RequestOn(store, username, body, year);
    cancelled := CancelOn(store, username, second);
    again := CancelOn(store, username, second);
  }

  /** The administrator moves a listed certificate to 'Processing'. */
  method ProcessOn(store: Store, username: string, id: string) returns (st: Status)
    requires store.Valid() && id in store.Members(CertificateSetKey(username))
    modifies store
    ensures store.Valid() && st == Ok
    ensures id in store.Members(CertificateSetKey(username))
    ensures FieldText(store.Fields(CertificateKey(id)), "status") == Some("Processing")
  {
    assert store.OwnsCertificate(username, id) && CertificateKey(id) in store.hashes;
    assert Authorize(Admin, AdminOnly).Success? && "Processing" in AdminStatuses;
    st := store.AdminUpdateCertificateStatus(Admin, id, map["status" := "Processing"]);
  }

  /** A fresh store holding one certificate of the user, which the administrator is
      processing; id is that certificate. */
  method ProcessingStore(username: string, body: Body, year: nat) returns (store: Store, id: string)
    requires username != "" && Present(body, "certificateType") && !Present(body, "status")
    ensures fresh(store) && store.Valid()
    ensures id in store.Members(CertificateSetKey(username))
    ensures FieldText(store.Fields(CertificateKey(id)), "status") == Some("Processing")
  {
    store := new Store();
    id := RequestOn(store, username, body, year);
    var st := ProcessOn(store, username, id);
  }

  /** DELETE /user/certificate/:id as written lets the owner delete a certificate the
      administrator is processing: its test looks for 'IN PROCESS', a status no
      administrator can set. */
  method ProcessingCertificateDeleted(username: string, body: Body, year: nat) returns (st: Status)
    requires username != "" && Present(body, "certificateType") && !Present(body, "status")
    ensures st == Ok
  {
    var store, id := ProcessingStore(username, body, year);
    st := store.UserDeleteCertificate(Bearer(Claims(username, Some("user"))), id);
  }

  /** The corrected route refuses the same deletion. */
  method ProcessingCertificateKept(username: string, body: Body, year: nat) returns (st: Status)
    requires username != "" && Present(body, "certificateType") && !Present(body, "status")
    ensures st == BadRequest("Cannot delete a certificate that is in process")
  {
    var store, id := ProcessingStore(username, body, year);
    st := store.UserDeleteCertificateChecked(Bearer(Claims(username, Some("user"))), id);
  }

  /** No status an administrator may set is the one the update and delete routes test. */
  lemma InProcessIsNoAdminStatus()
    ensures InProcess !in AdminStatuses
    ensures "Processing" in AdminStatuses && InProcessStatus(Some("Processing"))
  {
    assert AdminStatuses[1] == "Processing";
  }

  /** PUT /assignResidentToUser as written, for a resident that does not exist: it
      answers 200 and stores an empty copy in the user's hash. */
  method AssignMissingResident() returns (st: Status, stored: Option<map<string, string>>)
    ensures st == Ok && stored == Some(map[])
  {
    var store := new Store();
    st := store.AssignResidentToUser("ana", "2025-00001");
    stored := AssignedResident(store.Fields(UserKey("ana")));
  }

  /** The corrected route answers 404 for the same call and writes nothing. */
  method AssignMissingResidentChecked() returns (st: Status, stored: Option<map<string, string>>)
    ensures st == NotFound("Resident not found") && stored == None
  {
    var store := new Store();
    st := store.AssignResidentToUserChecked("ana", "2025-00001");
    stored := AssignedResident(store.Fields(UserKey("ana")));
  }

  // ---------------------------------------------------------------------------
  // The Certificates page and the certificate routes

  /** The page offers Cancel on a listed certificate exactly when the cancel route
      would pass its status test. */
  lemma CancelOfferedMatchesRoute(h: Hash)
    ensures CertificateForm.CancelOffered(Texts(h)) <==> FieldText(h, "status") == Some("Pending")
  {
  }

  /** What the route stores for a submitted form: the form's type and details as they
      are, status 'Pending', the owner and the identifier. */
  lemma SubmittedFormStored(f: CertificateForm.FormData, username: string, id: string)
    requires CertificateForm.Submit(f).Success?
    ensures var stored := CertificateFields(CertificateForm.Submit(f).value, username, id);
            && stored["certificateType"] == f.certificateType
            && stored["status"] == "Pending"
            && stored["username"] == username && stored["certificateId"] == id
            && forall i :: 0 <= i < |CertificateForm.DetailNames| ==>
                 stored[CertificateForm.DetailNames[i]] == CertificateForm.Detail(f, CertificateForm.DetailNames[i])
  {
    CertificateForm.SubmitAccepts(f);
  }
}
