/**
  The certificate request form of the user's Certificates page
  (redis-frontend/src/pages/User/Certificates.js): the checks run when the form is
  submitted, the request object it sends, the reset when another certificate type is
  chosen, and the rule that offers Cancel on a listed request.

  The per-type detail rules live only here: POST /user/requestCertificate checks
  nothing but the certificate type.
*/
module CertificateForm {
  import opened Wrappers
  import opened Validation

  /** The form state: every input holds a string, '' when untouched. */
  datatype FormData = FormData(certificateType: string, childName: string, relationship: string,
                               deadName: string, deadAge: string, fatherOrMother: string)

  /** The initial state, and the state after a successful submission. */
  const Blank := FormData("", "", "", "", "", "")

  const Guardianship := "barangayGuardianship"
  const SoloParent := "barangaySoloParent"
  const Death := "barangayDeath"

  /** Why a submission is refused; Message() is the toast shown. */
  datatype Refusal = NoType | GuardianshipDetails | SoloParentDetails | DeathDetails {
    function Message(): string {
      match this
      case NoType => "Please select a certificate type"
      case GuardianshipDetails => "Please fill in child name and relationship"
      case SoloParentDetails => "Please fill in child name and father or mother"
      case DeathDetails => "Please fill in deceased name and age"
    }
  }

  /** A detail input by its field name. */
  function Detail(f: FormData, name: string): string {
    match name
    case "childName" => f.childName
    case "relationship" => f.relationship
    case "fatherOrMother" => f.fatherOrMother
    case "deadName" => f.deadName
    case "deadAge" => f.deadAge
    case _ => ""
  }

  const DetailNames: seq<string> := ["childName", "relationship", "deadName", "deadAge", "fatherOrMother"]

  /** The details a certificate type asks for, as the form lays its inputs out. */
  function RequiredDetails(certificateType: string): seq<string> {
    if certificateType == Guardianship then ["childName", "relationship"]
    else if certificateType == SoloParent then ["childName", "fatherOrMother"]
    else if certificateType == Death then ["deadName", "deadAge"]
    else []
  }

  /** Every detail the type asks for is filled in. */
  predicate DetailsComplete(f: FormData) {
    forall i :: 0 <= i < |RequiredDetails(f.certificateType)| ==> Detail(f, RequiredDetails(f.certificateType)[i]) != ""
  }

  /** The `certificateRequest` object: `x || ''` of a string input is the input itself. */
  function Request(f: FormData): (r: Body)
    ensures r.Keys == {"certificateType", "status", "childName", "relationship", "deadName", "deadAge", "fatherOrMother"}
    ensures r["status"] == "Pending" && r["certificateType"] == f.certificateType
    ensures forall i :: 0 <= i < |DetailNames| ==> r[DetailNames[i]] == Detail(f, DetailNames[i])
  {
    map[
      "certificateType" := f.certificateType,
      "status" := "Pending",
      "childName" := f.childName,
      "relationship" := f.relationship,
      "deadName" := f.deadName,
      "deadAge" := f.deadAge,
      "fatherOrMother" := f.fatherOrMother
    ]
  }

  /** handleSubmit: the type check, then the request, then the check of the chosen type.
      Success carries the body that is posted. */
  function Submit(f: FormData): Result<Body, Refusal> {
    if f.certificateType == "" then Failure(NoType)
    else
      var request := Request(f);
      if f.certificateType == Guardianship && (f.childName == "" || f.relationship == "") then Failure(GuardianshipDetails)
      else if f.certificateType == SoloParent && (f.childName == "" || f.fatherOrMother == "") then Failure(SoloParentDetails)
      else if f.certificateType == Death && (f.deadName == "" || f.deadAge == "") then Failure(DeathDetails)
      else Success(request)
  }

  /** handleCertificateChange: the new type, and every detail cleared. */
  function ChangeType(f: FormData, certificateType: string): (r: FormData)
    ensures r.certificateType == certificateType
    ensures forall i :: 0 <= i < |DetailNames| ==> Detail(r, DetailNames[i]) == ""
  {
    FormData(certificateType, "", "", "", "", "")
  }

  /** The Cancel button of a listed request: its status is exactly 'Pending'. */
  predicate CancelOffered(row: map<string, string>) {
    "status" in row && row["status"] == "Pending"
  }

  // ---------------------------------------------------------------------------

  /** Nothing is sent without a certificate type, whatever the details hold. */
  lemma EmptyTypeRefused(f: FormData)
    requires f.certificateType == ""
    ensures Submit(f) == Failure(NoType)
    ensures Submit(f).error.Message() == "Please select a certificate type"
  {
  }

  /** A submission goes out exactly when a type is chosen and the details that type
      asks for are all filled in; what goes out is the request object. */
  lemma SubmitAccepts(f: FormData)
    ensures Submit(f).Success? <==> f.certificateType != "" && DetailsComplete(f)
    ensures Submit(f).Success? ==> Submit(f).value == Request(f)
  {
    var need := RequiredDetails(f.certificateType);
    if f.certificateType != "" && DetailsComplete(f) && |need| == 2 {
      assert Detail(f, need[0]) != "" && Detail(f, need[1]) != "";
    }
  }

  /** Each refusal names the type whose details are missing. */
  lemma RefusalsByType(f: FormData)
    requires f.certificateType != ""
    ensures f.certificateType == Guardianship ==>
              (Submit(f) == Failure(GuardianshipDetails) <==> f.childName == "" || f.relationship == "")
    ensures f.certificateType == SoloParent ==>
              (Submit(f) == Failure(SoloParentDetails) <==> f.childName == "" || f.fatherOrMother == "")
    ensures f.certificateType == Death ==>
              (Submit(f) == Failure(DeathDetails) <==> f.deadName == "" || f.deadAge == "")
    ensures f.certificateType !in {Guardianship, SoloParent, Death} ==> Submit(f) == Success(Request(f))
  {
  }

  /** Choosing a type forgets every earlier detail: the state depends on the type alone. */
  lemma ChangeTypeForgets(f: FormData, g: FormData, t: string)
    ensures ChangeType(f, t) == ChangeType(g, t)
    ensures ChangeType(ChangeType(f, t), t) == ChangeType(f, t)
    ensures ChangeType(f, "") == Blank
  {
    assert Detail(ChangeType(f, t), "childName") == "" && Detail(ChangeType(g, t), "childName") == "";
  }

  /** Right after choosing one of the three types with details, the form refuses to
      submit; any other non-empty type submits at once with every detail ''. */
  lemma FreshTypeSubmission(f: FormData, t: string)
    requires t != ""
    ensures t == Guardianship ==> Submit(ChangeType(f, t)) == Failure(GuardianshipDetails)
    ensures t == SoloParent ==> Submit(ChangeType(f, t)) == Failure(SoloParentDetails)
    ensures t == Death ==> Submit(ChangeType(f, t)) == Failure(DeathDetails)
    ensures t !in {Guardianship, SoloParent, Death} ==>
              && Submit(ChangeType(f, t)).Success?
              && forall i :: 0 <= i < |DetailNames| ==> Submit(ChangeType(f, t)).value[DetailNames[i]] == ""
  {
    RefusalsByType(ChangeType(f, t));
  }

  /** The posted body names no status other than 'Pending' and fills all five details,
      so POST /user/requestCertificate stores the form's values as they are. */
  lemma RequestIsComplete(f: FormData)
    ensures forall i :: 0 <= i < |DetailNames| ==> (Present(Request(f), DetailNames[i]) <==> Detail(f, DetailNames[i]) != "")
    ensures Present(Request(f), "status") && Get(Request(f), "status") == "Pending"
    ensures !("details" in Request(f))
  {
  }
}
