/**
  The gatekeepers run before a resident or an official is stored
  (validateResidentData and validateOfficialData in redis-backend/server.js).
  A request body is a map from field name to string; a field that is absent and a
  field that holds '' are both falsy, so both count as missing.
*/
module Validation {
  import opened Wrappers
  import opened Text

  type Body = map<string, string>

  /** `data[field]`, with undefined read as the empty string. */
  function Get(data: Body, field: string): string {
    if field in data then data[field] else ""
  }

  /** `!data[field]` is false. */
  predicate Present(data: Body, field: string) {
    Get(data, field) != ""
  }

  predicate AllPresent(fields: seq<string>, data: Body) {
    forall i :: 0 <= i < |fields| ==> Present(data, fields[i])
  }

  /** `/^\d{10}$/.test(s)`: exactly ten ASCII digits. */
  predicate IsTenDigits(s: string) {
    |s| == 10 && AllDigits(s)
  }

  const ResidentFields: seq<string> :=
    ["surname", "firstName", "middleName", "gender", "birthdate", "birthplace", "purok",
     "maritalStatus", "bloodType", "occupation", "lengthOfStay", "monthlyIncome"]

  const IncomeRanges: seq<string> :=
    ["Less Than 5000", "5000 To 10000", "10000 To 20000", "20000 To 50000",
     "50000 To 100000", "More Than 100000"]

  const BloodTypes: seq<string> := ["A+", "A-", "B+", "B-", "AB+", "AB-", "O+", "O-"]

  const OfficialFields: seq<string> := ["name", "age", "position", "description", "contactNo"]

  const Positions: seq<string> :=
    ["Barangay Captain", "Barangay Councilor", "Barangay Secretary", "Barangay Treasurer",
     "Barangay Police Officer", "Sangguniang Kabataan Chairperson",
     "Sangguniang Kabataan Council", "Sangguniang Kabataan Secretary",
     "Sangguniang Kabataan Treasurer", "Peacekeeping Committee"]

  /** Why a body was refused; Message() is the text of the thrown Error. */
  datatype Rejection =
    | MissingField(field: string)
    | LengthOfStayNotANumber
    | InvalidIncomeRange
    | InvalidBloodType
    | AgeNotANumber
    | InvalidContactNo
    | InvalidPosition
  {
    function Message(): string {
      match this
      case MissingField(f) => "The " + f + " field is required."
      case LengthOfStayNotANumber => "Length of Stay must be a number."
      case InvalidIncomeRange => "Invalid monthly income range."
      case InvalidBloodType => "Invalid blood type."
      case AgeNotANumber => "Age must be a number."
      case InvalidContactNo => "Contact Number must be a 10-digit number."
      case InvalidPosition => "Invalid position."
    }
  }

  /** The position of the first missing field of the list, |fields| when none is missing:
      the field the `for … of requiredFields` loop throws on. */
  function FirstMissing(fields: seq<string>, data: Body): (k: nat)
    ensures k <= |fields|
    ensures forall j :: 0 <= j < k ==> Present(data, fields[j])
    ensures k < |fields| ==> !Present(data, fields[k])
  {
    if fields == [] || !Present(data, fields[0]) then 0
    else 1 + FirstMissing(fields[1..], data)
  }

  function ValidateResident(data: Body): Result<Body, Rejection> {
    var k := FirstMissing(ResidentFields, data);
    if k < |ResidentFields| then Failure(MissingField(ResidentFields[k]))
    else if !ParsesAsInt(Get(data, "lengthOfStay")) then Failure(LengthOfStayNotANumber)
    else if Get(data, "monthlyIncome") !in IncomeRanges then Failure(InvalidIncomeRange)
    else if Get(data, "bloodType") !in BloodTypes then Failure(InvalidBloodType)
    else Success(data)
  }

  function ValidateOfficial(data: Body): Result<Body, Rejection> {
    var k := FirstMissing(OfficialFields, data);
    if k < |OfficialFields| then Failure(MissingField(OfficialFields[k]))
    else if !ParsesAsInt(Get(data, "age")) then Failure(AgeNotANumber)
    else if !IsTenDigits(Get(data, "contactNo")) then Failure(InvalidContactNo)
    else if Get(data, "position") !in Positions then Failure(InvalidPosition)
    else Success(data)
  }

  /** The missing field reported is the first one of the list that is missing. */
  lemma FirstMissingIsFirst(fields: seq<string>, data: Body, i: nat)
    requires i < |fields| && !Present(data, fields[i])
    requires forall j :: 0 <= j < i ==> Present(data, fields[j])
    ensures FirstMissing(fields, data) == i
  {
  }

  /** No field missing is the same as FirstMissing running off the end. */
  lemma FirstMissingNone(fields: seq<string>, data: Body)
    ensures FirstMissing(fields, data) == |fields| <==> AllPresent(fields, data)
  {
  }

  // ---------------------------------------------------------------------------
  // Residents

  /** A body whose fields before position i are all present and whose i-th field is
      missing is refused naming that field. */
  lemma ResidentMissingField(data: Body, i: nat)
    requires i < |ResidentFields| && !Present(data, ResidentFields[i])
    requires forall j :: 0 <= j < i ==> Present(data, ResidentFields[j])
    ensures ValidateResident(data) == Failure(MissingField(ResidentFields[i]))
    ensures ValidateResident(data).error.Message() == "The " + ResidentFields[i] + " field is required."
  {
    FirstMissingIsFirst(ResidentFields, data, i);
  }

  /** With every field present, the remaining checks run in the order length of stay,
      income, blood type, and the first that fails is the one reported. */
  lemma ResidentCheckOrder(data: Body)
    requires AllPresent(ResidentFields, data)
    ensures !ParsesAsInt(Get(data, "lengthOfStay")) ==>
              ValidateResident(data) == Failure(LengthOfStayNotANumber)
    ensures ParsesAsInt(Get(data, "lengthOfStay")) && Get(data, "monthlyIncome") !in IncomeRanges ==>
              ValidateResident(data) == Failure(InvalidIncomeRange)
    ensures ParsesAsInt(Get(data, "lengthOfStay")) && Get(data, "monthlyIncome") in IncomeRanges
            && Get(data, "bloodType") !in BloodTypes ==>
              ValidateResident(data) == Failure(InvalidBloodType)
  {
    FirstMissingNone(ResidentFields, data);
  }

  /** A resident is accepted exactly when nothing is missing and the three value checks
      pass, and then the body comes back unchanged. */
  lemma ResidentAccepted(data: Body)
    ensures ValidateResident(data).Success? <==>
              && AllPresent(ResidentFields, data)
              && ParsesAsInt(Get(data, "lengthOfStay"))
              && Get(data, "monthlyIncome") in IncomeRanges
              && Get(data, "bloodType") in BloodTypes
    ensures ValidateResident(data).Success? ==> ValidateResident(data).value == data
  {
    FirstMissingNone(ResidentFields, data);
  }

  // ---------------------------------------------------------------------------
  // Officials

  lemma OfficialMissingField(data: Body, i: nat)
    requires i < |OfficialFields| && !Present(data, OfficialFields[i])
    requires forall j :: 0 <= j < i ==> Present(data, OfficialFields[j])
    ensures ValidateOfficial(data) == Failure(MissingField(OfficialFields[i]))
  {
    FirstMissingIsFirst(OfficialFields, data, i);
  }

  lemma OfficialCheckOrder(data: Body)
    requires AllPresent(OfficialFields, data)
    ensures !ParsesAsInt(Get(data, "age")) ==> ValidateOfficial(data) == Failure(AgeNotANumber)
    ensures ParsesAsInt(Get(data, "age")) && !IsTenDigits(Get(data, "contactNo")) ==>
              ValidateOfficial(data) == Failure(InvalidContactNo)
    ensures ParsesAsInt(Get(data, "age")) && IsTenDigits(Get(data, "contactNo"))
            && Get(data, "position") !in Positions ==>
              ValidateOfficial(data) == Failure(InvalidPosition)
  {
    FirstMissingNone(OfficialFields, data);
  }

  lemma OfficialAccepted(data: Body)
    ensures ValidateOfficial(data).Success? <==>
              && AllPresent(OfficialFields, data)
              && ParsesAsInt(Get(data, "age"))
              && IsTenDigits(Get(data, "contactNo"))
              && Get(data, "position") in Positions
    ensures ValidateOfficial(data).Success? ==> ValidateOfficial(data).value == data
  {
    FirstMissingNone(OfficialFields, data);
  }

  /** A contact number of another length, or with a character other than an ASCII
      digit, is refused once the earlier checks pass. */
  lemma ContactNoMustBeTenDigits(data: Body)
    requires AllPresent(OfficialFields, data) && ParsesAsInt(Get(data, "age"))
    requires |Get(data, "contactNo")| != 10 ||
             exists i :: 0 <= i < |Get(data, "contactNo")| && !IsDigit(Get(data, "contactNo")[i])
    ensures ValidateOfficial(data) == Failure(InvalidContactNo)
  {
    FirstMissingNone(OfficialFields, data);
  }
}
