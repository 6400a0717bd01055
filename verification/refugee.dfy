/** The refugee document of backend/models/Refugee.js. */
module RefugeeModel {
  import opened Wrappers
  import opened Ids
  import opened Errors
  import opened Text
  import opened Geo

  datatype Gender = Male | Female | Other

  function GenderName(g: Gender): string {
    match g
    case Male => "Male"
    case Female => "Female"
    case Other => "Other"
  }

  /** The `enum` validator of `gender`. */
  function ParseGender(s: string): (g: Option<Gender>)
    ensures g.Some? ==> GenderName(g.value) == s
    ensures g.None? ==> forall h :: GenderName(h) != s
  {
    if s == "Male" then Some(Male)
    else if s == "Female" then Some(Female)
    else if s == "Other" then Some(Other)
    else None
  }

  datatype RefugeeStatus = Pending | Assigned | Relocated

  datatype Refugee = Refugee(
    name: string,
    age: int,
    gender: Gender,
    contactNumber: string,
    address: string,
    site: Site,
    assignedCamp: Option<Id>,
    medicalConditions: string,
    familyMembers: int,
    status: RefugeeStatus)

  const DefaultMedicalConditions: string := "None"
  const DefaultFamilyMembers: int := 1

  /** The fields a request supplies; absent optional fields are `None`. */
  datatype RefugeeInput = RefugeeInput(
    name: string,
    age: Option<int>,
    gender: string,
    contactNumber: string,
    address: string,
    latitude: Option<real>,
    longitude: Option<real>,
    medicalConditions: Option<string>,
    familyMembers: Option<int>)

  /** The assignment fields agree: a camp is set exactly when the status says Assigned. */
  predicate StatusAgrees(r: Refugee) {
    r.assignedCamp.Some? <==> r.status == Assigned
  }

  /** The validators a new refugee must pass: a name left non-empty by
      trimming, an age, a listed gender, an address and both coordinates. */
  predicate ValidInput(input: RefugeeInput) {
    && Trim(input.name) != ""
    && input.age.Some?
    && ParseGender(input.gender).Some?
    && input.address != ""
    && input.latitude.Some?
    && input.longitude.Some?
  }

  /** `Refugee.create`: validation, then the schema defaults. `familyMembers`
      has a default but no minimum. */
  function NewRefugee(input: RefugeeInput): (r: Result<Refugee, Error>)
    ensures r.Ok? <==> ValidInput(input)
    ensures r.Err? ==> r.error == ValidationFailed
    ensures r.Ok? ==> var v := r.value;
      && v.status == Pending && v.assignedCamp == None && StatusAgrees(v)
      && v.familyMembers == input.familyMembers.GetOr(DefaultFamilyMembers)
      && v.medicalConditions == input.medicalConditions.GetOr(DefaultMedicalConditions)
      && v.site == SiteAt(input.latitude.value, input.longitude.value)
      && v.name == Trim(input.name) && IsTrimmed(v.name) && v.name != ""
      && v.age == input.age.value
      && GenderName(v.gender) == input.gender
      && v.address == input.address
      && v.contactNumber == Trim(input.contactNumber) && IsTrimmed(v.contactNumber)
  {
    if !ValidInput(input) then Err(ValidationFailed)
    else
      Ok(Refugee(
        name := Trim(input.name),
        age := input.age.value,
        gender := ParseGender(input.gender).value,
        contactNumber := Trim(input.contactNumber),
        address := input.address,
        site := SiteAt(input.latitude.value, input.longitude.value),
        assignedCamp := None,
        medicalConditions := input.medicalConditions.GetOr(DefaultMedicalConditions),
        familyMembers := input.familyMembers.GetOr(DefaultFamilyMembers),
        status := Pending))
  }
}
