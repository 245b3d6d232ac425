/** `Patient` and `Prescription`: immutable records whose constructors refuse null
    strings and whose `Equals`/`GetHashCode` look at the id alone. */
module HealthRecords {
  import opened Wrappers

  /** `ArgumentNullException`, naming the offending parameter. */
  datatype ArgumentError = ArgumentNull(paramName: string)

  datatype Patient = Patient(id: int, name: string, age: int, gender: string)

  datatype Prescription = Prescription(id: int, patientId: int, medicationName: string, dateIssued: Date)

  /** `new Patient(id, name, age, gender)`: `name` is checked before `gender`; nothing
      else is validated. */
  function NewPatient(id: int, name: Option<string>, age: int, gender: Option<string>): (r: Result<Patient, ArgumentError>)
    ensures r.Ok? <==> name.Some? && gender.Some?
    ensures name.None? ==> r == Err(ArgumentNull("name"))
    ensures name.Some? && gender.None? ==> r == Err(ArgumentNull("gender"))
    ensures r.Ok? ==>
      && r.value.id == id && r.value.name == name.value && r.value.age == age
      && r.value.gender == gender.value
  {
    if name.None? then Err(ArgumentNull("name"))
    else if gender.None? then Err(ArgumentNull("gender"))
    else Ok(Patient(id, name.value, age, gender.value))
  }

  /** `new Prescription(id, patientId, medicationName, dateIssued)`: only the medication
      name is checked; the patient id is stored without any validation. */
  function NewPrescription(id: int, patientId: int, medicationName: Option<string>, dateIssued: Date): (r: Result<Prescription, ArgumentError>)
    ensures r.Ok? <==> medicationName.Some?
    ensures medicationName.None? ==> r == Err(ArgumentNull("medicationName"))
    ensures r.Ok? ==>
      && r.value.id == id && r.value.patientId == patientId
      && r.value.medicationName == medicationName.value && r.value.dateIssued == dateIssued
  {
    match medicationName
    case None => Err(ArgumentNull("medicationName"))
    case Some(m) => Ok(Prescription(id, patientId, m, dateIssued))
  }

  /** `Patient.Equals` between two patients. */
  predicate PatientEquals(a: Patient, b: Patient) {
    a.id == b.id
  }

  /** `Patient.GetHashCode`: `int.GetHashCode` of the id, which is the id itself. */
  function PatientHash(p: Patient): int {
    p.id
  }

  /** `Prescription.Equals` between two prescriptions. */
  predicate PrescriptionEquals(a: Prescription, b: Prescription) {
    a.id == b.id
  }

  /** `Prescription.GetHashCode`: the id. */
  function PrescriptionHash(p: Prescription): int {
    p.id
  }

  /** Two patients are equal exactly when their ids are, whatever their other fields;
      the relation is an equivalence and equal patients hash alike. */
  lemma PatientEqualityById(a: Patient, b: Patient, c: Patient)
    ensures PatientEquals(a, b) <==> a.id == b.id
    ensures PatientEquals(a, a.(name := b.name, age := b.age, gender := b.gender))
    ensures PatientEquals(a, a)
    ensures PatientEquals(a, b) ==> PatientEquals(b, a)
    ensures PatientEquals(a, b) && PatientEquals(b, c) ==> PatientEquals(a, c)
    ensures PatientEquals(a, b) ==> PatientHash(a) == PatientHash(b)
  {
  }

  /** The same facts for prescriptions: equality and hash see the id only. */
  lemma PrescriptionEqualityById(a: Prescription, b: Prescription, c: Prescription)
    ensures PrescriptionEquals(a, b) <==> a.id == b.id
    ensures PrescriptionEquals(a, a.(patientId := b.patientId, medicationName := b.medicationName, dateIssued := b.dateIssued))
    ensures PrescriptionEquals(a, a)
    ensures PrescriptionEquals(a, b) ==> PrescriptionEquals(b, a)
    ensures PrescriptionEquals(a, b) && PrescriptionEquals(b, c) ==> PrescriptionEquals(a, c)
    ensures PrescriptionEquals(a, b) ==> PrescriptionHash(a) == PrescriptionHash(b)
  {
  }
}
