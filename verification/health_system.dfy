/** The referential logic of `HealthSystemApp`: two list repositories (patients and
    prescriptions) and a map from patient id to that patient's prescriptions, which is
    rebuilt from the prescription list after every change to it. Each menu action takes
    the console lines it would read as parameters and returns the new state together
    with what it reported; an action that stops early leaves the state as it was. */
module HealthSystem {
  import opened Wrappers
  import opened Text
  import opened Lists
  import opened HealthRecords
  import Repository

  /** `_patientRepo`, `_prescriptionRepo` and `_prescriptionMap`. */
  datatype HealthState = HealthState(
    patients: seq<Patient>,
    prescriptions: seq<Prescription>,
    prescriptionMap: map<int, seq<Prescription>>)

  /** The state after one menu action, with what the action reported. */
  datatype Step<R> = Step(state: HealthState, report: R)

  datatype AddPatientReport =
    | PatientIdUnreadable
    | PatientIdTaken(id: int)
    | NameEmpty
    | AgeInvalid
    | GenderEmpty
    | PatientRejected(error: ArgumentError)
    | PatientAdded(patient: Patient)

  datatype AddPrescriptionReport =
    | PrescriptionIdUnreadable
    | PrescriptionIdTaken(id: int)
    | PatientRefUnreadable
    | PatientUnknown(patientId: int)
    | MedicationEmpty
    | DateInvalid
    | PrescriptionRejected(error: ArgumentError)
    | PrescriptionAdded(prescription: Prescription)

  datatype RemovalReport =
    | RemovalIdUnreadable
    | RemovalTargetMissing(id: int)
    | RemovalCancelled
    | RemovalFailed
    | PatientRemoved(patient: Patient, prescriptionsRemoved: nat)
    | PrescriptionRemoved(prescription: Prescription)

  // ---------------------------------------------------------------------------
  // The predicates the application hands to its repositories
  // ---------------------------------------------------------------------------

  function PatientKey(p: Patient): int { p.id }

  function PrescriptionKey(p: Prescription): int { p.id }

  /** `p => p.Id == id` over patients. */
  function HasPatientId(id: int): Patient -> bool { (p: Patient) => p.id == id }

  function LacksPatientId(id: int): Patient -> bool { (p: Patient) => p.id != id }

  /** `p => p.Id == id` over prescriptions. */
  function HasPrescriptionId(id: int): Prescription -> bool { (p: Prescription) => p.id == id }

  function LacksPrescriptionId(id: int): Prescription -> bool { (p: Prescription) => p.id != id }

  /** `p => p.PatientId == pid`. */
  function ForPatientId(pid: int): Prescription -> bool { (p: Prescription) => p.patientId == pid }

  function NotForPatientId(pid: int): Prescription -> bool { (p: Prescription) => p.patientId != pid }

  /** The prescriptions of patient `pid`, in repository order. */
  function ForPatient(ps: seq<Prescription>, pid: int): seq<Prescription> {
    Filter(ps, ForPatientId(pid))
  }

  predicate PatientExists(patients: seq<Patient>, pid: int) {
    exists i :: 0 <= i < |patients| && patients[i].id == pid
  }

  predicate PrescriptionIdUsed(ps: seq<Prescription>, id: int) {
    exists i :: 0 <= i < |ps| && ps[i].id == id
  }

  // ---------------------------------------------------------------------------
  // The prescription map
  // ---------------------------------------------------------------------------

  /** `BuildPrescriptionMap`: `GroupBy(p => p.PatientId)` stored under each group key.
      The keys are exactly the patient ids that occur, and each entry lists that
      patient's prescriptions in repository order. */
  function BuildPrescriptionMap(ps: seq<Prescription>): (m: map<int, seq<Prescription>>)
    ensures forall pid :: pid in m <==> exists i :: 0 <= i < |ps| && ps[i].patientId == pid
    ensures forall pid :: pid in m ==> m[pid] == ForPatient(ps, pid)
    decreases |ps|
  {
    if |ps| == 0 then map[]
    else
      var m := BuildPrescriptionMap(ps[1..]);
      GroupFront(ps, m);
      var pid := ps[0].patientId;
      if pid in m then m[pid := [ps[0]] + m[pid]] else m[pid := [ps[0]]]
  }

  /** `m` groups `ps` by patient id: one entry per patient id that occurs, holding that
      patient's prescriptions in order. */
  ghost predicate Groups(ps: seq<Prescription>, m: map<int, seq<Prescription>>) {
    && (forall pid :: pid in m <==> exists i :: 0 <= i < |ps| && ps[i].patientId == pid)
    && (forall pid :: pid in m ==> m[pid] == ForPatient(ps, pid))
  }

  /** Putting a prescription in front of a grouped list puts it in front of its
      patient's entry, creating the entry when needed. */
  lemma GroupFront(ps: seq<Prescription>, m: map<int, seq<Prescription>>)
    requires |ps| > 0 && Groups(ps[1..], m)
    ensures var pid := ps[0].patientId;
      Groups(ps, if pid in m then m[pid := [ps[0]] + m[pid]] else m[pid := [ps[0]]])
  {
    var x, rest := ps[0], ps[1..];
    var pid := x.patientId;
    var m' := if pid in m then m[pid := [x] + m[pid]] else m[pid := [x]];
    forall q ensures q in m' <==> exists i :: 0 <= i < |ps| && ps[i].patientId == q {
      if q != pid && exists i :: 0 <= i < |ps| && ps[i].patientId == q {
        var i :| 0 <= i < |ps| && ps[i].patientId == q;
        assert rest[i - 1].patientId == q;
      }
      if q in m {
        var i :| 0 <= i < |rest| && rest[i].patientId == q;
        assert ps[i + 1].patientId == q;
      }
    }
    forall q | q in m' ensures m'[q] == ForPatient(ps, q) {
      assert ForPatient(ps, q) == (if q == pid then [x] else []) + ForPatient(rest, q);
      if q == pid && pid !in m {
        assert !exists i :: 0 <= i < |rest| && rest[i].patientId == pid;
        FilterKeepsNone(rest, ForPatientId(pid));
      }
    }
  }

  /** `GetPrescriptionsByPatientId`: the mapped list, or a new empty list. */
  function GetPrescriptionsByPatientId(m: map<int, seq<Prescription>>, pid: int): seq<Prescription> {
    if pid in m then m[pid] else []
  }

  /** Looking a patient up in a freshly built map gives exactly that patient's
      prescriptions, whether or not the patient has an entry. */
  lemma LookupAfterBuild(ps: seq<Prescription>, pid: int)
    ensures GetPrescriptionsByPatientId(BuildPrescriptionMap(ps), pid) == ForPatient(ps, pid)
    ensures pid !in BuildPrescriptionMap(ps) ==> ForPatient(ps, pid) == []
  {
    var r := ForPatient(ps, pid);
    if |r| > 0 {
      assert r[0] in ps;
    }
  }

  /** `Values.Sum(list => list.Count)`, visiting the keys in `order`. */
  function SumOfCounts(m: map<int, seq<Prescription>>, order: seq<int>): nat
    requires forall i :: 0 <= i < |order| ==> order[i] in m
  {
    if |order| == 0 then 0 else |m[order[0]]| + SumOfCounts(m, order[1..])
  }

  /** An enumeration order of the map: every key exactly once. */
  predicate IsKeyOrder(m: map<int, seq<Prescription>>, order: seq<int>) {
    && (forall k :: k in m ==> k in order)
    && (forall i :: 0 <= i < |order| ==> order[i] in m)
    && (forall i, j :: 0 <= i < j < |order| ==> order[i] != order[j])
  }

  /** How many prescriptions of `ps` belong to the patients listed in `order`. */
  function CountListed(ps: seq<Prescription>, order: seq<int>): nat {
    if |order| == 0 then 0 else |ForPatient(ps, order[0])| + CountListed(ps, order[1..])
  }

  function Occurrences(order: seq<int>, k: int): nat {
    if |order| == 0 then 0 else (if order[0] == k then 1 else 0) + Occurrences(order[1..], k)
  }

  lemma {:induction false} OccursOnce(order: seq<int>, k: int)
    requires forall i, j :: 0 <= i < j < |order| ==> order[i] != order[j]
    requires k in order
    ensures Occurrences(order, k) == 1
    decreases |order|
  {
    var rest := order[1..];
    assert forall i :: 0 <= i < |rest| ==> rest[i] == order[i + 1];
    if order[0] == k {
      assert k !in rest;
      OccursNever(rest, k);
    } else {
      OccursOnce(rest, k);
    }
  }

  lemma {:induction false} OccursNever(order: seq<int>, k: int)
    requires k !in order
    ensures Occurrences(order, k) == 0
    decreases |order|
  {
    if |order| > 0 {
      assert order[1..] <= order[1..];
      assert forall x :: x in order[1..] ==> x in order;
      OccursNever(order[1..], k);
    }
  }

  /** Taking off the first prescription takes one off the count of its patient only. */
  lemma {:induction false} CountListedHead(ps: seq<Prescription>, order: seq<int>)
    requires |ps| > 0
    ensures CountListed(ps, order) == Occurrences(order, ps[0].patientId) + CountListed(ps[1..], order)
    decreases |order|
  {
    if |order| > 0 {
      CountListedHead(ps, order[1..]);
    }
  }

  lemma {:induction false} CountListedEmpty(order: seq<int>)
    ensures CountListed([], order) == 0
    decreases |order|
  {
    if |order| > 0 {
      CountListedEmpty(order[1..]);
    }
  }

  /** Counting every patient that occurs, once each, counts every prescription. */
  lemma {:induction false} CountListedAll(ps: seq<Prescription>, order: seq<int>)
    requires forall i, j :: 0 <= i < j < |order| ==> order[i] != order[j]
    requires forall i :: 0 <= i < |ps| ==> ps[i].patientId in order
    ensures CountListed(ps, order) == |ps|
    decreases |ps|
  {
    if |ps| > 0 {
      CountListedHead(ps, order);
      OccursOnce(order, ps[0].patientId);
      assert forall i :: 0 <= i < |ps[1..]| ==> ps[1..][i] == ps[i + 1];
      CountListedAll(ps[1..], order);
    } else {
      CountListedEmpty(order);
    }
  }

  lemma {:induction false} SumOfBuiltCounts(ps: seq<Prescription>, order: seq<int>)
    requires forall i :: 0 <= i < |order| ==> order[i] in BuildPrescriptionMap(ps)
    ensures SumOfCounts(BuildPrescriptionMap(ps), order) == CountListed(ps, order)
    decreases |order|
  {
    if |order| > 0 {
      SumOfBuiltCounts(ps, order[1..]);
    }
  }

  /** The entries of a built map together hold every prescription exactly once: their
      lengths sum to the number of prescriptions, in whatever order they are visited. */
  lemma EntryCountsSumToTotal(ps: seq<Prescription>, order: seq<int>)
    requires IsKeyOrder(BuildPrescriptionMap(ps), order)
    ensures SumOfCounts(BuildPrescriptionMap(ps), order) == |ps|
  {
    var m := BuildPrescriptionMap(ps);
    SumOfBuiltCounts(ps, order);
    forall i | 0 <= i < |ps| ensures ps[i].patientId in order {
      assert ps[i].patientId in m;
    }
    CountListedAll(ps, order);
  }

  // ---------------------------------------------------------------------------
  // Menu actions
  // ---------------------------------------------------------------------------

  /** The age guard of `AddNewPatient`: a number from 0 to 150. */
  predicate AgeAccepted(age: Option<int>) {
    age.Some? && 0 <= age.value <= 150
  }

  /** The `(y/N)` prompt: the trimmed, lower-cased answer is `y` or `yes`. */
  predicate Confirmed(line: Option<string>) {
    var answer := ToLower(TrimmedLine(line));
    answer == "y" || answer == "yes"
  }

  /** `AddNewPatient`: each guard in turn (readable id, unused id, name, age, gender),
      stopping at the first that fails; the map is not touched. */
  function AddNewPatient(st: HealthState, idLine: Option<string>, nameLine: Option<string>,
                         ageLine: Option<string>, genderLine: Option<string>): (r: Step<AddPatientReport>)
    ensures !r.report.PatientAdded? ==> r.state == st
    ensures TryParseLine(idLine).None? ==> r.report == PatientIdUnreadable
    ensures TryParseLine(idLine).Some? && PatientExists(st.patients, TryParseLine(idLine).value) ==>
      r.report == PatientIdTaken(TryParseLine(idLine).value)
    ensures TryParseLine(idLine).Some? && !PatientExists(st.patients, TryParseLine(idLine).value) ==>
      && (TrimmedLine(nameLine) == "" ==> r.report == NameEmpty)
      && (TrimmedLine(nameLine) != "" && !AgeAccepted(TryParseLine(ageLine)) ==> r.report == AgeInvalid)
      && (TrimmedLine(nameLine) != "" && AgeAccepted(TryParseLine(ageLine)) && TrimmedLine(genderLine) == "" ==>
            r.report == GenderEmpty)
    ensures r.report.PatientAdded? <==>
      && TryParseLine(idLine).Some? && !PatientExists(st.patients, TryParseLine(idLine).value)
      && TrimmedLine(nameLine) != "" && AgeAccepted(TryParseLine(ageLine)) && TrimmedLine(genderLine) != ""
    ensures r.report.PatientAdded? ==>
      && r.report.patient == Patient(TryParseLine(idLine).value, TrimmedLine(nameLine),
                                     TryParseLine(ageLine).value, TrimmedLine(genderLine))
      && r.state == st.(patients := st.patients + [r.report.patient])
  {
    match TryParseLine(idLine)
    case None => Step(st, PatientIdUnreadable)
    case Some(id) =>
      if Repository.GetById(st.patients, HasPatientId(id)).Some? then Step(st, PatientIdTaken(id))
      else
        var name := TrimmedLine(nameLine);
        if name == "" then Step(st, NameEmpty)
        else
          var age := TryParseLine(ageLine);
          if !AgeAccepted(age) then Step(st, AgeInvalid)
          else
            var gender := TrimmedLine(genderLine);
            if gender == "" then Step(st, GenderEmpty)
            else
              match NewPatient(id, Some(name), age.value, Some(gender))
              case Err(e) => Step(st, PatientRejected(e))
              case Ok(p) => Step(st.(patients := Repository.Add(st.patients, Some(p))), PatientAdded(p))
  }

  /** `AddNewPrescription`: readable unused prescription id, readable id of an existing
      patient, non-empty medication name and a date (today when the line is empty,
      `parseDate` otherwise); then the prescription is appended and the map rebuilt. */
  function AddNewPrescription(st: HealthState, idLine: Option<string>, patientLine: Option<string>,
                              medicationLine: Option<string>, dateLine: Option<string>,
                              today: Date, parseDate: string -> Option<Date>): (r: Step<AddPrescriptionReport>)
    ensures !r.report.PrescriptionAdded? ==> r.state == st
    ensures TryParseLine(idLine).None? ==> r.report == PrescriptionIdUnreadable
    ensures TryParseLine(idLine).Some? && PrescriptionIdUsed(st.prescriptions, TryParseLine(idLine).value) ==>
      r.report == PrescriptionIdTaken(TryParseLine(idLine).value)
    ensures TryParseLine(idLine).Some? && !PrescriptionIdUsed(st.prescriptions, TryParseLine(idLine).value) ==>
      && (TryParseLine(patientLine).None? ==> r.report == PatientRefUnreadable)
      && (TryParseLine(patientLine).Some? && !PatientExists(st.patients, TryParseLine(patientLine).value) ==>
            r.report == PatientUnknown(TryParseLine(patientLine).value))
      && (TryParseLine(patientLine).Some? && PatientExists(st.patients, TryParseLine(patientLine).value) ==>
            && (TrimmedLine(medicationLine) == "" ==> r.report == MedicationEmpty)
            && (TrimmedLine(medicationLine) != "" && TrimmedLine(dateLine) != "" && parseDate(TrimmedLine(dateLine)).None? ==>
                  r.report == DateInvalid))
    ensures r.report.PrescriptionAdded? <==>
      && TryParseLine(idLine).Some? && !PrescriptionIdUsed(st.prescriptions, TryParseLine(idLine).value)
      && TryParseLine(patientLine).Some? && PatientExists(st.patients, TryParseLine(patientLine).value)
      && TrimmedLine(medicationLine) != ""
      && (TrimmedLine(dateLine) == "" || parseDate(TrimmedLine(dateLine)).Some?)
    ensures r.report.PrescriptionAdded? ==>
      && r.report.prescription.id == TryParseLine(idLine).value
      && r.report.prescription.patientId == TryParseLine(patientLine).value
      && r.report.prescription.medicationName == TrimmedLine(medicationLine)
      && r.report.prescription.dateIssued
         == (if TrimmedLine(dateLine) == "" then today else parseDate(TrimmedLine(dateLine)).value)
      && r.state.patients == st.patients
      && r.state.prescriptions == st.prescriptions + [r.report.prescription]
      && r.state.prescriptionMap == BuildPrescriptionMap(r.state.prescriptions)
  {
    match TryParseLine(idLine)
    case None => Step(st, PrescriptionIdUnreadable)
    case Some(id) =>
      if Repository.GetById(st.prescriptions, HasPrescriptionId(id)).Some? then Step(st, PrescriptionIdTaken(id))
      else
        match TryParseLine(patientLine)
        case None => Step(st, PatientRefUnreadable)
        case Some(pid) =>
          if Repository.GetById(st.patients, HasPatientId(pid)).None? then Step(st, PatientUnknown(pid))
          else
            var medication := TrimmedLine(medicationLine);
            if medication == "" then Step(st, MedicationEmpty)
            else
              var dateInput := TrimmedLine(dateLine);
              var date := if dateInput == "" then Some(today) else parseDate(dateInput);
              match date
              case None => Step(st, DateInvalid)
              case Some(d) =>
                match NewPrescription(id, pid, Some(medication), d)
                case Err(e) => Step(st, PrescriptionRejected(e))
                case Ok(p) =>
                  var ps := Repository.Add(st.prescriptions, Some(p));
                  Step(HealthState(st.patients, ps, BuildPrescriptionMap(ps)), PrescriptionAdded(p))
  }

  /** The loop of `RemovePatient` over its snapshot of the patient's prescriptions:
      each is removed by `Remove(p => p.Id == prescription.Id)`, counting the removals
      that succeed. */
  function Cascade(ps: seq<Prescription>, targets: seq<Prescription>): (r: (seq<Prescription>, nat))
    ensures r.1 <= |targets|
    ensures |r.0| == |ps| - r.1
    decreases |targets|
  {
    if |targets| == 0 then (ps, 0)
    else
      var removal := Repository.Remove(ps, HasPrescriptionId(targets[0].id), PrescriptionEquals);
      var rest := Cascade(removal.items, targets[1..]);
      (rest.0, rest.1 + if removal.removed then 1 else 0)
  }

  /** `RemovePatient`: a readable id of an existing patient and a confirmation; the
      patient is removed, then every prescription that was theirs, then the map is
      rebuilt. */
  function RemovePatient(st: HealthState, idLine: Option<string>, confirmLine: Option<string>): (r: Step<RemovalReport>)
    ensures !r.report.PatientRemoved? ==> r.state == st
    ensures TryParseLine(idLine).None? ==> r.report == RemovalIdUnreadable
    ensures TryParseLine(idLine).Some? && !PatientExists(st.patients, TryParseLine(idLine).value) ==>
      r.report == RemovalTargetMissing(TryParseLine(idLine).value)
    ensures TryParseLine(idLine).Some? && PatientExists(st.patients, TryParseLine(idLine).value) && !Confirmed(confirmLine) ==>
      r.report == RemovalCancelled
    ensures r.report.PatientRemoved? <==>
      TryParseLine(idLine).Some? && PatientExists(st.patients, TryParseLine(idLine).value) && Confirmed(confirmLine)
    ensures r.report.PatientRemoved? ==>
      && r.report.patient.id == TryParseLine(idLine).value
      && |r.state.patients| == |st.patients| - 1
      && r.state.prescriptionMap == BuildPrescriptionMap(r.state.prescriptions)
  {
    match TryParseLine(idLine)
    case None => Step(st, RemovalIdUnreadable)
    case Some(pid) =>
      match Repository.GetById(st.patients, HasPatientId(pid))
      case None => Step(st, RemovalTargetMissing(pid))
      case Some(patient) =>
        if !Confirmed(confirmLine) then Step(st, RemovalCancelled)
        else
          Repository.RemoveSucceedsIffMatch(st.patients, HasPatientId(pid), PatientEquals);
          var removal := Repository.Remove(st.patients, HasPatientId(pid), PatientEquals);
          if !removal.removed then Step(st, RemovalFailed)
          else
            var cascade := Cascade(st.prescriptions, ForPatient(st.prescriptions, pid));
            Step(HealthState(removal.items, cascade.0, BuildPrescriptionMap(cascade.0)),
                 PatientRemoved(patient, cascade.1))
  }

  /** `RemovePrescription`: a readable id of an existing prescription and a
      confirmation; the prescription is removed and the map rebuilt. */
  function RemovePrescription(st: HealthState, idLine: Option<string>, confirmLine: Option<string>): (r: Step<RemovalReport>)
    ensures !r.report.PrescriptionRemoved? ==> r.state == st
    ensures TryParseLine(idLine).None? ==> r.report == RemovalIdUnreadable
    ensures TryParseLine(idLine).Some? && !PrescriptionIdUsed(st.prescriptions, TryParseLine(idLine).value) ==>
      r.report == RemovalTargetMissing(TryParseLine(idLine).value)
    ensures TryParseLine(idLine).Some? && PrescriptionIdUsed(st.prescriptions, TryParseLine(idLine).value) && !Confirmed(confirmLine) ==>
      r.report == RemovalCancelled
    ensures r.report.PrescriptionRemoved? <==>
      && TryParseLine(idLine).Some? && PrescriptionIdUsed(st.prescriptions, TryParseLine(idLine).value)
      && Confirmed(confirmLine)
    ensures r.report.PrescriptionRemoved? ==>
      && r.report.prescription.id == TryParseLine(idLine).value
      && r.state.patients == st.patients
      && |r.state.prescriptions| == |st.prescriptions| - 1
      && r.state.prescriptionMap == BuildPrescriptionMap(r.state.prescriptions)
  {
    match TryParseLine(idLine)
    case None => Step(st, RemovalIdUnreadable)
    case Some(id) =>
      match Repository.GetById(st.prescriptions, HasPrescriptionId(id))
      case None => Step(st, RemovalTargetMissing(id))
      case Some(prescription) =>
        if !Confirmed(confirmLine) then Step(st, RemovalCancelled)
        else
          Repository.RemoveSucceedsIffMatch(st.prescriptions, HasPrescriptionId(id), PrescriptionEquals);
          var removal := Repository.Remove(st.prescriptions, HasPrescriptionId(id), PrescriptionEquals);
          if !removal.removed then Step(st, RemovalFailed)
          else
            var ps := removal.items;
            Step(HealthState(st.patients, ps, BuildPrescriptionMap(ps)), PrescriptionRemoved(prescription))
  }

  // ---------------------------------------------------------------------------
  // The cascade
  // ---------------------------------------------------------------------------

  predicate UniquePatientIds(patients: seq<Patient>) {
    DistinctKeys(patients, PatientKey)
  }

  predicate UniquePrescriptionIds(ps: seq<Prescription>) {
    DistinctKeys(ps, PrescriptionKey)
  }

  /** Prescriptions whose id is not used in `ts`. */
  function OutsideIds(ts: seq<Prescription>): Prescription -> bool {
    (p: Prescription) => !PrescriptionIdUsed(ts, p.id)
  }

  lemma IdUsedCons(ts: seq<Prescription>, id: int)
    requires |ts| > 0
    ensures PrescriptionIdUsed(ts, id) <==> ts[0].id == id || PrescriptionIdUsed(ts[1..], id)
  {
    if PrescriptionIdUsed(ts[1..], id) {
      var j :| 0 <= j < |ts[1..]| && ts[1..][j].id == id;
      assert ts[j + 1].id == id;
    }
    if PrescriptionIdUsed(ts, id) && ts[0].id != id {
      var j :| 0 <= j < |ts| && ts[j].id == id;
      assert ts[1..][j - 1].id == id;
    }
  }

  /** With unique ids, each `Remove` of the loop deletes exactly its target, so the
      loop removes precisely the prescriptions it was given and counts every one. */
  lemma {:induction false} CascadeRemovesTargets(ps: seq<Prescription>, ts: seq<Prescription>)
    requires UniquePrescriptionIds(ps) && UniquePrescriptionIds(ts)
    requires forall j :: 0 <= j < |ts| ==> PrescriptionIdUsed(ps, ts[j].id)
    ensures Cascade(ps, ts) == (Filter(ps, OutsideIds(ts)), |ts|)
    decreases |ts|
  {
    if |ts| == 0 {
      FilterKeepsAll(ps, OutsideIds(ts));
    } else {
      var t, rest := ts[0], ts[1..];
      Repository.RemoveByUniqueKey(ps, PrescriptionKey, t.id, HasPrescriptionId(t.id), PrescriptionEquals,
                                   LacksPrescriptionId(t.id));
      var ps1 := Filter(ps, LacksPrescriptionId(t.id));
      FilterDistinctKeys(ps, LacksPrescriptionId(t.id), PrescriptionKey);
      assert UniquePrescriptionIds(rest) by {
        forall i, j | 0 <= i < j < |rest| ensures rest[i].id != rest[j].id {
          assert rest[i] == ts[i + 1] && rest[j] == ts[j + 1];
        }
      }
      forall j | 0 <= j < |rest| ensures PrescriptionIdUsed(ps1, rest[j].id) {
        assert rest[j] == ts[j + 1];
        var k :| 0 <= k < |ps| && ps[k].id == rest[j].id;
        assert ps[k] in ps1;
      }
      CascadeRemovesTargets(ps1, rest);
      forall i | 0 <= i < |ps|
        ensures OutsideIds(ts)(ps[i]) == (LacksPrescriptionId(t.id)(ps[i]) && OutsideIds(rest)(ps[i]))
      {
        IdUsedCons(ts, ps[i].id);
      }
      FilterFilter(ps, LacksPrescriptionId(t.id), OutsideIds(rest), OutsideIds(ts));
    }
  }

  /** With unique ids, a prescription's id is among the patient's snapshot exactly when
      the prescription is the patient's. */
  lemma SnapshotIds(ps: seq<Prescription>, pid: int, i: nat)
    requires UniquePrescriptionIds(ps) && i < |ps|
    ensures PrescriptionIdUsed(ForPatient(ps, pid), ps[i].id) <==> ps[i].patientId == pid
  {
    var ts := ForPatient(ps, pid);
    if ps[i].patientId == pid {
      var j :| 0 <= j < |ts| && ts[j] == ps[i];
    }
    if PrescriptionIdUsed(ts, ps[i].id) {
      var j :| 0 <= j < |ts| && ts[j].id == ps[i].id;
      var k :| 0 <= k < |ps| && ps[k] == ts[j];
      assert k == i;
    }
  }

  /** With unique ids, removing a patient removes that patient alone and exactly the
      prescriptions that were theirs, counting each of them; no prescription of the
      removed patient is left behind. */
  lemma RemovePatientCascades(st: HealthState, idLine: Option<string>, confirmLine: Option<string>)
    requires UniquePatientIds(st.patients) && UniquePrescriptionIds(st.prescriptions)
    ensures var r := RemovePatient(st, idLine, confirmLine);
      r.report.PatientRemoved? ==>
        var pid := TryParseLine(idLine).value;
        && r.state.patients == Filter(st.patients, LacksPatientId(pid))
        && r.state.prescriptions == Filter(st.prescriptions, NotForPatientId(pid))
        && r.report.prescriptionsRemoved == |ForPatient(st.prescriptions, pid)|
        && forall i :: 0 <= i < |r.state.prescriptions| ==> r.state.prescriptions[i].patientId != pid
  {
    var r := RemovePatient(st, idLine, confirmLine);
    if r.report.PatientRemoved? {
      var pid := TryParseLine(idLine).value;
      var removal := Repository.Remove(st.patients, HasPatientId(pid), PatientEquals);
      var cascade := Cascade(st.prescriptions, ForPatient(st.prescriptions, pid));
      assert r.state.patients == removal.items;
      assert r.state.prescriptions == cascade.0 && r.report.prescriptionsRemoved == cascade.1;
      Repository.RemoveByUniqueKey(st.patients, PatientKey, pid, HasPatientId(pid), PatientEquals, LacksPatientId(pid));
      CascadeOfPatient(st.prescriptions, pid);
    }
  }

  /** The cascade over a patient's snapshot removes exactly that patient's
      prescriptions and counts them all. */
  lemma CascadeOfPatient(ps: seq<Prescription>, pid: int)
    requires UniquePrescriptionIds(ps)
    ensures Cascade(ps, ForPatient(ps, pid)) == (Filter(ps, NotForPatientId(pid)), |ForPatient(ps, pid)|)
    ensures forall i :: 0 <= i < |Filter(ps, NotForPatientId(pid))| ==> Filter(ps, NotForPatientId(pid))[i].patientId != pid
  {
    var ts := ForPatient(ps, pid);
    FilterDistinctKeys(ps, ForPatientId(pid), PrescriptionKey);
    forall j | 0 <= j < |ts| ensures PrescriptionIdUsed(ps, ts[j].id) {
      var k :| 0 <= k < |ps| && ps[k] == ts[j];
    }
    CascadeRemovesTargets(ps, ts);
    forall i | 0 <= i < |ps| ensures OutsideIds(ts)(ps[i]) == NotForPatientId(pid)(ps[i]) {
      SnapshotIds(ps, pid, i);
    }
    FilterAgree(ps, OutsideIds(ts), NotForPatientId(pid));
  }

  /** With unique ids, removing a prescription removes that prescription alone. */
  lemma RemovePrescriptionRemovesOnlyMatch(st: HealthState, idLine: Option<string>, confirmLine: Option<string>)
    requires UniquePrescriptionIds(st.prescriptions)
    ensures var r := RemovePrescription(st, idLine, confirmLine);
      r.report.PrescriptionRemoved? ==>
        r.state.prescriptions == Filter(st.prescriptions, LacksPrescriptionId(TryParseLine(idLine).value))
  {
    var r := RemovePrescription(st, idLine, confirmLine);
    if r.report.PrescriptionRemoved? {
      var id := TryParseLine(idLine).value;
      Repository.RemoveByUniqueKey(st.prescriptions, PrescriptionKey, id, HasPrescriptionId(id),
                                   PrescriptionEquals, LacksPrescriptionId(id));
    }
  }

  // ---------------------------------------------------------------------------
  // The application invariant
  // ---------------------------------------------------------------------------

  /** Every prescription names a stored patient. */
  predicate NoOrphans(st: HealthState) {
    forall i :: 0 <= i < |st.prescriptions| ==> PatientExists(st.patients, st.prescriptions[i].patientId)
  }

  /** Ids are unique in both repositories, every prescription belongs to a stored
      patient, and the map is the one built from the prescription list. */
  predicate Consistent(st: HealthState) {
    && UniquePatientIds(st.patients)
    && UniquePrescriptionIds(st.prescriptions)
    && NoOrphans(st)
    && st.prescriptionMap == BuildPrescriptionMap(st.prescriptions)
  }

  const TicksPerDay: int := 864_000_000_000

  /** `today.AddDays(-days)`. */
  function DaysBefore(today: Date, days: int): Date {
    Date(today.ticks - days * TicksPerDay)
  }

  /** The patients `SeedInitialData` adds: ids 1 to 3. */
  function SeedPatients(): (patients: seq<Patient>)
    ensures |patients| == 3
    ensures forall i :: 0 <= i < |patients| ==> patients[i].id == i + 1
  {
    [Patient(1, "John Doe", 35, "Male"),
     Patient(2, "Jane Smith", 28, "Female"),
     Patient(3, "Robert Johnson", 45, "Male")]
  }

  /** The prescriptions `SeedInitialData` adds: ids 101 to 105, for patients 1, 1, 2,
      2 and 3, issued some days before `today`. */
  function SeedPrescriptions(today: Date): (ps: seq<Prescription>)
    ensures |ps| == 5
    ensures forall i :: 0 <= i < |ps| ==> ps[i].id == 101 + i && 1 <= ps[i].patientId <= 3
  {
    [Prescription(101, 1, "Amoxicillin 500mg", DaysBefore(today, 5)),
     Prescription(102, 1, "Ibuprofen 200mg", DaysBefore(today, 3)),
     Prescription(103, 2, "Metformin 1000mg", DaysBefore(today, 7)),
     Prescription(104, 2, "Lisinopril 10mg", DaysBefore(today, 2)),
     Prescription(105, 3, "Atorvastatin 20mg", DaysBefore(today, 10))]
  }

  /** `SeedInitialData` followed by `BuildPrescriptionMap`, as `Run` does first. */
  function InitialState(today: Date): (st: HealthState)
    ensures Consistent(st)
    ensures |st.patients| == 3 && |st.prescriptions| == 5
  {
    var patients := SeedPatients();
    var prescriptions := SeedPrescriptions(today);
    assert UniquePatientIds(patients);
    assert UniquePrescriptionIds(prescriptions);
    assert forall i :: 0 <= i < |prescriptions| ==> PatientExists(patients, prescriptions[i].patientId) by {
      forall i | 0 <= i < |prescriptions| ensures PatientExists(patients, prescriptions[i].patientId) {
        assert patients[prescriptions[i].patientId - 1].id == prescriptions[i].patientId;
      }
    }
    HealthState(patients, prescriptions, BuildPrescriptionMap(prescriptions))
  }

  /** Appending a patient with a fresh id keeps the state consistent. */
  lemma AppendPatientKeepsConsistent(st: HealthState, p: Patient)
    requires Consistent(st) && !PatientExists(st.patients, p.id)
    ensures Consistent(st.(patients := st.patients + [p]))
  {
    var pats := st.patients + [p];
    DistinctKeysSnoc(st.patients, p, PatientKey);
    forall i | 0 <= i < |st.prescriptions| ensures PatientExists(pats, st.prescriptions[i].patientId) {
      var k :| 0 <= k < |st.patients| && st.patients[k].id == st.prescriptions[i].patientId;
      assert pats[k] == st.patients[k];
    }
  }

  lemma AddNewPatientKeepsConsistent(st: HealthState, idLine: Option<string>, nameLine: Option<string>,
                                     ageLine: Option<string>, genderLine: Option<string>)
    requires Consistent(st)
    ensures Consistent(AddNewPatient(st, idLine, nameLine, ageLine, genderLine).state)
  {
    var r := AddNewPatient(st, idLine, nameLine, ageLine, genderLine);
    if r.report.PatientAdded? {
      AppendPatientKeepsConsistent(st, r.report.patient);
    }
  }

  /** Appending a prescription with a fresh id for a stored patient, and rebuilding the
      map, keeps the state consistent. */
  lemma AppendPrescriptionKeepsConsistent(st: HealthState, p: Prescription)
    requires Consistent(st) && !PrescriptionIdUsed(st.prescriptions, p.id) && PatientExists(st.patients, p.patientId)
    ensures var ps := st.prescriptions + [p];
      Consistent(HealthState(st.patients, ps, BuildPrescriptionMap(ps)))
  {
    var ps := st.prescriptions + [p];
    DistinctKeysSnoc(st.prescriptions, p, PrescriptionKey);
    forall i | 0 <= i < |ps| ensures PatientExists(st.patients, ps[i].patientId) {
      if i < |st.prescriptions| {
        assert ps[i] == st.prescriptions[i];
      }
    }
  }

  lemma AddNewPrescriptionKeepsConsistent(st: HealthState, idLine: Option<string>, patientLine: Option<string>,
                                          medicationLine: Option<string>, dateLine: Option<string>,
                                          today: Date, parseDate: string -> Option<Date>)
    requires Consistent(st)
    ensures Consistent(AddNewPrescription(st, idLine, patientLine, medicationLine, dateLine, today, parseDate).state)
  {
    var r := AddNewPrescription(st, idLine, patientLine, medicationLine, dateLine, today, parseDate);
    if r.report.PrescriptionAdded? {
      AppendPrescriptionKeepsConsistent(st, r.report.prescription);
    }
  }

  /** Dropping a patient together with all of that patient's prescriptions leaves no
      prescription without its patient. */
  lemma CascadeLeavesNoOrphans(pats: seq<Patient>, ps: seq<Prescription>, pid: int)
    requires forall i :: 0 <= i < |ps| ==> PatientExists(pats, ps[i].patientId)
    ensures var pats', ps' := Filter(pats, LacksPatientId(pid)), Filter(ps, NotForPatientId(pid));
      forall i :: 0 <= i < |ps'| ==> PatientExists(pats', ps'[i].patientId)
  {
    var pats', ps' := Filter(pats, LacksPatientId(pid)), Filter(ps, NotForPatientId(pid));
    forall i | 0 <= i < |ps'| ensures PatientExists(pats', ps'[i].patientId) {
      var j :| 0 <= j < |ps| && ps[j] == ps'[i];
      var k :| 0 <= k < |pats| && pats[k].id == ps'[i].patientId;
      assert pats[k] in pats';
    }
  }

  lemma RemovePatientKeepsConsistent(st: HealthState, idLine: Option<string>, confirmLine: Option<string>)
    requires Consistent(st)
    ensures Consistent(RemovePatient(st, idLine, confirmLine).state)
  {
    var r := RemovePatient(st, idLine, confirmLine);
    if r.report.PatientRemoved? {
      var pid := TryParseLine(idLine).value;
      RemovePatientCascades(st, idLine, confirmLine);
      FilterDistinctKeys(st.patients, LacksPatientId(pid), PatientKey);
      FilterDistinctKeys(st.prescriptions, NotForPatientId(pid), PrescriptionKey);
      CascadeLeavesNoOrphans(st.patients, st.prescriptions, pid);
      assert NoOrphans(r.state);
    }
  }

  /** Dropping the prescriptions with one id, and rebuilding the map, keeps the state
      consistent. */
  lemma DropPrescriptionKeepsConsistent(st: HealthState, id: int)
    requires Consistent(st)
    ensures var ps := Filter(st.prescriptions, LacksPrescriptionId(id));
      Consistent(HealthState(st.patients, ps, BuildPrescriptionMap(ps)))
  {
    var ps := Filter(st.prescriptions, LacksPrescriptionId(id));
    FilterDistinctKeys(st.prescriptions, LacksPrescriptionId(id), PrescriptionKey);
    forall i | 0 <= i < |ps| ensures PatientExists(st.patients, ps[i].patientId) {
      var j :| 0 <= j < |st.prescriptions| && st.prescriptions[j] == ps[i];
    }
  }

  lemma RemovePrescriptionKeepsConsistent(st: HealthState, idLine: Option<string>, confirmLine: Option<string>)
    requires Consistent(st)
    ensures Consistent(RemovePrescription(st, idLine, confirmLine).state)
  {
    var r := RemovePrescription(st, idLine, confirmLine);
    if r.report.PrescriptionRemoved? {
      var id := TryParseLine(idLine).value;
      RemovePrescriptionRemovesOnlyMatch(st, idLine, confirmLine);
      DropPrescriptionKeepsConsistent(st, id);
    }
  }

  // ---------------------------------------------------------------------------
  // What id-only equality does when ids repeat
  // ---------------------------------------------------------------------------

  /** `p => p.Name == name`. */
  function HasName(name: string): Patient -> bool { (p: Patient) => p.name == name }

  /** `Remove` with a predicate that is not about the id: the first match is the second
      patient, but `List.Remove` deletes the first patient `Equals` to it, which is the
      earlier one with the same id. */
  lemma RemoveDeletesEarlierPatientWithSameId()
    ensures var ann, john := Patient(1, "Ann Lee", 30, "Female"), Patient(1, "John Doe", 35, "Male");
      Repository.Remove([ann, john], HasName("John Doe"), PatientEquals) == Repository.Removal(true, [john])
  {
    var ann, john := Patient(1, "Ann Lee", 30, "Female"), Patient(1, "John Doe", 35, "Male");
    var xs := [ann, john];
    assert ann.name != john.name;
    assert xs[1..] == [john];
    assert Repository.FirstIndex(xs, HasName("John Doe")) == Some(1);
    assert Repository.FirstIndex(xs, y => PatientEquals(y, john)) == Some(0);
    assert xs[..0] + xs[1..] == [john];
  }

  /** Were two prescriptions to share an id, the cascade would delete the wrong one: the
      other patient's prescription goes and the removed patient's prescription stays.
      `AddNewPrescription` refuses a used id, so the application never gets there. */
  lemma CascadeWithRepeatedIdsLeavesOrphan(other: Prescription, own: Prescription, pid: int)
    requires other.id == own.id && other.patientId != pid && own.patientId == pid
    ensures !UniquePrescriptionIds([other, own])
    ensures ForPatient([other, own], pid) == [own]
    ensures Cascade([other, own], ForPatient([other, own], pid)) == ([own], 1)
  {
    var ps := [other, own];
    assert PrescriptionKey(ps[0]) == PrescriptionKey(ps[1]);
    assert ps[1..] == [own] && [own][1..] == [];
    assert Filter([own], ForPatientId(pid)) == [own] + Filter([own][1..], ForPatientId(pid));
    assert Repository.FirstIndex(ps, HasPrescriptionId(own.id)) == Some(0);
    assert Repository.FirstIndex(ps, y => PrescriptionEquals(y, other)) == Some(0);
    assert ps[..0] + ps[1..] == [own];
  }
}
