/** The record store of the application: the `patients` and `predictions`
    tables of `patients.db`, held in memory, and the functions of `main.py`
    that run SQL statements against them. `hash_password` (SHA-256 of the
    UTF-8 bytes, as hex) is a foreign call and is a parameter of the store. */
module Store {
  import opened Wrappers
  import opened Records

  /** The two roles `verify_user` can report. */
  datatype Role = Admin | User

  const AdminEmail: string := "admin@gmail.com"
  const AdminPassword: string := "admin"

  class PatientStore {
    var patients: seq<Patient>
    var predictions: seq<Prediction>
    /** `hash_password`. */
    const hash: string -> string

    /** What the two table definitions and SQLite maintain: rowids in
        increasing order and no two patients with one email. */
    ghost predicate Valid()
      reads this
    {
      PatientIdsIncreasing(patients) && EmailsUnique(patients)
      && PredictionIdsIncreasing(predictions)
    }

    /** `create_patient_table` on a fresh database file. */
    constructor(hash: string -> string)
      ensures patients == [] && predictions == []
      ensures this.hash == hash
      ensures Valid()
    {
      patients := [];
      predictions := [];
      this.hash := hash;
    }

    /** `add_patient`: inserts a row holding the hashed password, or fails on
        the `UNIQUE` constraint when the email is already stored. */
    method AddPatient(name: string, email: string, gender: string, phone: string,
                      password: string) returns (ok: bool)
      requires Valid()
      modifies this
      ensures Valid()
      ensures ok <==> !EmailTaken(old(patients), email)
      ensures ok ==> (patients == old(patients)
        + [Patient(NextPatientId(old(patients)), name, email, gender, phone, hash(password))])
      ensures !ok ==> patients == old(patients)
      ensures predictions == old(predictions)
    {
      ok := !HasEmail(patients, email);
      if ok {
        var row := Patient(NextPatientId(patients), name, email, gender, phone, hash(password));
        AppendKeepsInvariant(patients, row);
        patients := patients + [row];
      }
    }

    /** `update_patient`: overwrites name, email, gender and phone of the row
        with that id. Giving it an email that another row holds raises
        `IntegrityError` and changes nothing (`ok` is false). */
    method UpdatePatient(id: nat, name: string, email: string, gender: string, phone: string)
      returns (ok: bool)
      requires Valid()
      modifies this
      ensures Valid()
      ensures ok <==> !UpdateViolatesUnique(old(patients), id, email)
      ensures ok ==> patients == UpdatedPatients(old(patients), id, name, email, gender, phone)
      ensures !ok ==> patients == old(patients)
      ensures predictions == old(predictions)
    {
      ok := !ViolatesUnique(patients, id, email);
      if ok {
        UpdateKeepsInvariant(patients, id, name, email, gender, phone);
        patients := UpdatedPatients(patients, id, name, email, gender, phone);
      }
    }

    /** `delete_patient`: looks up the email of the row with that id; if there
        is one, deletes the predictions with that email, then the row. */
    method DeletePatient(id: nat)
      requires Valid()
      modifies this
      ensures Valid()
      ensures match EmailOfId(old(patients), id)
        case None => patients == old(patients) && predictions == old(predictions)
        case Some(email) =>
          && patients == WithoutPatient(old(patients), id)
          && predictions == WithoutEmail(old(predictions), email)
    {
      var row := EmailOfId(patients, id);
      if row.Some? {
        var email := row.value;
        WithoutEmailKeepsOrder(predictions, email);
        predictions := WithoutEmail(predictions, email);
        WithoutPatientKeepsOrder(patients, id);
        WithoutPatientKeepsEmailsUnique(patients, id);
        patients := WithoutPatient(patients, id);
      }
    }

    /** `save_prediction`: appends one row to `predictions`. */
    method SavePrediction(email: string, disease: string, result: string)
      requires Valid()
      modifies this
      ensures Valid()
      ensures predictions == old(predictions)
        + [Prediction(NextPredictionId(old(predictions)), email, disease, result)]
      ensures patients == old(patients)
    {
      var row := Prediction(NextPredictionId(predictions), email, disease, result);
      AppendPredictionKeepsOrder(predictions, row);
      predictions := predictions + [row];
    }

    /** `clear_all_data`: deletes every prediction, then every patient. */
    method ClearAllData()
      requires Valid()
      modifies this
      ensures Valid()
      ensures patients == [] && predictions == []
    {
      predictions := [];
      patients := [];
    }

    /** `get_all_patients`: every row without its password column. */
    function AllPatients(): (rows: seq<PatientView>)
      reads this
      ensures |rows| == |patients|
      ensures forall i :: 0 <= i < |rows| ==>
        rows[i] == PatientView(patients[i].id, patients[i].name, patients[i].email,
                               patients[i].gender, patients[i].phone)
      ensures Valid() ==> forall i, j :: 0 <= i < j < |rows| ==>
        rows[i].id < rows[j].id && rows[i].email != rows[j].email
    {
      ViewRows(patients)
    }

    /** `get_disease_distribution`. */
    function DiseaseDistribution(): (rows: seq<DiseaseCount>)
      reads this
      ensures Total(rows) == |predictions|
      ensures forall d :: CountIn(rows, d) == Count(predictions, d)
      ensures forall k :: 0 <= k < |rows| ==> rows[k].count >= 1
    {
      DistributionTotal(predictions);
      forall d ensures CountIn(Distribution(predictions), d) == Count(predictions, d) {
        CountInDistribution(predictions, d);
      }
      Distribution(predictions)
    }

    /** `verify_user`: the built-in administrator pair is accepted without
        looking at the table; otherwise a patient is recognised by a row with
        that email and the hash of that password. */
    function VerifyUser(email: string, password: string): (role: Option<Role>)
      reads this
      ensures role == Some(Admin) <==> email == AdminEmail && password == AdminPassword
      ensures role == Some(User) <==>
        && !(email == AdminEmail && password == AdminPassword)
        && exists i :: 0 <= i < |patients|
             && patients[i].email == email && patients[i].password == hash(password)
    {
      if email == AdminEmail && password == AdminPassword then Some(Admin)
      else if HasCredential(patients, email, hash(password)) then Some(User)
      else None
    }
  }

  /** `SELECT id, name, email, gender, phone FROM patients`. */
  function ViewRows(ps: seq<Patient>): seq<PatientView> {
    seq(|ps|, i requires 0 <= i < |ps| =>
      PatientView(ps[i].id, ps[i].name, ps[i].email, ps[i].gender, ps[i].phone))
  }

  /** Whether some row holds the email: what the `UNIQUE` index looks up. */
  function HasEmail(ps: seq<Patient>, email: string): (taken: bool)
    ensures taken <==> EmailTaken(ps, email)
  {
    if ps == [] then false
    else if ps[0].email == email then true
    else
      var rest := HasEmail(ps[1..], email);
      assert forall i :: 1 <= i < |ps| ==> ps[i] == ps[1..][i - 1];
      rest
  }

  /** The `UNIQUE` check of an update, as SQLite performs it. */
  function ViolatesUnique(ps: seq<Patient>, id: nat, email: string): (clash: bool)
    ensures clash <==> UpdateViolatesUnique(ps, id, email)
  {
    EmailOfId(ps, id).Some? && HeldByOther(ps, id, email)
  }

  function HeldByOther(ps: seq<Patient>, id: nat, email: string): (held: bool)
    ensures held <==> exists j :: 0 <= j < |ps| && ps[j].id != id && ps[j].email == email
  {
    if ps == [] then false
    else if ps[0].id != id && ps[0].email == email then true
    else
      var rest := HeldByOther(ps[1..], id, email);
      assert forall i :: 1 <= i < |ps| ==> ps[i] == ps[1..][i - 1];
      rest
  }

  /** Inserting a row with the next rowid and a fresh email keeps the
      invariant of the patients table. */
  lemma AppendKeepsInvariant(ps: seq<Patient>, row: Patient)
    requires PatientIdsIncreasing(ps) && EmailsUnique(ps)
    requires row.id == NextPatientId(ps) && !EmailTaken(ps, row.email)
    ensures PatientIdsIncreasing(ps + [row]) && EmailsUnique(ps + [row])
  {
    var s := ps + [row];
    forall i, j | 0 <= i < j < |s| ensures s[i].id < s[j].id && s[i].email != s[j].email {
      assert s[i] == ps[i];
    }
  }

  lemma AppendPredictionKeepsOrder(qs: seq<Prediction>, row: Prediction)
    requires PredictionIdsIncreasing(qs)
    requires row.id == NextPredictionId(qs)
    ensures PredictionIdsIncreasing(qs + [row])
  {
    var s := qs + [row];
    forall i, j | 0 <= i < j < |s| ensures s[i].id < s[j].id {
      assert s[i] == qs[i];
    }
  }
}
