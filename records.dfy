/** The rows of the two tables `create_patient_table` creates, and the table
    operations the SQL statements of the store perform, as functions on
    sequences of rows kept in rowid order. */
module Records {
  import opened Wrappers

  /** A row of `patients`: `id INTEGER PRIMARY KEY`, `email UNIQUE`; the
      `password` column holds the hash, never the password itself. */
  datatype Patient = Patient(id: nat, name: string, email: string, gender: string,
                             phone: string, password: string)

  /** A row of `SELECT id, name, email, gender, phone FROM patients`. */
  datatype PatientView = PatientView(id: nat, name: string, email: string, gender: string,
                                     phone: string)

  /** A row of `predictions`. */
  datatype Prediction = Prediction(id: nat, email: string, disease: string, result: string)

  /** A row of `SELECT disease, COUNT(*) as count FROM predictions GROUP BY disease`. */
  datatype DiseaseCount = DiseaseCount(disease: string, count: nat)

  // ------------------------------------------------------------ table invariants

  /** A rowid table is read back in increasing rowid order. */
  ghost predicate PatientIdsIncreasing(ps: seq<Patient>) {
    forall i, j :: 0 <= i < j < |ps| ==> ps[i].id < ps[j].id
  }

  ghost predicate PredictionIdsIncreasing(qs: seq<Prediction>) {
    forall i, j :: 0 <= i < j < |qs| ==> qs[i].id < qs[j].id
  }

  /** The `UNIQUE` constraint on `patients.email`. */
  ghost predicate EmailsUnique(ps: seq<Patient>) {
    forall i, j :: 0 <= i < j < |ps| ==> ps[i].email != ps[j].email
  }

  ghost predicate EmailTaken(ps: seq<Patient>, email: string) {
    exists i :: 0 <= i < |ps| && ps[i].email == email
  }

  ghost predicate HasPatientId(ps: seq<Patient>, id: nat) {
    exists i :: 0 <= i < |ps| && ps[i].id == id
  }

  // ------------------------------------------------------------------ rowids

  /** The rowid SQLite gives an inserted row that names no id: one more than
      the largest rowid in the table, and 1 in an empty table. */
  function NextPatientId(ps: seq<Patient>): (id: nat)
    ensures id >= 1
    ensures PatientIdsIncreasing(ps) ==> forall i :: 0 <= i < |ps| ==> ps[i].id < id
  {
    if ps == [] then 1 else ps[|ps| - 1].id + 1
  }

  function NextPredictionId(qs: seq<Prediction>): (id: nat)
    ensures id >= 1
    ensures PredictionIdsIncreasing(qs) ==> forall i :: 0 <= i < |qs| ==> qs[i].id < id
  {
    if qs == [] then 1 else qs[|qs| - 1].id + 1
  }

  // --------------------------------------------------------------- lookups

  /** `SELECT email FROM patients WHERE id=?` followed by `fetchone()`. */
  function EmailOfId(ps: seq<Patient>, id: nat): (r: Option<string>)
    ensures r.None? <==> !HasPatientId(ps, id)
    ensures r.Some? ==> exists i :: 0 <= i < |ps| && ps[i].id == id && ps[i].email == r.value
  {
    if ps == [] then None
    else if ps[0].id == id then Some(ps[0].email)
    else
      var rest := EmailOfId(ps[1..], id);
      assert forall i :: 1 <= i < |ps| ==> ps[i] == ps[1..][i - 1];
      rest
  }

  /** `SELECT * FROM patients WHERE email=? AND password=?` returns a row. */
  function HasCredential(ps: seq<Patient>, email: string, digest: string): (found: bool)
    ensures found <==> exists i :: 0 <= i < |ps| && ps[i].email == email && ps[i].password == digest
  {
    if ps == [] then false
    else if ps[0].email == email && ps[0].password == digest then true
    else
      var rest := HasCredential(ps[1..], email, digest);
      assert forall i :: 1 <= i < |ps| ==> ps[i] == ps[1..][i - 1];
      rest
  }

  // ------------------------------------------------------------- deletions

  /** `DELETE FROM patients WHERE id=?`. */
  function WithoutPatient(ps: seq<Patient>, id: nat): (r: seq<Patient>)
    ensures |r| <= |ps|
    ensures forall p :: p in r <==> p in ps && p.id != id
  {
    if ps == [] then []
    else (if ps[0].id == id then [] else [ps[0]]) + WithoutPatient(ps[1..], id)
  }

  /** `DELETE FROM predictions WHERE email=?`. */
  function WithoutEmail(qs: seq<Prediction>, email: string): (r: seq<Prediction>)
    ensures |r| <= |qs|
    ensures forall q :: q in r <==> q in qs && q.email != email
  {
    if qs == [] then []
    else (if qs[0].email == email then [] else [qs[0]]) + WithoutEmail(qs[1..], email)
  }

  /** Deleting rows keeps the remaining rows in rowid order. */
  lemma {:induction false} WithoutPatientKeepsOrder(ps: seq<Patient>, id: nat)
    requires PatientIdsIncreasing(ps)
    ensures PatientIdsIncreasing(WithoutPatient(ps, id))
  {
    if ps != [] {
      var rest := WithoutPatient(ps[1..], id);
      WithoutPatientKeepsOrder(ps[1..], id);
      forall p | p in rest ensures ps[0].id < p.id {
        var k :| 0 <= k < |ps[1..]| && ps[1..][k] == p;
        assert ps[k + 1] == p;
      }
      HeadBeforePatients(ps[0], rest, ps[0].id == id);
    }
  }

  lemma HeadBeforePatients(p: Patient, rest: seq<Patient>, drop: bool)
    requires PatientIdsIncreasing(rest)
    requires forall r | r in rest :: p.id < r.id
    ensures PatientIdsIncreasing((if drop then [] else [p]) + rest)
  {
    var s := (if drop then [] else [p]) + rest;
    if !drop {
      forall i, j | 0 <= i < j < |s| ensures s[i].id < s[j].id {
        assert s[j] == rest[j - 1];
        if i > 0 {
          assert s[i] == rest[i - 1];
        } else {
          assert rest[j - 1] in rest;
        }
      }
    } else {
      assert s == rest;
    }
  }

  /** Deleting patients keeps the emails unique. */
  lemma {:induction false} WithoutPatientKeepsEmailsUnique(ps: seq<Patient>, id: nat)
    requires EmailsUnique(ps)
    ensures EmailsUnique(WithoutPatient(ps, id))
  {
    if ps != [] {
      var rest := WithoutPatient(ps[1..], id);
      WithoutPatientKeepsEmailsUnique(ps[1..], id);
      forall p | p in rest ensures ps[0].email != p.email {
        var k :| 0 <= k < |ps[1..]| && ps[1..][k] == p;
        assert ps[k + 1] == p;
      }
      HeadKeepsEmailsUnique(ps[0], rest, ps[0].id == id);
    }
  }

  lemma HeadKeepsEmailsUnique(p: Patient, rest: seq<Patient>, drop: bool)
    requires EmailsUnique(rest)
    requires forall r | r in rest :: p.email != r.email
    ensures EmailsUnique((if drop then [] else [p]) + rest)
  {
    var s := (if drop then [] else [p]) + rest;
    if !drop {
      forall i, j | 0 <= i < j < |s| ensures s[i].email != s[j].email {
        assert s[j] == rest[j - 1];
        if i > 0 {
          assert s[i] == rest[i - 1];
        } else {
          assert rest[j - 1] in rest;
        }
      }
    } else {
      assert s == rest;
    }
  }

  lemma {:induction false} WithoutEmailKeepsOrder(qs: seq<Prediction>, email: string)
    requires PredictionIdsIncreasing(qs)
    ensures PredictionIdsIncreasing(WithoutEmail(qs, email))
  {
    if qs != [] {
      var rest := WithoutEmail(qs[1..], email);
      WithoutEmailKeepsOrder(qs[1..], email);
      forall q | q in rest ensures qs[0].id < q.id {
        var k :| 0 <= k < |qs[1..]| && qs[1..][k] == q;
        assert qs[k + 1] == q;
      }
      HeadBeforePredictions(qs[0], rest, qs[0].email == email);
    }
  }

  lemma HeadBeforePredictions(q: Prediction, rest: seq<Prediction>, drop: bool)
    requires PredictionIdsIncreasing(rest)
    requires forall r | r in rest :: q.id < r.id
    ensures PredictionIdsIncreasing((if drop then [] else [q]) + rest)
  {
    var s := (if drop then [] else [q]) + rest;
    if !drop {
      forall i, j | 0 <= i < j < |s| ensures s[i].id < s[j].id {
        assert s[j] == rest[j - 1];
        if i > 0 {
          assert s[i] == rest[i - 1];
        } else {
          assert rest[j - 1] in rest;
        }
      }
    } else {
      assert s == rest;
    }
  }

  /** In a table with increasing ids, deleting a present id removes exactly
      one row. */
  lemma {:induction false} WithoutPresentPatient(ps: seq<Patient>, id: nat)
    requires PatientIdsIncreasing(ps) && HasPatientId(ps, id)
    ensures |WithoutPatient(ps, id)| == |ps| - 1
  {
    if ps[0].id == id {
      forall i | 0 <= i < |ps[1..]| ensures ps[1..][i].id != id {
        assert ps[1..][i] == ps[i + 1];
      }
      WithoutAbsentPatient(ps[1..], id);
    } else {
      var k :| 0 <= k < |ps| && ps[k].id == id;
      assert ps[1..][k - 1].id == id;
      WithoutPresentPatient(ps[1..], id);
    }
  }

  /** Deleting an id that no row has changes nothing. */
  lemma {:induction false} WithoutAbsentPatient(ps: seq<Patient>, id: nat)
    requires !HasPatientId(ps, id)
    ensures WithoutPatient(ps, id) == ps
  {
    if ps != [] {
      assert ps[0].id != id;
      assert !HasPatientId(ps[1..], id) by {
        forall i | 0 <= i < |ps[1..]| ensures ps[1..][i].id != id {
          assert ps[1..][i] == ps[i + 1];
        }
      }
      WithoutAbsentPatient(ps[1..], id);
      assert [ps[0]] + ps[1..] == ps;
    }
  }

  // ---------------------------------------------------------------- update

  /** `UPDATE patients SET name=?, email=?, gender=?, phone=? WHERE id=?`,
      when no constraint is violated. */
  function UpdatedPatients(ps: seq<Patient>, id: nat, name: string, email: string,
                           gender: string, phone: string): (r: seq<Patient>)
    ensures |r| == |ps|
    ensures forall i :: 0 <= i < |ps| ==> r[i].id == ps[i].id && r[i].password == ps[i].password
    ensures forall i :: 0 <= i < |ps| && ps[i].id != id ==> r[i] == ps[i]
    ensures forall i :: 0 <= i < |ps| && ps[i].id == id ==>
      r[i].name == name && r[i].email == email && r[i].gender == gender && r[i].phone == phone
  {
    seq(|ps|, i requires 0 <= i < |ps| =>
      if ps[i].id == id then ps[i].(name := name, email := email, gender := gender, phone := phone)
      else ps[i])
  }

  /** The update makes two rows share an email: some row has the id and
      another row already holds the new email. */
  ghost predicate UpdateViolatesUnique(ps: seq<Patient>, id: nat, email: string) {
    HasPatientId(ps, id) && exists j :: 0 <= j < |ps| && ps[j].id != id && ps[j].email == email
  }

  /** An update that the constraint lets through keeps emails unique and ids
      in order. */
  lemma UpdateKeepsInvariant(ps: seq<Patient>, id: nat, name: string, email: string,
                             gender: string, phone: string)
    requires PatientIdsIncreasing(ps) && EmailsUnique(ps)
    requires !UpdateViolatesUnique(ps, id, email)
    ensures PatientIdsIncreasing(UpdatedPatients(ps, id, name, email, gender, phone))
    ensures EmailsUnique(UpdatedPatients(ps, id, name, email, gender, phone))
  {
    var r := UpdatedPatients(ps, id, name, email, gender, phone);
    forall i, j | 0 <= i < j < |r| ensures r[i].email != r[j].email {
      if ps[i].id == id {
        assert HasPatientId(ps, id);
        assert ps[j].id != id;
      } else if ps[j].id == id {
        assert HasPatientId(ps, id);
      }
    }
  }

  /** Updating an id that no row has changes nothing. */
  lemma UpdateAbsentIsNoop(ps: seq<Patient>, id: nat, name: string, email: string,
                           gender: string, phone: string)
    requires !HasPatientId(ps, id)
    ensures UpdatedPatients(ps, id, name, email, gender, phone) == ps
  {
  }

  // ----------------------------------------------------------- aggregation

  /** `COUNT(*)` of the predictions of one disease. */
  function Count(qs: seq<Prediction>, disease: string): (n: nat)
    ensures n <= |qs|
    ensures n == 0 <==> forall i :: 0 <= i < |qs| ==> qs[i].disease != disease
  {
    if qs == [] then 0
    else Count(qs[..|qs| - 1], disease) + (if qs[|qs| - 1].disease == disease then 1 else 0)
  }

  /** The diseases that occur, each once, in order of first appearance. */
  function Diseases(qs: seq<Prediction>): (ds: seq<string>)
    ensures forall d :: d in ds <==> Count(qs, d) > 0
    ensures forall i, j :: 0 <= i < j < |ds| ==> ds[i] != ds[j]
  {
    if qs == [] then []
    else
      var front := Diseases(qs[..|qs| - 1]);
      var d := qs[|qs| - 1].disease;
      if d in front then front else front + [d]
  }

  /** The grouped count, one row per disease that has predictions. */
  function Distribution(qs: seq<Prediction>): (rows: seq<DiseaseCount>)
    ensures forall k :: 0 <= k < |rows| ==> rows[k].count >= 1
    ensures forall k :: 0 <= k < |rows| ==> rows[k].count == Count(qs, rows[k].disease)
    ensures forall d :: (exists k :: 0 <= k < |rows| && rows[k].disease == d) <==> Count(qs, d) > 0
  {
    var ds := Diseases(qs);
    var rows := seq(|ds|, k requires 0 <= k < |ds| => DiseaseCount(ds[k], Count(qs, ds[k])));
    assert forall d :: d in ds ==> rows[IndexOf(ds, d)].disease == d;
    rows
  }

  function IndexOf(ds: seq<string>, d: string): (k: nat)
    requires d in ds
    ensures k < |ds| && ds[k] == d
  {
    if ds[0] == d then 0 else 1 + IndexOf(ds[1..], d)
  }

  /** The number a distribution lists for a disease, 0 when it has no row. */
  function CountIn(rows: seq<DiseaseCount>, disease: string): nat {
    if rows == [] then 0
    else if rows[0].disease == disease then rows[0].count
    else CountIn(rows[1..], disease)
  }

  /** The sum of the `count` column. */
  function Total(rows: seq<DiseaseCount>): nat {
    if rows == [] then 0 else Total(rows[..|rows| - 1]) + rows[|rows| - 1].count
  }

  /** Saving a prediction adds one to the count of its disease and to no other. */
  lemma CountAfterAppend(qs: seq<Prediction>, q: Prediction, disease: string)
    ensures Count(qs + [q], disease) == Count(qs, disease) + (if q.disease == disease then 1 else 0)
  {
    assert (qs + [q])[..|qs|] == qs;
  }

  /** The distribution lists exactly the per-disease count. */
  lemma {:induction false} CountInDistribution(qs: seq<Prediction>, disease: string)
    ensures CountIn(Distribution(qs), disease) == Count(qs, disease)
  {
    var rows := Distribution(qs);
    var ds := Diseases(qs);
    if disease in ds {
      var k := IndexOf(ds, disease);
      CountInFinds(rows, k, disease);
    } else {
      CountInAbsent(rows, disease);
    }
  }

  lemma {:induction false} CountInFinds(rows: seq<DiseaseCount>, k: nat, disease: string)
    requires k < |rows| && rows[k].disease == disease
    requires forall i :: 0 <= i < k ==> rows[i].disease != disease
    ensures CountIn(rows, disease) == rows[k].count
  {
    if k > 0 {
      CountInFinds(rows[1..], k - 1, disease);
    }
  }

  lemma {:induction false} CountInAbsent(rows: seq<DiseaseCount>, disease: string)
    requires forall i :: 0 <= i < |rows| ==> rows[i].disease != disease
    ensures CountIn(rows, disease) == 0
  {
    if rows != [] {
      CountInAbsent(rows[1..], disease);
    }
  }

  /** `save_prediction` raises the charted count of its disease by exactly one
      and leaves every other disease's count as it was. */
  lemma DistributionAfterSave(qs: seq<Prediction>, q: Prediction, disease: string)
    ensures CountIn(Distribution(qs + [q]), disease)
         == CountIn(Distribution(qs), disease) + (if q.disease == disease then 1 else 0)
  {
    CountInDistribution(qs + [q], disease);
    CountInDistribution(qs, disease);
    CountAfterAppend(qs, q, disease);
  }

  /** The sum of the counts over a list of distinct diseases. */
  function SumCounts(qs: seq<Prediction>, ds: seq<string>): nat {
    if ds == [] then 0 else SumCounts(qs, ds[..|ds| - 1]) + Count(qs, ds[|ds| - 1])
  }

  lemma {:induction false} SumCountsAfterAppend(qs: seq<Prediction>, q: Prediction, ds: seq<string>)
    requires forall i, j :: 0 <= i < j < |ds| ==> ds[i] != ds[j]
    ensures SumCounts(qs + [q], ds) == SumCounts(qs, ds) + (if q.disease in ds then 1 else 0)
  {
    if ds != [] {
      var front := ds[..|ds| - 1];
      var last := ds[|ds| - 1];
      SumCountsAfterAppend(qs, q, front);
      CountAfterAppend(qs, q, last);
      assert q.disease in ds <==> q.disease in front || q.disease == last;
      assert last !in front;
    }
  }

  lemma {:induction false} SumCountsOfDiseases(qs: seq<Prediction>)
    ensures SumCounts(qs, Diseases(qs)) == |qs|
  {
    if qs != [] {
      var front := qs[..|qs| - 1];
      var q := qs[|qs| - 1];
      assert qs == front + [q];
      var ds := Diseases(front);
      SumCountsOfDiseases(front);
      SumCountsAfterAppend(front, q, ds);
      if q.disease !in ds {
        var ds' := ds + [q.disease];
        assert ds'[..|ds'| - 1] == ds;
        CountAfterAppend(front, q, q.disease);
      }
    }
  }

  lemma {:induction false} TotalIsSumCounts(qs: seq<Prediction>, ds: seq<string>)
    ensures Total(seq(|ds|, k requires 0 <= k < |ds| => DiseaseCount(ds[k], Count(qs, ds[k]))))
         == SumCounts(qs, ds)
  {
    if ds != [] {
      var rows := seq(|ds|, k requires 0 <= k < |ds| => DiseaseCount(ds[k], Count(qs, ds[k])));
      var front := ds[..|ds| - 1];
      TotalIsSumCounts(qs, front);
      assert rows[..|rows| - 1]
          == seq(|front|, k requires 0 <= k < |front| => DiseaseCount(front[k], Count(qs, front[k])));
    }
  }

  /** The counts of the distribution add up to the number of predictions. */
  lemma DistributionTotal(qs: seq<Prediction>)
    ensures Total(Distribution(qs)) == |qs|
  {
    TotalIsSumCounts(qs, Diseases(qs));
    SumCountsOfDiseases(qs);
  }
}
