/** Concrete runs of the store, in the order an administrator would click. */
module Scenarios {
  import opened Wrappers
  import opened Records
  import opened Store

  /** Adding the same email twice stores one row; a prediction saved for a
      patient survives the patient's deletion once the patient's email has
      been changed, because the cascade of `delete_patient` goes by the
      current email. */
  method OrphanedPrediction(hash: string -> string)
    returns (firstAdd: bool, secondAdd: bool, updated: bool, patientsLeft: nat,
             predictionsLeft: nat)
    ensures firstAdd && !secondAdd && updated
    ensures patientsLeft == 0 && predictionsLeft == 1
  {
    var store := new PatientStore(hash);
    firstAdd := store.AddPatient("Asha", "asha@a.in", "Female", "98", "pw");
    assert store.patients[0].email == "asha@a.in";
    secondAdd := store.AddPatient("Ravi", "asha@a.in", "Male", "97", "pw2");
    store.SavePrediction("asha@a.in", "Diabetes", "Diabetic");
    updated := store.UpdatePatient(1, "Asha", "asha@b.in", "Female", "98");
    assert store.patients[0].email == "asha@b.in";
    store.DeletePatient(1);
    assert store.predictions[0] in WithoutEmail([store.predictions[0]], "asha@b.in");
    patientsLeft := |store.patients|;
    predictionsLeft := |store.predictions|;
  }

  /** The aggregate after two Diabetes predictions and one Heart Disease
      prediction. */
  method DistributionOfThree(hash: string -> string) returns (rows: seq<DiseaseCount>, total: nat)
    ensures CountIn(rows, "Diabetes") == 2 && CountIn(rows, "Heart Disease") == 1
    ensures total == 3
  {
    var store := new PatientStore(hash);
    store.SavePrediction("a@b.co", "Diabetes", "Diabetic");
    store.SavePrediction("c@d.co", "Heart Disease", "Heart Disease");
    store.SavePrediction("a@b.co", "Diabetes", "Diabetic");
    var qs := store.predictions;
    rows := store.DiseaseDistribution();
    total := Total(rows);
    assert qs[..2][..1] == qs[..1] && qs[..1][..0] == [];
    assert Count(qs[..1], "Diabetes") == 1 && Count(qs[..1], "Heart Disease") == 0;
    assert Count(qs[..2], "Diabetes") == 1 && Count(qs[..2], "Heart Disease") == 1;
    assert qs[..|qs| - 1] == qs[..2];
  }
}
