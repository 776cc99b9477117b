/** `predict_disease` (the second definition, which replaces the first): the
    classifier's 0/1 output is turned into a result text, and only a result
    without "No" in it is saved and followed by recommendations. The pickled
    classifiers are parameters: a function from the feature values, in the
    order the form lists them, to the predicted class. */
module DiseasePrediction {
  import opened Wrappers
  import opened PyText
  import opened Records
  import opened Store
  import opened Recommendation

  datatype Disease = Diabetes | HeartDisease | Parkinsons {
    /** The option of the disease select box, which is also what is saved. */
    function Name(): string {
      match this
      case Diabetes => "Diabetes"
      case HeartDisease => "Heart Disease"
      case Parkinsons => "Parkinson's"
    }
  }

  /** The keys of the `inputs` dictionary, in insertion order: the order in
      which `list(inputs.values())` hands the values to the classifier. */
  function FeatureNames(d: Disease): (names: seq<string>)
    ensures |names| == (match d case Diabetes => 6 case HeartDisease => 12 case Parkinsons => 22)
  {
    match d
    case Diabetes => ["Pregnancies", "Glucose", "BloodPressure", "SkinThickness", "Insulin", "BMI"]
    case HeartDisease =>
      ["Sex", "Chest Pain", "RestBP", "Chol", "FBS", "ECG", "MaxHR", "Angina", "Oldpeak",
       "Slope", "CA", "Thal"]
    case Parkinsons =>
      ["Fo", "Fhi", "Flo", "Jitter %", "Jitter Abs", "RAP", "PPQ", "DDP",
       "Shimmer", "Shimmer dB", "APQ3", "APQ5", "APQ", "DDA", "NHR", "HNR",
       "RPDE", "DFA", "Spread1", "Spread2", "D2", "PPE"]
  }

  /** The result text for a predicted class. `"No" not in result` holds
      exactly for the positive labels, so the saving test of `predict_disease`
      is the test `pred == 1`. */
  function Label(d: Disease, predicted: int): (r: string)
    ensures !Contains(r, "No") <==> predicted == 1
  {
    var r := match d
      case Diabetes => if predicted == 1 then "Diabetic" else "Non-Diabetic"
      case HeartDisease => if predicted == 1 then "Heart Disease" else "No Heart Disease"
      case Parkinsons => if predicted == 1 then "Parkinson's" else "No Parkinson's";
    assert predicted == 1 ==> forall k :: 0 <= k < |r| ==> r[k] != 'N';
    assert predicted != 1 ==> OccursAt(r, "No", 0);
    WithoutCapitalN(r);
    r
  }

  lemma WithoutCapitalN(s: string)
    ensures (forall k :: 0 <= k < |s| ==> s[k] != 'N') ==> Free(s, "No")
  {
    forall i | forall k :: 0 <= k < |s| ==> s[k] != 'N'
      ensures !OccursAt(s, "No", i)
    {
      if 0 <= i && i + 2 <= |s| {
        assert s[i..i + 2][0] == s[i];
      }
    }
  }

  /** One run of `predict_disease` for the selected disease. `pressed` is the
      Predict button, `classify` the disease's classifier and `reply` the text
      the generation service returns. */
  method PredictDisease(store: PatientStore, email: string, d: Disease, features: seq<real>,
                        classify: seq<real> -> int, pressed: bool, reply: string)
    returns (result: Option<string>, recommendations: Option<string>)
    requires |features| == |FeatureNames(d)|
    requires store.Valid()
    modifies store
    ensures store.Valid()
    ensures result == (if pressed then Some(Label(d, classify(features))) else None)
    ensures recommendations.Some? <==> pressed && classify(features) == 1
    ensures recommendations.Some? ==> recommendations.value == RecommendationText(reply)
    ensures recommendations.Some? ==> (store.predictions == old(store.predictions)
      + [Prediction(NextPredictionId(old(store.predictions)), email, d.Name(), Label(d, 1))])
    ensures recommendations.None? ==> store.predictions == old(store.predictions)
    ensures store.patients == old(store.patients)
  {
    result := None;
    recommendations := None;
    if pressed {
      var predicted := classify(features);
      result := Some(Label(d, predicted));
    }
    if result.Some? && !Contains(result.value, "No") {
      store.SavePrediction(email, d.Name(), result.value);
      recommendations := Some(RecommendationText(reply));
    }
  }
}
