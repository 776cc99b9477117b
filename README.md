# Disease prediction app: record store, validation and text handling

This project models the checkable core of `main.py` in a Streamlit app. The app keeps patients and their positive disease predictions in SQLite, logs users in, and asks a text-generation service for advice on a positive result. The model covers:

- **The record store.** The `patients` and `predictions` tables are fields of the class `Store.PatientStore`, held as sequences of rows in rowid order. The store's SQL functions are methods and functions of that class:
  - `add_patient`, `update_patient`, `delete_patient`, `save_prediction` and `clear_all_data`;
  - `get_all_patients`, `get_disease_distribution` and `verify_user`.

  `Valid()` states what the table definitions make SQLite keep true:
  - rowids increase;
  - no two patients share an email (`UNIQUE`).

  SQLite gives a new row one more than the largest rowid, or 1 in an empty table. That is `NextPatientId` / `NextPredictionId`.
- **The pure helpers.**
  - `is_valid_email` is given a meaning as a regular language, `RegexAccepts`. The executable test `HasAddressShape` is proved to decide the pattern's language `MatchesPattern`; `IsValidEmail` adds the one-final-newline allowance of `$` and decides `RegexAccepts`.
  - `remove_emojis` is a per-character filter over the seven listed ranges.
  - `ai_recommendation` cuts the service's reply on `"2."` and `"3."` with Python's `split`, `strip` and `replace`. Module `PyText` models these, and the `in` test of `predict_disease`, with Python's semantics; `split` and `replace` only for a non-empty separator, which is all the source uses. `Replace` is defined as a join of the split pieces.
- **The result label and saving policy of `predict_disease`.** A result is saved, and recommendations are produced, exactly when the classifier answers 1.
- **The two ordered validation chains:** the Add Patient form and the login form.

`hash_password` is a parameter of the store (`hash`). The classifier of the chosen disease and the reply text of the generation service are parameters of `DiseasePrediction.PredictDisease`.

Delete and update interact in a way worth knowing. `delete_patient` deletes predictions by the patient's *current* email. After an email change, the patient's old predictions therefore outlive the patient. `Scenarios.OrphanedPrediction` shows this on concrete rows.

Two behaviours of `main.py` worth knowing:
- `add_patient` returns `True`/`False`, not the new id.
- `update_patient` raises `IntegrityError` and changes nothing when a row with that id exists and another row already holds the new email. The model reports this as `ok == false`.

## Model

| member | source | states |
|---|---|---|
| Store.PatientStore.constructor | multiple-disease-prediction-streamlit-app-main/main.py:33-47 | `create_patient_table` on a new database: both tables empty, invariant established |
| Store.PatientStore.AddPatient | multiple-disease-prediction-streamlit-app-main/main.py:57-67 | succeeds iff no row holds the email. On success it appends exactly one row: the next rowid, the given name/email/gender/phone and `hash(password)`. On failure nothing changes. Predictions are never touched |
| Store.PatientStore.UpdatePatient | multiple-disease-prediction-streamlit-app-main/main.py:99-103 | fails (IntegrityError) iff the id exists and another row holds the new email, and then nothing changes. Otherwise the rows become `UpdatedPatients`: the row with that id holds the new name, email, gender and phone, all other rows are unchanged. Predictions are untouched and the invariant is kept |
| Store.PatientStore.DeletePatient | multiple-disease-prediction-streamlit-app-main/main.py:89-97 | absent id: nothing changes. Present id: the patient row goes, and exactly the predictions carrying that patient's email go |
| Store.PatientStore.SavePrediction | multiple-disease-prediction-streamlit-app-main/main.py:83-87 | appends one (next id, email, disease, result) row; patients untouched |
| Store.PatientStore.ClearAllData | multiple-disease-prediction-streamlit-app-main/main.py:105-109 | both tables empty afterwards |
| Store.PatientStore.AllPatients | multiple-disease-prediction-streamlit-app-main/main.py:69-70 | one row per patient in rowid order, without the password column; ids increasing and emails distinct |
| Store.PatientStore.DiseaseDistribution | multiple-disease-prediction-streamlit-app-main/main.py:72-73 | the count listed for every disease is its number of predictions, only diseases with predictions are listed (every count at least 1), and the counts add up to the number of predictions |
| Store.PatientStore.VerifyUser | multiple-disease-prediction-streamlit-app-main/main.py:75-81 | admin iff the literal admin pair. Otherwise user iff some row has that email and `hash(password)`. Otherwise none |
| Store.HasEmail | multiple-disease-prediction-streamlit-app-main/main.py:38 | true iff some row holds the email (the `UNIQUE` lookup) |
| Store.ViolatesUnique | multiple-disease-prediction-streamlit-app-main/main.py:38 | decides `UpdateViolatesUnique`: the row exists and another row holds the email |
| Store.HeldByOther | multiple-disease-prediction-streamlit-app-main/main.py:101-102 | true iff a row with a different id holds the email |
| Store.AppendKeepsInvariant | multiple-disease-prediction-streamlit-app-main/main.py:36-38 | a row with the next rowid and a fresh email keeps ids increasing and emails unique |
| Store.AppendPredictionKeepsOrder | multiple-disease-prediction-streamlit-app-main/main.py:43 | a prediction with the next rowid keeps prediction ids increasing |
| Records.NextPatientId | multiple-disease-prediction-streamlit-app-main/main.py:36 | at least 1 and larger than every id in an increasing table |
| Records.NextPredictionId | multiple-disease-prediction-streamlit-app-main/main.py:43 | at least 1 and larger than every id in an increasing table |
| Records.EmailOfId | multiple-disease-prediction-streamlit-app-main/main.py:91-94 | none iff no row has the id; otherwise the email of a row with that id |
| Records.HasCredential | multiple-disease-prediction-streamlit-app-main/main.py:78-81 | true iff some row has both that email and that stored hash |
| Records.WithoutPatient | multiple-disease-prediction-streamlit-app-main/main.py:96 | keeps exactly the rows whose id differs |
| Records.WithoutEmail | multiple-disease-prediction-streamlit-app-main/main.py:95 | keeps exactly the predictions whose email differs |
| Records.WithoutPatientKeepsOrder | multiple-disease-prediction-streamlit-app-main/main.py:96 | deleting keeps rowids increasing |
| Records.WithoutPatientKeepsEmailsUnique | multiple-disease-prediction-streamlit-app-main/main.py:96 | deleting keeps emails unique |
| Records.WithoutEmailKeepsOrder | multiple-disease-prediction-streamlit-app-main/main.py:95 | deleting predictions keeps their ids increasing |
| Records.WithoutPresentPatient | multiple-disease-prediction-streamlit-app-main/main.py:96 | deleting a present id removes exactly one row |
| Records.WithoutAbsentPatient | multiple-disease-prediction-streamlit-app-main/main.py:96 | deleting an absent id changes nothing |
| Records.UpdatedPatients | multiple-disease-prediction-streamlit-app-main/main.py:101-102 | same length; the row with that id takes the new name, email, gender and phone and keeps its id and stored password; rows with other ids unchanged |
| Records.UpdateKeepsInvariant | multiple-disease-prediction-streamlit-app-main/main.py:99-103 | an update the constraint lets through keeps ids increasing and emails unique |
| Records.UpdateAbsentIsNoop | multiple-disease-prediction-streamlit-app-main/main.py:101-102 | updating an absent id changes nothing |
| Records.Count | multiple-disease-prediction-streamlit-app-main/main.py:73 | the `COUNT(*)` of one disease: at most the number of predictions, and 0 iff no prediction is of that disease |
| Records.Diseases | multiple-disease-prediction-streamlit-app-main/main.py:73 | each disease with at least one prediction, listed once |
| Records.Distribution | multiple-disease-prediction-streamlit-app-main/main.py:73 | a row for a disease iff it has predictions; each row's count is that disease's count, hence at least 1 |
| Records.CountAfterAppend | multiple-disease-prediction-streamlit-app-main/main.py:83-87 | appending a prediction adds one to its disease's count and nothing to others |
| Records.CountInDistribution | multiple-disease-prediction-streamlit-app-main/main.py:72-73 | the distribution lists every disease's count (0 when it has no row) |
| Records.DistributionAfterSave | multiple-disease-prediction-streamlit-app-main/main.py:72-73 | after `save_prediction` the charted count of that disease is one higher and every other count is unchanged |
| Records.SumCountsAfterAppend | multiple-disease-prediction-streamlit-app-main/main.py:73 | over distinct diseases, one more prediction adds one to the sum iff its disease is listed |
| Records.SumCountsOfDiseases | multiple-disease-prediction-streamlit-app-main/main.py:73 | the per-disease counts over all diseases add up to the number of predictions |
| Records.TotalIsSumCounts | multiple-disease-prediction-streamlit-app-main/main.py:73 | the `count` column sums to those per-disease counts |
| Records.DistributionTotal | multiple-disease-prediction-streamlit-app-main/main.py:72-73 | the counts of the distribution add up to the number of predictions |
| Scenarios.OrphanedPrediction | multiple-disease-prediction-streamlit-app-main/main.py:57-103 | a second add with the same email fails. After an email update and a delete, no patient is left but the prediction remains |
| Scenarios.DistributionOfThree | multiple-disease-prediction-streamlit-app-main/main.py:72-87 | two Diabetes and one Heart Disease prediction chart as 2 and 1, total 3 |
| EmailFormat.RegexAccepts | multiple-disease-prediction-streamlit-app-main/main.py:54-55 | the strings `re.match` accepts with the pattern: the pattern's language, or a member of it followed by one final newline; every such string has at least 5 characters |
| EmailFormat.HasAddressShape | multiple-disease-prediction-streamlit-app-main/main.py:54 | the executable shape test; whatever it accepts has at least 5 characters and ends in a `\w` character |
| EmailFormat.IsValidEmail | multiple-disease-prediction-streamlit-app-main/main.py:53-55 | true iff `re.match` with the pattern succeeds: the string, or the string without one final newline, is in the pattern's language |
| EmailFormat.ShapeIffPattern | multiple-disease-prediction-streamlit-app-main/main.py:54 | the first-`@` / last-`.` shape test accepts exactly the pattern's language |
| EmailFormat.ShapeSound | multiple-disease-prediction-streamlit-app-main/main.py:54 | a string passing the shape test has a cut of the pattern |
| EmailFormat.ShapeComplete | multiple-disease-prediction-streamlit-app-main/main.py:54 | every cut of the pattern passes the shape test |
| EmailFormat.CutAtIsFirstAt | multiple-disease-prediction-streamlit-app-main/main.py:54 | the `@` of any cut is the first `@` |
| EmailFormat.CutDotIsLastDot | multiple-disease-prediction-streamlit-app-main/main.py:54 | the `.` of any cut is the last `.` of the domain |
| EmailFormat.PatternEndsInWord | multiple-disease-prediction-streamlit-app-main/main.py:54 | a string in the language ends in a `\w` character |
| EmailFormat.FirstIndex | multiple-disease-prediction-streamlit-app-main/main.py:54 | the first position of a character, or none if absent |
| EmailFormat.LastIndex | multiple-disease-prediction-streamlit-app-main/main.py:54 | the last position of a character, or none if absent |
| Emoji.EmojiClassIsThreeIntervals | multiple-disease-prediction-streamlit-app-main/main.py:146-154 | the seven ranges cover exactly [U+24C2, U+1F251] ∪ [U+1F300, U+1F64F] ∪ [U+1F680, U+1F6FF] |
| Emoji.RemoveEmojis | multiple-disease-prediction-streamlit-app-main/main.py:145-155 | no character of the class is left, and the result is no longer than the input |
| Emoji.RemoveEmojisKeepsOthers | multiple-disease-prediction-streamlit-app-main/main.py:155 | every character outside the class keeps its number of occurrences |
| Emoji.RemoveEmojisAppend | multiple-disease-prediction-streamlit-app-main/main.py:155 | removal distributes over concatenation, so kept characters stay in order |
| Emoji.RemoveEmojisKeepsCleanText | multiple-disease-prediction-streamlit-app-main/main.py:155 | text without class characters is returned unchanged |
| Emoji.RemoveEmojisIdempotent | multiple-disease-prediction-streamlit-app-main/main.py:155 | removing twice is removing once |
| Recommendation.MedicinesOf | multiple-disease-prediction-streamlit-app-main/main.py:134 | the medicines expression gives a stripped text, and a line without "1." is only stripped |
| Recommendation.SplitSections | multiple-disease-prediction-streamlit-app-main/main.py:134-140 | sections exist iff the reply contains both "2." and "3.". The exercise section contains neither marker, and the diet section contains no "3." |
| Recommendation.RecommendationText | multiple-disease-prediction-streamlit-app-main/main.py:130-143 | the error text "Gemini Error: list index out of range" is returned iff a marker is missing |
| Recommendation.NumberedReplyRoundTrip | multiple-disease-prediction-streamlit-app-main/main.py:126-140 | a reply laid out as the prompt's numbered list is cut back into exactly its sections, when they are stripped and hold none of the markers they are cut on (the diet may hold "2.") |
| Recommendation.PiecesRoundTrip | multiple-disease-prediction-streamlit-app-main/main.py:134-140 | each of the three expressions gives back its section of a numbered reply |
| Recommendation.SplitReplyOnTwo | multiple-disease-prediction-streamlit-app-main/main.py:134 | `split('2.')` of a numbered reply cuts first at the list's own "2." |
| Recommendation.SplitReplyOnThree | multiple-disease-prediction-streamlit-app-main/main.py:140 | `split('3.')` of a numbered reply gives the two expected pieces |
| Recommendation.ExercisePiece | multiple-disease-prediction-streamlit-app-main/main.py:137 | the piece after the list's "2.", cut on "3.", is the exercise line whatever the diet holds |
| Recommendation.MedicinesRoundTrip | multiple-disease-prediction-streamlit-app-main/main.py:134 | strip, delete "1.", strip gives back the medicines line |
| Recommendation.ReplaceMarker | multiple-disease-prediction-streamlit-app-main/main.py:134 | `("1." + rest).replace("1.", "")` is `rest` when `rest` holds no "1." |
| Recommendation.SplitAtFirst | multiple-disease-prediction-streamlit-app-main/main.py:134-140 | `(x + m + y).split(m)` is `[x]` followed by `y.split(m)` when `x` holds no marker |
| Recommendation.FirstPieceCoversPrefix | multiple-disease-prediction-streamlit-app-main/main.py:137 | the first piece of a split keeps a marker-free prefix whole |
| Recommendation.SplitOnce | multiple-disease-prediction-streamlit-app-main/main.py:134-140 | `(x + m + y).split(m)` is `[x, y]` when neither part holds the marker |
| PyText.Strip | multiple-disease-prediction-streamlit-app-main/main.py:198-206 | the result is the slice after the leading whitespace, only whitespace follows it, and neither of its ends is whitespace |
| PyText.StripEmptyIffBlank | multiple-disease-prediction-streamlit-app-main/main.py:198-206 | `not s.strip()` iff every character is whitespace |
| PyText.StrippedIffUnchanged | multiple-disease-prediction-streamlit-app-main/main.py:134 | `s.strip() == s` iff neither end is whitespace |
| PyText.StripIdempotent | multiple-disease-prediction-streamlit-app-main/main.py:134 | stripping twice is stripping once |
| PyText.StripPadded | multiple-disease-prediction-streamlit-app-main/main.py:134-140 | stripping whitespace padding gives a stripped text back |
| PyText.Contains | multiple-disease-prediction-streamlit-app-main/main.py:309 | `sub in s` is true iff `sub` occurs in `s` |
| PyText.Find | multiple-disease-prediction-streamlit-app-main/main.py:309 | the leftmost occurrence, and none iff the substring does not occur |
| PyText.Split | multiple-disease-prediction-streamlit-app-main/main.py:134-140 | one piece iff the separator is absent, no piece contains the separator, and the first piece is a prefix |
| PyText.JoinSplit | multiple-disease-prediction-streamlit-app-main/main.py:134-140 | joining the pieces with the separator gives the string back |
| PyText.Replace | multiple-disease-prediction-streamlit-app-main/main.py:134 | replacing something absent, or replacing a target by itself, changes nothing |
| PyText.StripKeepsFree | multiple-disease-prediction-streamlit-app-main/main.py:137-140 | stripping cannot create a marker |
| DiseasePrediction.FeatureNames | multiple-disease-prediction-streamlit-app-main/main.py:257-302 | 6, 12 and 22 features for the three diseases |
| DiseasePrediction.Label | multiple-disease-prediction-streamlit-app-main/main.py:268-309 | the result text of each disease, with `"No" not in result` iff the classifier answered 1 |
| DiseasePrediction.PredictDisease | multiple-disease-prediction-streamlit-app-main/main.py:247-319 | given the disease's features, the result label is shown when Predict is pressed. A prediction row is appended, and recommendations produced, iff the classifier answered 1. Patients are untouched |
| Forms.FirstFailedIndex | multiple-disease-prediction-streamlit-app-main/main.py:198-211 | the first failing branch of an `if/elif` chain, none iff all pass |
| Forms.FirstFailure | multiple-disease-prediction-streamlit-app-main/main.py:198-211 | the message of the first failing branch, none iff all pass |
| Forms.ValidEmailNotBlank | multiple-disease-prediction-streamlit-app-main/main.py:200-203 | an email the pattern accepts is never blank |
| Forms.AddPatientChecks | multiple-disease-prediction-streamlit-app-main/main.py:198-209 | six checks; the format check fails iff the pattern rejects the email, and it fails whenever the "Email is required." check does |
| Forms.AddPatientMessages | multiple-disease-prediction-streamlit-app-main/main.py:198-209 | the message shown, in the source's order: "Name is required.", "Email is required.", "Invalid email format.", "Please select a valid gender.", "Mobile number is required.", "Password is required.", each when the earlier checks pass and its own fails |
| Forms.AddPatientFormAccepts | multiple-disease-prediction-streamlit-app-main/main.py:198-211 | the form reaches `add_patient` iff name and mobile are not blank, the email is valid, a gender is chosen and a password is given |
| Forms.AllPassSix | multiple-disease-prediction-streamlit-app-main/main.py:198-211 | a six-branch chain passes iff each branch passes |
| Forms.BlankNameReportedFirst | multiple-disease-prediction-streamlit-app-main/main.py:198-199 | a blank name is reported whatever else is wrong |
| Forms.SubmitAddPatient | multiple-disease-prediction-streamlit-app-main/main.py:197-211 | a failing check shows its message and changes nothing. Otherwise the outcome of `add_patient`: the success message with one row added, or the duplicate message with no change |
| Forms.Login | multiple-disease-prediction-streamlit-app-main/main.py:341-360 | logged in iff the email is valid, a password is given and `verify_user` finds a role. The role is the one `verify_user` gives; only a patient login stores the email in the session. A refusal shows, in this order: "Email is required." for a blank email, "Please enter a valid email address." for one the pattern rejects, "Password is required.", then "Invalid email or password." |
| Forms.LoginChecks | multiple-disease-prediction-streamlit-app-main/main.py:342-347 | the three checks in order; the format check fails iff the pattern rejects the email, and it fails whenever the blank-email check does |
| Forms.AllPassThree | multiple-disease-prediction-streamlit-app-main/main.py:342-348 | a three-branch chain passes iff each branch passes |
| Forms.AdminLogsIn | multiple-disease-prediction-streamlit-app-main/main.py:76-77 | the literal admin pair logs in as admin whatever the table holds |
| Forms.AdminEmailValid | multiple-disease-prediction-streamlit-app-main/main.py:344 | the admin email passes `is_valid_email` |
| Forms.StoredPatientLogsIn | multiple-disease-prediction-streamlit-app-main/main.py:349-358 | a stored patient with a valid email logs in as a user with the password whose hash is stored, unless that pair is the admin pair |

## Left out

- `app.py`: widget layout and `float()` conversion of text fields feeding the pickled models; it holds no state or logic of its own.
- The pickled classifiers are opaque. `PredictDisease` takes the chosen disease's classifier as a function parameter, and the feature values are reals. The `number_input` bounds are not modelled.
- `hash_password` (SHA-256 through `hashlib`) is a foreign call. The store takes it as the function `hash`, and no property of the digest is used.
- The text-generation call, its prompt and the API key are not modelled. The reply text is an input. Exceptions other than the missing-marker IndexError (network or quota errors) would give other "Gemini Error: ..." texts, and these are not modelled.
- `generate_pdf` is document layout through FPDF and is not modelled. Its latin-1 encoding can fail on characters that `remove_emojis` keeps.
- The pandas DataFrames, the plotly pie chart and the "No patients found." / "No prediction data available." branches are not modelled. `AllPatients` and `DiseaseDistribution` return plain rows.
- SQLite I/O, connection errors and commits are not modelled, and neither is a `patients.db` that already holds rows on start-up: the constructor starts from empty tables. Also not modelled: the random rowid SQLite picks once the largest rowid is 2^63-1.
- Records.Distribution: lists diseases in order of first appearance. `GROUP BY` fixes no row order, so only the count per disease and the total are stated.
- Streamlit session state, reruns, page routing and logout are not modelled, so `PredictDisease` takes the email as a parameter. The source uses `session_state.get("user_email", "admin@gmail.com")`, and logout sets `user_email` to None. An administrator predicting after a logout therefore saves rows with a NULL email, which the model does not capture.
- The view-patients page is not modelled: its widgets, the "Updated successfully." message shown after an update, and the uncaught-exception display when an update hits the `UNIQUE` constraint. `UpdatePatient` reports that case as `ok == false`.
- The first `predict_disease` (lines 239-245) is dead code: the second definition replaces it.
- EmailFormat.IsValidEmail: `\w` is taken as the ASCII letters, digits and `_`. Python's `re` on `str` also counts other Unicode letters and digits as `\w`, so for addresses with such characters the model is stricter than the source.
- Recommendation.NumberedReplyRoundTrip: stated only for sections that are already stripped and hold none of the markers they are cut on. A medicines or exercise section mentioning, say, "2.5 mg" is cut early by the source, and this lemma says nothing about that case.
