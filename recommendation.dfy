/** The text handling of `ai_recommendation`: the generated reply is cut into
    three sections on the markers "2." and "3.", and a reply without either
    marker makes the indexing `[1]` raise IndexError, which the function turns
    into an error string. The call to the text-generation service itself is
    not modelled: the reply text is the input. */
module Recommendation {
  import opened Wrappers
  import opened PyText

  datatype Sections = Sections(medicines: string, exercise: string, diet: string)

  const MedicinesHeading: string := "**\U{1F392} Recommended Medicines:**"
  const ExerciseHeading: string := "**\U{1F3CB}\U{FE0F} Exercise Suggestion:**"
  const DietHeading: string := "**\U{1F35C} Indian Diet Tip:**"

  /** `f"Gemini Error: {e}"` for the IndexError `list index out of range`. */
  const MissingMarkerError: string := "Gemini Error: list index out of range"

  /** The three expressions of the f-string:
        medicines = `text.split('2.')[0].strip().replace('1.', '').strip()`
        exercise  = `text.split('2.')[1].split('3.')[0].strip()`
        diet      = `text.split('3.')[1].strip()`
      None when one of the two `[1]` indexings is out of range. */
  function SplitSections(text: string): (r: Option<Sections>)
    ensures r.Some? <==> Contains(text, "2.") && Contains(text, "3.")
    ensures r.Some? ==> Free(r.value.exercise, "2.") && Free(r.value.exercise, "3.")
    ensures r.Some? ==> Free(r.value.diet, "3.")
  {
    var byTwo := Split(text, "2.");
    var byThree := Split(text, "3.");
    if |byTwo| < 2 || |byThree| < 2 then None
    else
      var exercisePiece := Split(byTwo[1], "3.")[0];
      FreeSlice(byTwo[1], "2.", 0, |exercisePiece|);
      StripKeepsFree(exercisePiece, "2.");
      StripKeepsFree(exercisePiece, "3.");
      StripKeepsFree(byThree[1], "3.");
      Some(Sections(MedicinesOf(byTwo[0]), Strip(exercisePiece), Strip(byThree[1])))
  }

  /** The medicines section from the text before the first "2.". */
  function MedicinesOf(first: string): (r: string)
    ensures Stripped(r)
    ensures Free(first, "1.") ==> r == Strip(first)
  {
    UnnumberedLine(first);
    Strip(Replace(Strip(first), "1.", ""))
  }

  /** A line without "1." is only stripped. */
  lemma UnnumberedLine(first: string)
    ensures Free(first, "1.") ==> Strip(Replace(Strip(first), "1.", "")) == Strip(first)
  {
    if Free(first, "1.") {
      StripKeepsFree(first, "1.");
      StripIdempotent(first);
    }
  }

  /** The markdown text `ai_recommendation` returns for a given reply. */
  function RecommendationText(reply: string): (r: string)
    ensures r == MissingMarkerError <==> !(Contains(reply, "2.") && Contains(reply, "3."))
  {
    match SplitSections(reply)
    case None => MissingMarkerError
    case Some(s) =>
      var r := "\n" + MedicinesHeading + "\n" + s.medicines + "\n\n"
        + ExerciseHeading + "\n" + s.exercise + "\n\n"
        + DietHeading + "\n" + s.diet + "\n";
      assert r[0] != MissingMarkerError[0];
      r
  }

  // ------------------------------------------------ the reply the prompt asks for

  /** A reply laid out as the prompt's numbered list asks:
      "1. <medicines>\n2. <exercise>\n3. <diet>". */
  function NumberedReply(medicines: string, exercise: string, diet: string): string {
    "1. " + medicines + "\n" + "2." + " " + exercise + "\n" + "3." + " " + diet
  }

  /** Splitting a reply laid out as the prompt asks gives back its three
      sections, provided they are already stripped and do not hold the
      markers the source cuts them on: the medicines no "1.", "2." or "3.",
      the exercise no "2." or "3.", the diet no "3." (a "2." in the diet is
      harmless, since the diet is cut only on "3."). */
  lemma NumberedReplyRoundTrip(medicines: string, exercise: string, diet: string)
    requires Stripped(medicines) && Stripped(exercise) && Stripped(diet)
    requires Free(medicines, "1.") && Free(medicines, "2.") && Free(medicines, "3.")
    requires Free(exercise, "2.") && Free(exercise, "3.")
    requires Free(diet, "3.")
    ensures SplitSections(NumberedReply(medicines, exercise, diet))
         == Some(Sections(medicines, exercise, diet))
  {
    var a, b, c := medicines, exercise, diet;
    SplitReplyOnTwo(a, b, c);
    SplitReplyOnThree(a, b, c);
    PiecesRoundTrip(a, b, c);
    SectionsOfTwoSplits(NumberedReply(a, b, c), a, b, c);
  }

  lemma PiecesRoundTrip(a: string, b: string, c: string)
    requires Stripped(a) && Stripped(b) && Stripped(c)
    requires Free(a, "1.") && Free(b, "2.") && Free(b, "3.")
    ensures MedicinesOf("1. " + a + "\n") == a
    ensures Strip(Split(Split(" " + b + "\n" + "3." + " " + c, "2.")[0], "3.")[0]) == b
    ensures Strip(" " + c) == c
  {
    ExercisePiece(b, c);
    StripPadded(" ", b, "\n");
    StripSpaceBefore(c);
    MedicinesRoundTrip(a);
  }

  /** `SplitSections` when each marker occurs and the three expressions give
      the three sections. */
  lemma SectionsOfTwoSplits(text: string, a: string, b: string, c: string)
    ensures (&& |Split(text, "2.")| >= 2 && |Split(text, "3.")| >= 2
             && MedicinesOf(Split(text, "2.")[0]) == a
             && Strip(Split(Split(text, "2.")[1], "3.")[0]) == b
             && Strip(Split(text, "3.")[1]) == c)
      ==> SplitSections(text) == Some(Sections(a, b, c))
  {
  }

  /** Cutting a numbered reply on "2." cuts first at the list's own "2.". */
  lemma SplitReplyOnTwo(a: string, b: string, c: string)
    requires Free(a, "2.")
    ensures Split(NumberedReply(a, b, c), "2.")
         == ["1. " + a + "\n"] + Split(" " + b + "\n" + "3." + " " + c, "2.")
  {
    var x, y := "1. " + a + "\n", " " + b + "\n" + "3." + " " + c;
    assert NumberedReply(a, b, c) == x + "2." + y;
    FreeOfPadded("1. ", a, "\n", "2.");
    SplitAtFirst(x, "2.", y);
  }

  lemma SplitReplyOnThree(a: string, b: string, c: string)
    requires Free(a, "3.") && Free(b, "3.") && Free(c, "3.")
    ensures Split(NumberedReply(a, b, c), "3.") == ["1. " + a + "\n" + "2." + " " + b + "\n", " " + c]
  {
    var x, y := "1. " + a + "\n" + "2." + " " + b + "\n", " " + c;
    assert NumberedReply(a, b, c) == x + "3." + y;
    FreeOfPadded("1. ", a, "\n2. ", "3.");
    FreeOfPadded("", b, "\n", "3.");
    FreeConcat("1. " + a + "\n2. ", "" + b + "\n", "3.");
    assert x == ("1. " + a + "\n2. ") + ("" + b + "\n");
    FreeOfPadded(" ", c, "", "3.");
    assert y == " " + c + "";
    SplitOnce(x, "3.", y);
  }

  /** The piece after the list's "2.", cut on "3.", is the exercise line,
      whatever the diet holds. */
  lemma ExercisePiece(b: string, c: string)
    requires Free(b, "2.") && Free(b, "3.")
    ensures Split(Split(" " + b + "\n" + "3." + " " + c, "2.")[0], "3.")[0] == " " + b + "\n"
  {
    var p := " " + b + "\n" + "3.";
    var y := " " + b + "\n" + "3." + " " + c;
    assert y == p + (" " + c);
    assert p == " " + b + "\n3.";
    FreeOfPadded(" ", b, "\n3.", "2.");
    FirstPieceCoversPrefix(p, " " + c, "2.");
    var piece := Split(y, "2.")[0];
    var w := piece[|p|..];
    assert piece == p + w by {
      assert piece == y[..|piece|];
    }
    assert piece == (" " + b + "\n") + "3." + w;
    FreeOfPadded(" ", b, "\n", "3.");
    SplitAtFirst(" " + b + "\n", "3.", w);
  }

  /** The first section: strip, delete "1." and strip again. */
  lemma MedicinesRoundTrip(a: string)
    requires Stripped(a) && Free(a, "1.")
    ensures MedicinesOf("1. " + a + "\n") == a
  {
    if a == [] {
      MedicinesEmpty(a);
    } else {
      StripNumbered(a);
      DropNumber(a);
      StripSpaceBefore(a);
    }
  }

  lemma MedicinesEmpty(a: string)
    requires a == []
    ensures MedicinesOf("1. " + a + "\n") == a
  {
    assert "1. " + a + "\n" == "" + "1." + " \n";
    StripPadded("", "1.", " \n");
    MarkerAlone();
  }

  lemma MarkerAlone()
    ensures Strip(Replace("1.", "1.", "")) == ""
  {
    FreeLiteral("", "1.");
    assert "1." == "1." + "";
    ReplaceMarker("");
  }

  lemma StripNumbered(a: string)
    requires a != [] && Stripped(a)
    ensures Strip("1. " + a + "\n") == "1. " + a
  {
    assert "1. " + a + "\n" == "" + ("1. " + a) + "\n";
    StripPadded("", "1. " + a, "\n");
  }

  lemma DropNumber(a: string)
    requires Free(a, "1.")
    ensures Replace("1. " + a, "1.", "") == " " + a
  {
    FreeOfPadded(" ", a, "", "1.");
    assert " " + a + "" == " " + a;
    assert "1. " + a == "1." + (" " + a);
    ReplaceMarker(" " + a);
  }

  lemma StripSpaceBefore(a: string)
    requires Stripped(a)
    ensures Strip(" " + a) == a
  {
    assert " " + a == " " + a + "";
    StripPadded(" ", a, "");
  }

  /** `("1." + rest).replace("1.", "")` is `rest` when `rest` holds no "1.". */
  lemma ReplaceMarker(rest: string)
    requires Free(rest, "1.")
    ensures Replace("1." + rest, "1.", "") == rest
  {
    FreeLiteral("", "1.");
    assert "1." + rest == "" + "1." + rest;
    SplitOnce("", "1.", rest);
    assert Join(["", rest], "") == rest;
  }

  // ---------------------------------------------- facts about two-character markers

  /** Gluing two marker-free strings cannot create the marker when the glue
      point does not read as the marker. */
  lemma FreeConcat(x: string, y: string, m: string)
    requires |m| == 2
    requires Free(x, m) && Free(y, m)
    requires !(|x| > 0 && |y| > 0 && x[|x| - 1] == m[0] && y[0] == m[1])
    ensures Free(x + y, m)
  {
    var s := x + y;
    forall i ensures !OccursAt(s, m, i) {
      if 0 <= i && i + 2 <= |s| {
        if i + 2 <= |x| {
          assert s[i..i + 2] == x[i..i + 2];
          assert !OccursAt(x, m, i);
        } else if i >= |x| {
          assert s[i..i + 2] == y[i - |x|..i - |x| + 2];
          assert !OccursAt(y, m, i - |x|);
        } else {
          assert s[i..i + 2] == [x[|x| - 1], y[0]];
        }
      }
    }
  }

  /** A string in which the marker's first character appears at most as the
      last character holds no marker; used for the short literal pieces. */
  lemma FreeLiteral(x: string, m: string)
    requires |m| == 2
    requires forall k :: 0 <= k < |x| - 1 ==> x[k] != m[0]
    ensures Free(x, m)
  {
    forall i ensures !OccursAt(x, m, i) {
      if 0 <= i && i + 2 <= |x| {
        assert x[i..i + 2][0] == x[i];
      }
    }
  }

  /** `p + s + q` holds no marker when `s` holds none and the padding `p`, `q`
      is literal text whose inner ends cannot complete a marker. */
  lemma FreeOfPadded(p: string, s: string, q: string, m: string)
    requires m == "1." || m == "2." || m == "3."
    requires Free(s, m)
    requires forall k :: 0 <= k < |p| - 1 ==> p[k] != m[0]
    requires p == [] || p[|p| - 1] == ' '
    requires forall k :: 0 <= k < |q| - 1 ==> q[k] != m[0]
    requires q == [] || q[0] == '\n'
    ensures Free(p + s + q, m)
  {
    FreeLiteral(p, m);
    FreeLiteral(q, m);
    FreeConcat(p, s, m);
    if |s| == 0 {
      assert p + s == p;
    } else {
      assert (p + s)[|p + s| - 1] == s[|s| - 1];
    }
    FreeConcat(p + s, q, m);
  }

  /** Splitting `x + m + y` on a two-character marker with two different
      characters cuts first right after `x` when `x` holds no marker. */
  lemma SplitAtFirst(x: string, m: string, y: string)
    requires |m| == 2 && m[0] != m[1]
    requires Free(x, m)
    ensures Split(x + m + y, m) == [x] + Split(y, m)
  {
    var s := x + m + y;
    assert s[|x|..|x| + 2] == m;
    assert OccursAt(s, m, |x|);
    forall k | 0 <= k < |x| ensures !OccursAt(s, m, k) {
      if k + 2 <= |x| {
        assert s[k..k + 2] == x[k..k + 2];
        assert !OccursAt(x, m, k);
      } else {
        assert s[k + 1] == m[0];
      }
    }
    var f := Find(s, m);
    assert f == Some(|x|);
    assert s[..|x|] == x;
    assert s[|x| + 2..] == y;
    SplitFirst(s, m, |x|);
  }

  /** ... and into exactly `[x, y]` when `y` holds none either. */
  lemma SplitOnce(x: string, m: string, y: string)
    requires |m| == 2 && m[0] != m[1]
    requires Free(x, m) && Free(y, m)
    ensures Split(x + m + y, m) == [x, y]
  {
    SplitAtFirst(x, m, y);
  }

  /** The first piece of a split keeps a marker-free prefix whole when the
      prefix cannot end in the marker's first character. */
  lemma FirstPieceCoversPrefix(p: string, z: string, m: string)
    requires |m| == 2 && Free(p, m)
    requires p == [] || p[|p| - 1] != m[0]
    ensures |Split(p + z, m)[0]| >= |p|
  {
    var s := p + z;
    forall k | 0 <= k < |p| ensures !OccursAt(s, m, k) {
      if k + 2 <= |p| {
        assert s[k..k + 2] == p[k..k + 2];
        assert !OccursAt(p, m, k);
      } else {
        assert s[k] == p[|p| - 1];
      }
    }
    match Find(s, m)
    case None =>
    case Some(i) =>
      SplitFirst(s, m, i);
  }

}
