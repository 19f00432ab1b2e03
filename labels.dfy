/** The labels the profile page derives from single fields of the profile. */
module Labels {
  import opened JsValues
  import JsSplit

  /** The nationality line: the last ", "-separated piece of `place_of_birth`, or "Unknown". */
  function Nationality(placeOfBirth: Option<string>): (r: string)
    ensures !Truthy(placeOfBirth) ==> r == "Unknown"
    ensures Truthy(placeOfBirth) ==> !JsSplit.ContainsSeparator(r) && |r| <= |placeOfBirth.value|
  {
    if Truthy(placeOfBirth) then
      var parts := JsSplit.Split(placeOfBirth.value);
      JsSplit.SplitPartsClean(placeOfBirth.value);
      JsSplit.JoinSplit(placeOfBirth.value);
      JsSplit.PartShorter(parts, |parts| - 1);
      parts[|parts| - 1]
    else "Unknown"
  }

  /**
   * For a truthy place of birth the nationality is a suffix of it that holds
   * no separator and is either the whole string or preceded by a separator:
   * the piece after the last separator. Otherwise it is "Unknown".
   */
  lemma NationalityIsLastPiece(placeOfBirth: Option<string>)
    ensures !Truthy(placeOfBirth) ==> Nationality(placeOfBirth) == "Unknown"
    ensures Truthy(placeOfBirth) ==>
      var s, r := placeOfBirth.value, Nationality(placeOfBirth);
      && !JsSplit.ContainsSeparator(r)
      && |r| <= |s| && s[|s| - |r|..] == r
      && (r == s || JsSplit.SeparatorAt(s, |s| - |r| - 2))
  {
    if Truthy(placeOfBirth) {
      var s := placeOfBirth.value;
      var parts := JsSplit.Split(s);
      var r := parts[|parts| - 1];
      JsSplit.SplitPartsClean(s);
      JsSplit.JoinSplit(s);
      if |parts| >= 2 {
        JsSplit.JoinLast(parts);
        var front := JsSplit.Join(parts[..|parts| - 1]);
        assert s == front + JsSplit.Separator + r;
        assert s[|s| - |r|..] == r;
        assert s[|s| - |r| - 2] == ',' && s[|s| - |r| - 1] == ' ';
      }
    }
  }

  /** A place of birth without a separator is its own nationality. */
  lemma NationalityWithoutSeparator(placeOfBirth: Option<string>)
    requires Truthy(placeOfBirth) && !JsSplit.ContainsSeparator(placeOfBirth.value)
    ensures Nationality(placeOfBirth) == placeOfBirth.value
  {
    JsSplit.SplitWithoutSeparator(placeOfBirth.value);
  }

  /** The gender line: 1 is "Female", 2 is "Male", any other code or none is "Non-Binary". */
  function GenderLabel(gender: Option<int>): (text: string)
    ensures text == "Female" <==> gender == Some(1)
    ensures text == "Male" <==> gender == Some(2)
    ensures text == "Non-Binary" <==> gender != Some(1) && gender != Some(2)
  {
    if gender == Some(1) then "Female"
    else if gender == Some(2) then "Male"
    else "Non-Binary"
  }
}
