/** Validator.type_error: runs the nine checks in a fixed order and reports
    the first one that fails. */
module Validator {
  import opened Records
  import opened FieldRules

  /** The category strings type_error returns, one constructor each. */
  datatype Outcome =
    | ErrorTelephoneNumber
    | ErrorWeight
    | ErrorInn
    | ErrorPassportSeries
    | ErrorUniversity
    | ErrorAge
    | ErrorPoliticalViews
    | ErrorWorldview
    | ErrorAddress
    | NoErrors
  {
    /** The string type_error returns for this outcome. */
    function Name(): string
    {
      match this
      case ErrorTelephoneNumber => "error_telephone_number"
      case ErrorWeight => "error_weight"
      case ErrorInn => "error_inn"
      case ErrorPassportSeries => "error_passport_series"
      case ErrorUniversity => "error_university"
      case ErrorAge => "error_age"
      case ErrorPoliticalViews => "error_political_views"
      case ErrorWorldview => "error_worldview"
      case ErrorAddress => "error_address"
      case NoErrors => "no_errors"
    }
  }

  /** The error categories in the order type_error tries their checks. */
  const CheckOrder: seq<Outcome> := [
    ErrorTelephoneNumber, ErrorWeight, ErrorInn, ErrorPassportSeries, ErrorUniversity,
    ErrorAge, ErrorPoliticalViews, ErrorWorldview, ErrorAddress]

  /** The verdicts of the nine checks on r, in the same order. */
  function Checks(r: Record): (c: seq<bool>)
    ensures |c| == |CheckOrder|
  {
    [CheckTelephoneNumber(r.telephone), CheckWeight(r.weight), CheckInn(r.inn),
     CheckPassportSeries(r.passportSeries), CheckUniversity(r.university), CheckAge(r.age),
     CheckPoliticalViews(r.politicalViews), CheckWorldview(r.worldview), CheckAddress(r.address)]
  }

  /** The category of the earliest false entry of a nine-check vector, or
      NoErrors when every entry is true (see FirstFailureIsEarliest). */
  function FirstFailure(c: seq<bool>): Outcome
    requires |c| == |CheckOrder|
  {
    if !c[0] then ErrorTelephoneNumber
    else if !c[1] then ErrorWeight
    else if !c[2] then ErrorInn
    else if !c[3] then ErrorPassportSeries
    else if !c[4] then ErrorUniversity
    else if !c[5] then ErrorAge
    else if !c[6] then ErrorPoliticalViews
    else if !c[7] then ErrorWorldview
    else if !c[8] then ErrorAddress
    else NoErrors
  }

  /** NoErrors exactly when every check passes; otherwise the category of
      the earliest check that fails. */
  lemma FirstFailureIsEarliest(c: seq<bool>)
    requires |c| == |CheckOrder|
    ensures FirstFailure(c) == NoErrors <==> forall i :: 0 <= i < |c| ==> c[i]
    ensures forall i :: 0 <= i < |c| ==> (FirstFailure(c) == CheckOrder[i] <==> !c[i] && forall j :: 0 <= j < i ==> c[j])
  {
  }

  /** type_error: tries the checks in order and stops at the first failure,
      so its outcome is the first failure of the check vector. */
  function TypeError(r: Record): (o: Outcome)
    ensures o == FirstFailure(Checks(r))
  {
    if !CheckTelephoneNumber(r.telephone) then ErrorTelephoneNumber
    else if !CheckWeight(r.weight) then ErrorWeight
    else if !CheckInn(r.inn) then ErrorInn
    else if !CheckPassportSeries(r.passportSeries) then ErrorPassportSeries
    else if !CheckUniversity(r.university) then ErrorUniversity
    else if !CheckAge(r.age) then ErrorAge
    else if !CheckPoliticalViews(r.politicalViews) then ErrorPoliticalViews
    else if !CheckWorldview(r.worldview) then ErrorWorldview
    else if !CheckAddress(r.address) then ErrorAddress
    else NoErrors
  }

  predicate IsValid(r: Record)
  {
    TypeError(r) == NoErrors
  }

  /** What a valid record guarantees to the sort: both numeric fields are
      present and in 1..150. */
  lemma ValidKeys(r: Record)
    requires IsValid(r)
    ensures r.weight.Some? && 0 < WeightOf(r) <= 150
    ensures r.age.Some? && 0 < AgeOf(r) <= 150
  {
    assert Checks(r)[1] && Checks(r)[5];
  }

  /** The ten category strings are pairwise distinct, so the batch loop's
      string comparisons tell the outcomes apart. */
  lemma NamesDistinct(o1: Outcome, o2: Outcome)
    requires o1.Name() == o2.Name()
    ensures o1 == o2
  {
  }

  // ---------------------------------------------------------------------
  // Worked records

  const Sample := Record(
    "+7-(123)-456-78-90", Some(70), "123456789012", "12 34",
    "Московский университет", Some(25), "Демократия", "Рационализм", "ул. Ленина 5")

  lemma SampleTelephonePasses()
    ensures CheckTelephoneNumber(Sample.telephone)
  {
    var t := Sample.telephone;
    assert t[0] == '+' && t[2] == '-' && t[3] == '(' && t[7] == ')' && t[8] == '-' && t[12] == '-' && t[15] == '-';
    assert IsDigit(t[1]) && IsDigit(t[4]) && IsDigit(t[5]) && IsDigit(t[6]) && IsDigit(t[9]);
    assert IsDigit(t[10]) && IsDigit(t[11]) && IsDigit(t[13]) && IsDigit(t[14]) && IsDigit(t[16]) && IsDigit(t[17]);
  }

  lemma SampleTextFieldsPass()
    ensures CheckTelephoneNumber(Sample.telephone)
    ensures CheckInn(Sample.inn)
    ensures CheckPassportSeries(Sample.passportSeries)
  {
    SampleTelephonePasses();
    SampleInnPasses();
    SamplePassportPasses();
  }

  lemma SampleInnPasses()
    ensures CheckInn(Sample.inn)
  {
    var n := Sample.inn;
    assert forall i :: 0 <= i < 12 ==> n[i] == "123456789012"[i];
    assert forall i :: 0 <= i < 12 ==> IsDigit(n[i]);
  }

  lemma SamplePassportPasses()
    ensures CheckPassportSeries(Sample.passportSeries)
  {
    var p := Sample.passportSeries;
    assert IsDigit(p[0]) && IsDigit(p[1]) && p[2] == ' ' && IsDigit(p[3]) && IsDigit(p[4]);
  }

  lemma SampleUniversityPasses()
    ensures CheckUniversity(Sample.university)
  {
    assert AllIn(Sample.university, UniversityClass);
    assert Sample.university[0] != UniversityWord[0];
  }

  lemma SampleViewsPass()
    ensures CheckPoliticalViews(Sample.politicalViews)
    ensures CheckWorldview(Sample.worldview)
  {
    assert AllIn(Sample.politicalViews, NameClass);
    assert AllIn(Sample.worldview, NameClass);
  }

  lemma SampleAddressPasses()
    ensures CheckAddress(Sample.address)
  {
    assert AllIn(Sample.address, AddressClass);
    assert StartsWith(Sample.address, StreetPrefix);
  }

  /** A record whose nine fields all conform is valid. */
  lemma SampleIsValid()
    ensures TypeError(Sample) == NoErrors
  {
    SampleTextFieldsPass();
    SampleUniversityPasses();
    SampleViewsPass();
    SampleAddressPasses();
  }

  /** A weight over 150 is reported as a weight error. */
  lemma HeavySampleIsWeightError()
    ensures TypeError(Sample.(weight := Some(200))) == ErrorWeight
  {
    SampleTextFieldsPass();
  }

  /** The telephone is checked first, so a bad telephone hides the bad weight. */
  lemma TelephoneReportedFirst()
    ensures TypeError(Sample.(telephone := "12345", weight := Some(200))) == ErrorTelephoneNumber
  {
  }
}
