/** The script part of main.py: count the records, classify each one with
    type_error, bump exactly one of ten counters, keep the valid records in
    input order, then bucket-sort them by weight (menu 1) or age (menu 2). */
module Batch {
  import opened Records
  import opened Validator
  import opened Sorting
  import opened Buckets

  /** The module-level counters. */
  datatype Tally = Tally(
    counter: nat,
    noErrorCounter: nat,
    errorTelephoneNumberCol: nat,
    errorWeightCol: nat,
    errorInnCol: nat,
    errorPassportSeriesCol: nat,
    errorUniversityCol: nat,
    errorAgeCol: nat,
    errorPoliticalViewsCol: nat,
    errorWorldviewsCol: nat,
    errorAddressCol: nat)
  {
    /** The counter that records outcome o. */
    function Count(o: Outcome): nat
    {
      match o
      case NoErrors => noErrorCounter
      case ErrorTelephoneNumber => errorTelephoneNumberCol
      case ErrorWeight => errorWeightCol
      case ErrorInn => errorInnCol
      case ErrorPassportSeries => errorPassportSeriesCol
      case ErrorUniversity => errorUniversityCol
      case ErrorAge => errorAgeCol
      case ErrorPoliticalViews => errorPoliticalViewsCol
      case ErrorWorldview => errorWorldviewsCol
      case ErrorAddress => errorAddressCol
    }

    /** The tally after one more record with outcome o. */
    function Add(o: Outcome): Tally
    {
      match o
      case NoErrors => this.(noErrorCounter := noErrorCounter + 1)
      case ErrorTelephoneNumber => this.(errorTelephoneNumberCol := errorTelephoneNumberCol + 1)
      case ErrorWeight => this.(errorWeightCol := errorWeightCol + 1)
      case ErrorInn => this.(errorInnCol := errorInnCol + 1)
      case ErrorPassportSeries => this.(errorPassportSeriesCol := errorPassportSeriesCol + 1)
      case ErrorUniversity => this.(errorUniversityCol := errorUniversityCol + 1)
      case ErrorAge => this.(errorAgeCol := errorAgeCol + 1)
      case ErrorPoliticalViews => this.(errorPoliticalViewsCol := errorPoliticalViewsCol + 1)
      case ErrorWorldview => this.(errorWorldviewsCol := errorWorldviewsCol + 1)
      case ErrorAddress => this.(errorAddressCol := errorAddressCol + 1)
    }

    /** The ten per-outcome counters added up. */
    function Classified(): nat
    {
      noErrorCounter + errorTelephoneNumberCol + errorWeightCol + errorInnCol
      + errorPassportSeriesCol + errorUniversityCol + errorAgeCol
      + errorPoliticalViewsCol + errorWorldviewsCol + errorAddressCol
    }
  }

  /** One more record with outcome o bumps the counter of o and leaves the
      others, the record counter among them, unchanged. */
  lemma AddCount(t: Tally, o: Outcome, p: Outcome)
    ensures t.Add(o).Count(p) == t.Count(p) + (if p == o then 1 else 0)
    ensures t.Add(o).counter == t.counter
  {
  }

  /** So one more record adds one to the ten per-outcome counters together. */
  lemma AddClassified(t: Tally, o: Outcome)
    ensures t.Add(o).Classified() == t.Classified() + 1
  {
  }

  /** type_error of each record of s, in order. */
  function Outcomes(s: seq<Record>): (os: seq<Outcome>)
    ensures |os| == |s|
  {
    if s == [] then [] else Outcomes(s[..|s| - 1]) + [TypeError(s[|s| - 1])]
  }

  /** How many entries of os are o. */
  function CountOf(os: seq<Outcome>, o: Outcome): nat
  {
    if os == [] then 0
    else CountOf(os[..|os| - 1], o) + (if os[|os| - 1] == o then 1 else 0)
  }

  /** The number of records of s that type_error classifies as o. */
  function Occurrences(s: seq<Record>, o: Outcome): nat
  {
    CountOf(Outcomes(s), o)
  }

  /** The records of s that pass every check, in input order. */
  function ValidOf(s: seq<Record>): seq<Record>
  {
    if s == [] then []
    else ValidOf(s[..|s| - 1]) + (if IsValid(s[|s| - 1]) then [s[|s| - 1]] else [])
  }

  /** What one more record adds to a category count. */
  lemma OccurrencesAppend(s: seq<Record>, r: Record, o: Outcome)
    ensures Occurrences(s + [r], o) == Occurrences(s, o) + (if TypeError(r) == o then 1 else 0)
  {
    assert (s + [r])[..|s|] == s;
    var os := Outcomes(s);
    assert Outcomes(s + [r]) == os + [TypeError(r)];
    assert (os + [TypeError(r)])[..|os|] == os;
  }

  /** What one more record adds to the valid list. */
  lemma AppendOne(s: seq<Record>, r: Record)
    ensures ValidOf(s + [r]) == ValidOf(s) + (if IsValid(r) then [r] else [])
  {
    var t := s + [r];
    assert t[..|t| - 1] == s && t[|t| - 1] == r;
  }

  predicate AllValid(s: seq<Record>)
  {
    forall i :: 0 <= i < |s| ==> IsValid(s[i])
  }

  /** Each entry is one of the ten outcomes, so the ten counts add up to
      the length. */
  lemma {:induction false} CountOfSum(os: seq<Outcome>)
    ensures CountOf(os, NoErrors) + CountOf(os, ErrorTelephoneNumber)
      + CountOf(os, ErrorWeight) + CountOf(os, ErrorInn)
      + CountOf(os, ErrorPassportSeries) + CountOf(os, ErrorUniversity)
      + CountOf(os, ErrorAge) + CountOf(os, ErrorPoliticalViews)
      + CountOf(os, ErrorWorldview) + CountOf(os, ErrorAddress) == |os|
  {
    if os != [] {
      CountOfSum(os[..|os| - 1]);
    }
  }

  /** Every record falls in exactly one category, so the ten category counts
      of a batch add up to its size. */
  lemma OccurrencesSum(s: seq<Record>)
    ensures Occurrences(s, NoErrors) + Occurrences(s, ErrorTelephoneNumber)
      + Occurrences(s, ErrorWeight) + Occurrences(s, ErrorInn)
      + Occurrences(s, ErrorPassportSeries) + Occurrences(s, ErrorUniversity)
      + Occurrences(s, ErrorAge) + Occurrences(s, ErrorPoliticalViews)
      + Occurrences(s, ErrorWorldview) + Occurrences(s, ErrorAddress) == |s|
  {
    CountOfSum(Outcomes(s));
  }

  /** validated_data holds only valid records of the input, as many as
      no_error_counter counts. */
  lemma ValidOfFacts(s: seq<Record>)
    ensures AllValid(ValidOf(s))
    ensures forall r :: r in ValidOf(s) ==> r in s
    ensures |ValidOf(s)| == Occurrences(s, NoErrors)
  {
    ValidOfSubset(s);
    ValidOfCount(s);
  }

  lemma {:induction false} ValidOfSubset(s: seq<Record>)
    ensures AllValid(ValidOf(s))
    ensures forall r :: r in ValidOf(s) ==> r in s
  {
    ValidOfAllValid(s);
    ValidOfMembers(s);
  }

  lemma {:induction false} ValidOfAllValid(s: seq<Record>)
    ensures AllValid(ValidOf(s))
  {
    if s != [] {
      var init, last := s[..|s| - 1], s[|s| - 1];
      ValidOfAllValid(init);
      var v, w := ValidOf(init), ValidOf(s);
      forall i | 0 <= i < |w| ensures IsValid(w[i]) {
        if i < |v| {
          assert w[i] == v[i];
        } else {
          assert w[i] == last;
        }
      }
    }
  }

  lemma {:induction false} ValidOfMembers(s: seq<Record>)
    ensures forall r :: r in ValidOf(s) ==> r in s
  {
    if s != [] {
      var init := s[..|s| - 1];
      ValidOfMembers(init);
      assert s == init + [s[|s| - 1]];
    }
  }

  lemma {:induction false} ValidOfCount(s: seq<Record>)
    ensures |ValidOf(s)| == Occurrences(s, NoErrors)
  {
    if s != [] {
      var init, last := s[..|s| - 1], s[|s| - 1];
      ValidOfCount(init);
      assert s == init + [last];
      OccurrencesAppend(init, last, NoErrors);
      AppendOne(init, last);
    }
  }

  // ---------------------------------------------------------------------
  // The sort after the loop

  /** The field the menu chooses: "weight" for 1, "age" otherwise. */
  function SortKeyOf(menu: int): Record -> int
  {
    if menu == 1 then WeightOf else AgeOf
  }

  /** Valid records meet bucket_sort's demands: keys in 1..150, so a positive
      maximum. Only emptiness is left to the caller. */
  lemma ValidRecordsSortable(v: seq<Record>, menu: int)
    requires AllValid(v) && v != []
    ensures BucketSortable(v, SortKeyOf(menu))
  {
    var key := SortKeyOf(menu);
    forall i | 0 <= i < |v| ensures 0 < key(v[i]) {
      ValidKeys(v[i]);
    }
    assert 0 < key(v[0]);
  }

  /** Line 389 as written: with menu 1 or 2 bucket_sort runs even on an empty
      list, where max() raises; None stands for that exception. */
  function SortStepAsWritten(valid: seq<Record>, menu: int): (r: Option<seq<Record>>)
    requires AllValid(valid)
    ensures r.None? <==> menu != 0 && valid == []
  {
    if menu == 0 then Some(valid)
    else if valid == [] then None
    else
      ValidRecordsSortable(valid, menu);
      Some(BucketSorted(valid, SortKeyOf(menu)))
  }

  /** An input with no valid record, the empty batch included, makes the
      script fail after its summary when a sort is chosen. */
  lemma EmptyBatchSortFails(records: seq<Record>, menu: int)
    requires forall i :: 0 <= i < |records| ==> !IsValid(records[i])
    requires menu == 1 || menu == 2
    ensures ValidOf(records) == []
    ensures SortStepAsWritten(ValidOf(records), menu) == None
  {
    NoValidRecords(records);
  }

  lemma {:induction false} NoValidRecords(records: seq<Record>)
    requires forall i :: 0 <= i < |records| ==> !IsValid(records[i])
    ensures ValidOf(records) == []
  {
    if records != [] {
      NoValidRecords(records[..|records| - 1]);
    }
  }

  /** The sort step with the empty list guarded: sorts exactly when the
      script does without failing, and otherwise leaves the list alone. */
  method SortStep(valid: seq<Record>, menu: int) returns (out: seq<Record>)
    requires AllValid(valid)
    ensures menu == 0 ==> out == valid
    ensures menu != 0 ==> out == Sort(valid, SortKeyOf(menu))
    ensures menu != 0 ==> Sorted(out, SortKeyOf(menu)) && SameTies(out, valid, SortKeyOf(menu))
    ensures multiset(out) == multiset(valid)
    ensures valid != [] || menu == 0 ==> SortStepAsWritten(valid, menu) == Some(out)
  {
    if menu != 0 && valid != [] {
      ValidRecordsSortable(valid, menu);
      out := BucketSort(valid, SortKeyOf(menu));
    } else {
      out := valid;
    }
  }

  // ---------------------------------------------------------------------
  // The batch

  /** The if/elif chain on the string type_error returned: bumps the one
      counter that string names and no other. */
  method CountOutcome(tally: Tally, outcome: Outcome) returns (t: Tally)
    ensures t == tally.Add(outcome)
  {
    var errorCheck := outcome.Name();
    t := tally;
    if errorCheck == "no_errors" {
      t := t.(noErrorCounter := t.noErrorCounter + 1);
    } else if errorCheck == "error_telephone_number" {
      t := t.(errorTelephoneNumberCol := t.errorTelephoneNumberCol + 1);
    } else if errorCheck == "error_weight" {
      t := t.(errorWeightCol := t.errorWeightCol + 1);
    } else if errorCheck == "error_inn" {
      t := t.(errorInnCol := t.errorInnCol + 1);
    } else if errorCheck == "error_passport_series" {
      t := t.(errorPassportSeriesCol := t.errorPassportSeriesCol + 1);
    } else if errorCheck == "error_university" {
      t := t.(errorUniversityCol := t.errorUniversityCol + 1);
    } else if errorCheck == "error_age" {
      t := t.(errorAgeCol := t.errorAgeCol + 1);
    } else if errorCheck == "error_political_views" {
      t := t.(errorPoliticalViewsCol := t.errorPoliticalViewsCol + 1);
    } else if errorCheck == "error_worldview" {
      t := t.(errorWorldviewsCol := t.errorWorldviewsCol + 1);
    } else if errorCheck == "error_address" {
      t := t.(errorAddressCol := t.errorAddressCol + 1);
    }
  }

  /** One pass of the loop body: classify the record, bump its counter and
      keep it when it is valid. */
  method ClassifyOne(tally: Tally, validatedData: seq<Record>, element: Record) returns (t: Tally, v: seq<Record>)
    ensures t == tally.Add(TypeError(element))
    ensures v == validatedData + (if IsValid(element) then [element] else [])
  {
    var outcome := TypeError(element);
    t := CountOutcome(tally, outcome);
    v := validatedData;
    if outcome.Name() == "no_errors" {
      v := v + [element];
    }
  }

  /** The loop invariant survives one more record: its outcome's counter
      goes up by one, and it joins the valid list when it is valid. */
  lemma ClassifyStep(records: seq<Record>, i: nat, tally: Tally)
    requires i < |records|
    requires forall o :: tally.Count(o) == Occurrences(records[..i], o)
    requires tally.Classified() == i
    ensures forall o :: tally.Add(TypeError(records[i])).Count(o) == Occurrences(records[..i + 1], o)
    ensures tally.Add(TypeError(records[i])).Classified() == i + 1
    ensures tally.Add(TypeError(records[i])).counter == tally.counter
  {
    assert records[..i + 1] == records[..i] + [records[i]];
    TallyStep(records[..i], records[i], tally);
  }

  lemma KeepStep(records: seq<Record>, i: nat)
    requires i < |records|
    ensures ValidOf(records[..i]) + (if IsValid(records[i]) then [records[i]] else []) == ValidOf(records[..i + 1])
  {
    assert records[..i + 1] == records[..i] + [records[i]];
    AppendOne(records[..i], records[i]);
  }

  lemma TallyStep(s: seq<Record>, r: Record, tally: Tally)
    requires forall o :: tally.Count(o) == Occurrences(s, o)
    requires tally.Classified() == |s|
    ensures forall o :: tally.Add(TypeError(r)).Count(o) == Occurrences(s + [r], o)
    ensures tally.Add(TypeError(r)).Classified() == |s| + 1
    ensures tally.Add(TypeError(r)).counter == tally.counter
  {
    var outcome := TypeError(r);
    AddClassified(tally, outcome);
    AddCount(tally, outcome, NoErrors);
    forall o ensures tally.Add(outcome).Count(o) == Occurrences(s + [r], o) {
      AddCount(tally, outcome, o);
      OccurrencesAppend(s, r, o);
    }
  }

  const ZeroTally := Tally(0, 0, 0, 0, 0, 0, 0, 0, 0, 0, 0)

  /** The two loops over the input and the sort after them. `menu` is the
      answer the re-prompt loop accepted, so it is 0, 1 or 2. The sort is
      the guarded SortStep: where the script's own dispatch does not fail,
      the result is what it returns; with a sort chosen and no valid record
      the script fails (SortStepAsWritten) and this model keeps the empty
      list. */
  method Process(records: seq<Record>, menu: int) returns (tally: Tally, validatedData: seq<Record>)
    requires 0 <= menu <= 2
    ensures tally.counter == |records|
    ensures forall o :: tally.Count(o) == Occurrences(records, o)
    ensures tally.Classified() == tally.counter
    ensures menu == 0 ==> validatedData == ValidOf(records)
    ensures menu != 0 ==> validatedData == Sort(ValidOf(records), SortKeyOf(menu))
    ensures AllValid(validatedData) && multiset(validatedData) == multiset(ValidOf(records))
    ensures AllValid(ValidOf(records))
    ensures menu == 0 || ValidOf(records) != [] ==> SortStepAsWritten(ValidOf(records), menu) == Some(validatedData)
  {
    var counter := 0;
    for i := 0 to |records|
      invariant counter == i
    {
      counter := counter + 1;
    }
    tally, validatedData := ClassifyAll(records, counter);
    ValidOfFacts(records);
    if menu != 0 {
      validatedData := SortStep(validatedData, menu);
      SortPermutes(ValidOf(records), SortKeyOf(menu));
      SortedKeepsValid(ValidOf(records), validatedData);
    }
  }

  /** The loop of type_error calls: every record bumps the counter of its
      outcome, and the valid ones are collected in input order. */
  method ClassifyAll(records: seq<Record>, counter: nat) returns (tally: Tally, validatedData: seq<Record>)
    ensures tally.counter == counter
    ensures forall o :: tally.Count(o) == Occurrences(records, o)
    ensures tally.Classified() == |records|
    ensures validatedData == ValidOf(records)
  {
    tally := ZeroTally.(counter := counter);
    validatedData := [];
    for i := 0 to |records|
      invariant tally.counter == counter
      invariant forall o :: tally.Count(o) == Occurrences(records[..i], o)
      invariant tally.Classified() == i
      invariant validatedData == ValidOf(records[..i])
    {
      var element := records[i];
      ClassifyStep(records, i, tally);
      KeepStep(records, i);
      tally, validatedData := ClassifyOne(tally, validatedData, element);
    }
    assert records[..|records|] == records;
  }

  lemma SortedKeepsValid(v: seq<Record>, w: seq<Record>)
    requires AllValid(v) && multiset(w) == multiset(v)
    ensures AllValid(w)
  {
    forall i | 0 <= i < |w| ensures IsValid(w[i]) {
      assert w[i] in multiset(v);
      var j :| 0 <= j < |v| && v[j] == w[i];
    }
  }
}
