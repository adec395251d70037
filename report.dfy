/** The whole script after the input is read: the batch loop and the sort,
    then one formatted record after another into the output text. */
module Report {
  import opened Records
  import opened Validator
  import opened Sorting
  import opened Batch
  import opened Output

  /** A record that passed type_error has a weight and an age, so str()
      can write both. */
  lemma ValidPrintable(v: seq<Record>)
    requires AllValid(v)
    ensures Printable(v)
  {
    forall i | 0 <= i < |v| ensures v[i].weight.Some? && v[i].age.Some? {
      ValidKeys(v[i]);
    }
  }

  /** The records the output file holds, in the order it holds them. */
  function Written(records: seq<Record>, menu: int): seq<Record>
  {
    if menu == 0 then ValidOf(records) else Sort(ValidOf(records), SortKeyOf(menu))
  }

  /** Classify, sort as the menu says, and write the valid records. The
      JSON dump to a scratch file and the load straight after it hand back
      the same list, so the list goes to the writing loop unchanged. Like
      Batch.Process, this runs the guarded sort: with a sort chosen and no
      valid record the script fails before writing, and here the text is
      empty. */
  method Run(records: seq<Record>, menu: int) returns (tally: Tally, text: string)
    requires 0 <= menu <= 2
    ensures tally.counter == |records| && tally.Classified() == tally.counter
    ensures forall o :: tally.Count(o) == Occurrences(records, o)
    ensures Printable(Written(records, menu))
    ensures text == FormatAll(Written(records, menu))
    ensures AllValid(ValidOf(records))
    ensures menu == 0 || ValidOf(records) != [] ==> SortStepAsWritten(ValidOf(records), menu) == Some(Written(records, menu))
  {
    var validatedData;
    tally, validatedData := Process(records, menu);
    ValidPrintable(validatedData);
    text := WriteRecords(validatedData);
  }
}
