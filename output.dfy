/** The text the script writes for every validated record: a brace, one
    " name: value" line per field in a fixed order, and a closing brace.
    Weight and age go through str(); the other fields are written as they
    are. Reading the lines back recovers the record whenever no field holds
    a line break. */
module Output {
  import opened Records

  // ---------------------------------------------------------------------
  // str() of an integer

  predicate AllDigits(s: string)
  {
    forall i :: 0 <= i < |s| ==> '0' <= s[i] <= '9'
  }

  function DigitChar(d: int): char
    requires 0 <= d < 10
  {
    ('0' as int + d) as char
  }

  /** The decimal digits of n, most significant first, without leading
      zeros. */
  function NatToString(n: nat): string
  {
    if n < 10 then [DigitChar(n)] else NatToString(n / 10) + [DigitChar(n % 10)]
  }

  /** str() of an int: a minus sign for negative values, then the digits. */
  function IntToString(i: int): string
  {
    if i < 0 then "-" + NatToString(-i) else NatToString(i)
  }

  /** The value of a string of decimal digits. */
  function DigitsValue(s: string): nat
    requires AllDigits(s)
  {
    if s == [] then 0
    else
      assert AllDigits(s[..|s| - 1]);
      DigitsValue(s[..|s| - 1]) * 10 + (s[|s| - 1] as int - '0' as int)
  }

  /** Reads back what IntToString writes: an optional minus sign followed by
      decimal digits; None for anything else. This is the inverse used by the
      round trip, not the whole of Python's int(), which also takes a plus
      sign, surrounding whitespace and underscores. */
  function ParseInt(s: string): Option<int>
  {
    if |s| >= 2 && s[0] == '-' && AllDigits(s[1..]) then Some(0 - DigitsValue(s[1..]))
    else if |s| >= 1 && AllDigits(s) then Some(DigitsValue(s))
    else None
  }

  lemma {:induction false} NatToStringDigits(n: nat)
    ensures |NatToString(n)| >= 1 && AllDigits(NatToString(n))
    ensures DigitsValue(NatToString(n)) == n
    decreases n
  {
    if n >= 10 {
      var p := NatToString(n / 10);
      NatToStringDigits(n / 10);
      var s := p + [DigitChar(n % 10)];
      assert s[..|s| - 1] == p;
    }
  }

  /** The reader of what IntToString writes gives a digit string its value. */
  lemma ParseDigits(d: string)
    requires |d| >= 1 && AllDigits(d)
    ensures ParseInt(d) == Some(DigitsValue(d))
  {
    assert '0' <= d[0] <= '9';
  }

  /** The reader of what IntToString writes gives a minus sign and a digit
      string the negated value. */
  lemma ParseNegative(d: string)
    requires |d| >= 1 && AllDigits(d)
    ensures ParseInt("-" + d) == Some(0 - DigitsValue(d))
  {
    var s := "-" + d;
    assert s[0] == '-' && s[1..] == d;
  }

  /** Reading back what str() wrote gives the same integer. */
  lemma IntRoundTrip(i: int)
    ensures ParseInt(IntToString(i)) == Some(i)
  {
    if i < 0 {
      NatToStringDigits(-i);
      ParseNegative(NatToString(-i));
    } else {
      NatToStringDigits(i);
      ParseDigits(NatToString(i));
    }
  }

  /** str() of an integer is a single line. */
  lemma IntNoBreak(i: int)
    ensures '\n' !in IntToString(i)
  {
    var s := IntToString(i);
    var d := NatToString(if i < 0 then -i else i);
    NatToStringDigits(if i < 0 then -i else i);
    assert s == d || s == "-" + d;
    assert forall j :: 0 <= j < |d| ==> d[j] != '\n';
  }

  // ---------------------------------------------------------------------
  // Lines

  /** The text between line breaks, in order; a text that ends with a line
      break ends with an empty piece. */
  function SplitLines(s: string): (ls: seq<string>)
    ensures |ls| >= 1
  {
    if s == [] then [""]
    else
      var rest := SplitLines(s[1..]);
      if s[0] == '\n' then [""] + rest else [[s[0]] + rest[0]] + rest[1..]
  }

  /** The lines joined with a line break between each two. */
  function Join(ls: seq<string>): string
    requires |ls| >= 1
  {
    if |ls| == 1 then ls[0] else Join(ls[..|ls| - 1]) + "\n" + ls[|ls| - 1]
  }

  lemma {:induction false} SplitNoBreak(a: string)
    requires '\n' !in a
    ensures SplitLines(a) == [a]
  {
    if a != [] {
      SplitNoBreak(a[1..]);
      assert [a[0]] + a[1..] == a;
    }
  }

  /** A line break followed by a last line without breaks adds that line. */
  lemma {:induction false} SplitAtLastBreak(a: string, b: string)
    requires '\n' !in b
    ensures SplitLines(a + "\n" + b) == SplitLines(a) + [b]
  {
    var s := a + "\n" + b;
    if a == [] {
      assert s[1..] == b;
      SplitNoBreak(b);
    } else {
      assert s[1..] == a[1..] + "\n" + b;
      SplitAtLastBreak(a[1..], b);
    }
  }

  /** Splitting undoes joining when no line holds a break. */
  lemma {:induction false} SplitJoin(ls: seq<string>)
    requires |ls| >= 1
    requires forall i :: 0 <= i < |ls| ==> '\n' !in ls[i]
    ensures SplitLines(Join(ls)) == ls
  {
    if |ls| == 1 {
      SplitNoBreak(ls[0]);
    } else {
      var init := ls[..|ls| - 1];
      SplitAtLastBreak(Join(init), ls[|ls| - 1]);
      SplitJoin(init);
    }
  }

  // ---------------------------------------------------------------------
  // One record

  /** The text written for one record (main.py:410). */
  function FormatRecord(r: Record): string
    requires r.weight.Some? && r.age.Some?
  {
    "{" + "\n telephone: " + r.telephone + "\n weight: " + IntToString(r.weight.value)
    + "\n inn: " + r.inn + "\n passport_series: " + r.passportSeries
    + "\n university: " + r.university + "\n age: " + IntToString(r.age.value)
    + "\n political_views: " + r.politicalViews + "\n worldview: " + r.worldview
    + "\n address: " + r.address + "\n" + "}\n"
  }

  /** The line " name: value" that FormatRecord writes for one field. */
  function Line(name: string, value: string): string
  {
    " " + name + ": " + value
  }

  /** The same text, line by line. */
  function RecordLines(r: Record): (ls: seq<string>)
    requires r.weight.Some? && r.age.Some?
    ensures |ls| == 12
  {
    ["{",
     Line("telephone", r.telephone),
     Line("weight", IntToString(r.weight.value)),
     Line("inn", r.inn),
     Line("passport_series", r.passportSeries),
     Line("university", r.university),
     Line("age", IntToString(r.age.value)),
     Line("political_views", r.politicalViews),
     Line("worldview", r.worldview),
     Line("address", r.address),
     "}",
     ""]
  }

  /** The separators FormatRecord writes are a line break and a field head:
      the first five fields. */
  lemma HeadSeparators()
    ensures "\n telephone: " == "\n" + " " + "telephone" + ": "
    ensures "\n weight: " == "\n" + " " + "weight" + ": "
    ensures "\n inn: " == "\n" + " " + "inn" + ": "
    ensures "\n passport_series: " == "\n" + " " + "passport_series" + ": "
    ensures "\n university: " == "\n" + " " + "university" + ": "
  {
  }

  /** The same for the last four fields. */
  lemma TailSeparators()
    ensures "\n age: " == "\n" + " " + "age" + ": "
    ensures "\n political_views: " == "\n" + " " + "political_views" + ": "
    ensures "\n worldview: " == "\n" + " " + "worldview" + ": "
    ensures "\n address: " == "\n" + " " + "address" + ": "
  {
  }

  /** One more labelled field: appending a separator and a value is appending
      a line break and that field's line. */
  lemma NextLine(x: string, sep: string, name: string, v: string)
    requires sep == "\n" + " " + name + ": "
    ensures x + sep + v == x + "\n" + Line(name, v)
  {
  }

  lemma JoinSnoc(ls: seq<string>, n: nat)
    requires 1 <= n < |ls|
    ensures Join(ls[..n + 1]) == Join(ls[..n]) + "\n" + ls[n]
  {
    assert ls[..n + 1][..n] == ls[..n];
  }

  /** The first six lines: the brace and the fields up to university. */
  lemma FirstLines(r: Record)
    requires r.weight.Some? && r.age.Some?
    ensures Join(RecordLines(r)[..6]) ==
      "{" + "\n telephone: " + r.telephone + "\n weight: " + IntToString(r.weight.value)
      + "\n inn: " + r.inn + "\n passport_series: " + r.passportSeries
      + "\n university: " + r.university
  {
    var ls := RecordLines(r);
    var w := IntToString(r.weight.value);
    HeadSeparators();
    var p0 := "{";
    assert Join(ls[..1]) == p0;
    var p1 := p0 + "\n telephone: " + r.telephone;
    NextLine(p0, "\n telephone: ", "telephone", r.telephone);
    JoinSnoc(ls, 1);
    var p2 := p1 + "\n weight: " + w;
    NextLine(p1, "\n weight: ", "weight", w);
    JoinSnoc(ls, 2);
    var p3 := p2 + "\n inn: " + r.inn;
    NextLine(p2, "\n inn: ", "inn", r.inn);
    JoinSnoc(ls, 3);
    var p4 := p3 + "\n passport_series: " + r.passportSeries;
    NextLine(p3, "\n passport_series: ", "passport_series", r.passportSeries);
    JoinSnoc(ls, 4);
    NextLine(p4, "\n university: ", "university", r.university);
    JoinSnoc(ls, 5);
  }

  /** The text FormatRecord writes is its twelve lines joined by line breaks. */
  lemma FormatIsLines(r: Record)
    requires r.weight.Some? && r.age.Some?
    ensures FormatRecord(r) == Join(RecordLines(r))
  {
    var ls := RecordLines(r);
    var a := IntToString(r.age.value);
    FirstLines(r);
    TailSeparators();
    var p5 := Join(ls[..6]);
    var p6 := p5 + "\n age: " + a;
    NextLine(p5, "\n age: ", "age", a);
    JoinSnoc(ls, 6);
    var p7 := p6 + "\n political_views: " + r.politicalViews;
    NextLine(p6, "\n political_views: ", "political_views", r.politicalViews);
    JoinSnoc(ls, 7);
    var p8 := p7 + "\n worldview: " + r.worldview;
    NextLine(p7, "\n worldview: ", "worldview", r.worldview);
    JoinSnoc(ls, 8);
    var p9 := p8 + "\n address: " + r.address;
    NextLine(p8, "\n address: ", "address", r.address);
    JoinSnoc(ls, 9);
    JoinSnoc(ls, 10);
    JoinSnoc(ls, 11);
    assert ls[..12] == ls;
    assert p9 + "\n" + "}\n" == p9 + "\n" + "}" + "\n" + "";
  }

  /** The value of a " name: value" line with the given name. */
  function FieldValue(line: string, name: string): Option<string>
  {
    var head := " " + name + ": ";
    if |head| <= |line| && line[..|head|] == head then Some(line[|head|..]) else None
  }

  /** Reads one record back from its text; None when the text does not have
      the shape FormatRecord writes. */
  function ParseRecord(text: string): Option<Record>
  {
    ParseLines(SplitLines(text))
  }

  /** Reads one record back from its lines. */
  function ParseLines(ls: seq<string>): Option<Record>
  {
    if |ls| != 12 || ls[0] != "{" || ls[10] != "}" || ls[11] != "" then None
    else
      var telephone := FieldValue(ls[1], "telephone");
      var weight := FieldValue(ls[2], "weight");
      var inn := FieldValue(ls[3], "inn");
      var passport := FieldValue(ls[4], "passport_series");
      var university := FieldValue(ls[5], "university");
      var age := FieldValue(ls[6], "age");
      var views := FieldValue(ls[7], "political_views");
      var worldview := FieldValue(ls[8], "worldview");
      var address := FieldValue(ls[9], "address");
      if telephone.None? || weight.None? || inn.None? || passport.None? || university.None?
        || age.None? || views.None? || worldview.None? || address.None? then None
      else
        var w := ParseInt(weight.value);
        var a := ParseInt(age.value);
        if w.None? || a.None? then None
        else Some(Record(telephone.value, w, inn.value, passport.value, university.value,
                         a, views.value, worldview.value, address.value))
  }

  predicate NoBreaks(r: Record)
  {
    && '\n' !in r.telephone && '\n' !in r.inn && '\n' !in r.passportSeries
    && '\n' !in r.university && '\n' !in r.politicalViews && '\n' !in r.worldview
    && '\n' !in r.address
  }

  /** A field's line reads back as that field's value. */
  lemma LabelledValue(name: string, value: string)
    ensures FieldValue(Line(name, value), name) == Some(value)
  {
    var head := " " + name + ": ";
    assert Line(name, value) == head + value;
    assert (head + value)[..|head|] == head;
    assert (head + value)[|head|..] == value;
  }

  /** A field's line holds no line break when the name and value hold none. */
  lemma LineNoBreak(name: string, value: string)
    requires '\n' !in name && '\n' !in value
    ensures '\n' !in Line(name, value)
  {
    var head := " " + name + ": ";
    var line := head + value;
    assert Line(name, value) == line;
    forall i | 0 <= i < |line| ensures line[i] != '\n' {
      if i >= |head| {
        assert line[i] == value[i - |head|];
      } else if i > |name| {
        assert line[i] == ": "[i - |name| - 1];
      } else if i >= 1 {
        assert line[i] == name[i - 1];
      } else {
        assert line[i] == ' ';
      }
    }
  }

  /** What FormatRecord writes reads back as the same record, provided no
      text field holds a line break. */
  lemma FormatRoundTrip(r: Record)
    requires r.weight.Some? && r.age.Some? && NoBreaks(r)
    ensures ParseRecord(FormatRecord(r)) == Some(r)
  {
    var ls := RecordLines(r);
    LinesHaveNoBreaks(r);
    FormatIsLines(r);
    SplitJoin(ls);
    ParseRecordLines(r);
  }

  /** The twelve lines of a record read back as that record. */
  lemma ParseRecordLines(r: Record)
    requires r.weight.Some? && r.age.Some?
    ensures ParseLines(RecordLines(r)) == Some(r)
  {
    var w, a := IntToString(r.weight.value), IntToString(r.age.value);
    IntRoundTrip(r.weight.value);
    IntRoundTrip(r.age.value);
    LabelledValue("telephone", r.telephone);
    LabelledValue("weight", w);
    LabelledValue("inn", r.inn);
    LabelledValue("passport_series", r.passportSeries);
    LabelledValue("university", r.university);
    LabelledValue("age", a);
    LabelledValue("political_views", r.politicalViews);
    LabelledValue("worldview", r.worldview);
    LabelledValue("address", r.address);
  }

  lemma LinesHaveNoBreaks(r: Record)
    requires r.weight.Some? && r.age.Some? && NoBreaks(r)
    ensures forall i :: 0 <= i < 12 ==> '\n' !in RecordLines(r)[i]
  {
    IntNoBreak(r.weight.value);
    IntNoBreak(r.age.value);
    LineNoBreak("telephone", r.telephone);
    LineNoBreak("weight", IntToString(r.weight.value));
    LineNoBreak("inn", r.inn);
    LineNoBreak("passport_series", r.passportSeries);
    LineNoBreak("university", r.university);
    LineNoBreak("age", IntToString(r.age.value));
    LineNoBreak("political_views", r.politicalViews);
    LineNoBreak("worldview", r.worldview);
    LineNoBreak("address", r.address);
  }

  // ---------------------------------------------------------------------
  // The output file

  predicate Printable(rs: seq<Record>)
  {
    forall i :: 0 <= i < |rs| ==> rs[i].weight.Some? && rs[i].age.Some?
  }

  /** Every record's text, one after another, in list order. */
  function FormatAll(rs: seq<Record>): string
    requires Printable(rs)
  {
    if rs == [] then ""
    else
      var init := rs[..|rs| - 1];
      assert Printable(init) by {
        assert forall i :: 0 <= i < |init| ==> init[i] == rs[i];
      }
      FormatAll(init) + FormatRecord(rs[|rs| - 1])
  }

  lemma PrintableAppend(a: seq<Record>, b: seq<Record>)
    requires Printable(a) && Printable(b)
    ensures Printable(a + b)
  {
    var ab := a + b;
    forall k | 0 <= k < |ab| ensures ab[k].weight.Some? && ab[k].age.Some? {
      if k < |a| {
        assert ab[k] == a[k];
      } else {
        assert ab[k] == b[k - |a|];
      }
    }
  }

  /** Appending one record appends its text. */
  lemma FormatAllSnoc(s: seq<Record>, r: Record)
    requires Printable(s) && r.weight.Some? && r.age.Some?
    ensures Printable(s + [r])
    ensures FormatAll(s + [r]) == FormatAll(s) + FormatRecord(r)
  {
    PrintableAppend(s, [r]);
    var t := s + [r];
    assert t[..|t| - 1] == s && t[|t| - 1] == r;
  }

  /** The text of two lists, one after the other, is the text of the two
      lists' records in order. */
  lemma {:induction false} FormatAllAppend(a: seq<Record>, b: seq<Record>)
    requires Printable(a) && Printable(b)
    ensures Printable(a + b)
    ensures FormatAll(a + b) == FormatAll(a) + FormatAll(b)
    decreases |b|
  {
    PrintableAppend(a, b);
    if b == [] {
      assert a + b == a;
      var x := FormatAll(a);
      assert x + "" == x;
    } else {
      var init, last := b[..|b| - 1], b[|b| - 1];
      assert b == init + [last];
      assert a + b == (a + init) + [last];
      assert Printable(init) by {
        assert forall k :: 0 <= k < |init| ==> init[k] == b[k];
      }
      FormatAllAppend(a, init);
      FormatAllSnoc(a + init, last);
      FormatAllSnoc(init, last);
      AppendAssoc(FormatAll(a), FormatAll(init), FormatRecord(last));
    }
  }

  lemma AppendAssoc(x: string, y: string, z: string)
    ensures (x + y) + z == x + (y + z)
  {
  }

  /** One more record appends its text. */
  lemma FormatAllStep(rs: seq<Record>, i: int)
    requires Printable(rs) && 0 <= i < |rs|
    ensures Printable(rs[..i]) && Printable(rs[..i + 1])
    ensures FormatAll(rs[..i + 1]) == FormatAll(rs[..i]) + FormatRecord(rs[i])
  {
    var t := rs[..i + 1];
    assert forall k :: 0 <= k < |t| ==> t[k] == rs[k];
    assert t[..|t| - 1] == rs[..i];
  }

  /** The writing loop: one output.write per record, in list order. */
  method WriteRecords(validatedData: seq<Record>) returns (text: string)
    requires Printable(validatedData)
    ensures text == FormatAll(validatedData)
  {
    text := "";
    for i := 0 to |validatedData|
      invariant Printable(validatedData[..i])
      invariant text == FormatAll(validatedData[..i])
    {
      var element := validatedData[i];
      FormatAllStep(validatedData, i);
      text := text + FormatRecord(element);
    }
    assert validatedData[..|validatedData|] == validatedData;
  }
}
