/** The nine per-field checks of the Validator class. Each regular expression
    the class uses is small and fixed, so each is written here as a
    hand-made matcher over characters, together with the plain statement of
    what it accepts. Digits are the ASCII digits '0'..'9'. */
module FieldRules {
  import opened Records

  predicate IsDigit(c: char)
  {
    '0' <= c <= '9'
  }

  /** `[а-яА-я]`: the range `А-я`, U+0410 through U+044F, which also holds
      `а-я`; 'ё' and 'Ё' fall outside it. */
  predicate IsCyrillic(c: char)
  {
    '\U{0410}' <= c <= '\U{044F}'
  }

  /** The three character classes of the `[...]+$` patterns. */
  datatype CharClass =
    | NameClass        // [а-яА-я .]     political views, worldview
    | UniversityClass  // [а-яА-я .-]    university
    | AddressClass     // [а-яА-я0-9 .]  address

  predicate InClass(c: char, k: CharClass)
  {
    match k
    case NameClass => IsCyrillic(c) || c == ' ' || c == '.'
    case UniversityClass => IsCyrillic(c) || c == ' ' || c == '.' || c == '-'
    case AddressClass => IsCyrillic(c) || IsDigit(c) || c == ' ' || c == '.'
  }

  predicate AllIn(s: string, k: CharClass)
  {
    forall i :: 0 <= i < |s| ==> InClass(s[i], k)
  }

  /** A run of the class, seen from its first character. */
  lemma AllInTail(s: string, k: CharClass)
    requires |s| >= 1
    ensures AllIn(s, k) <==> InClass(s[0], k) && AllIn(s[1..], k)
  {
    if InClass(s[0], k) && AllIn(s[1..], k) {
      forall i | 1 <= i < |s| ensures InClass(s[i], k) {
        assert s[i] == s[1..][i - 1];
      }
    }
  }

  lemma AllInInitTail(s: string, k: CharClass)
    requires |s| >= 2
    ensures AllIn(s[..|s| - 1], k) <==> InClass(s[0], k) && AllIn(s[1..][..|s| - 2], k)
  {
    AllInTail(s[..|s| - 1], k);
    assert s[..|s| - 1][1..] == s[1..][..|s| - 2];
  }

  // ---------------------------------------------------------------------
  // Fixed-shape patterns, matched with re.match (anchored at the start only)

  /** One position of a fixed-shape pattern: 'D' stands for `\d`, any other
      character for itself. */
  predicate Fits(c: char, t: char)
  {
    if t == 'D' then IsDigit(c) else c == t
  }

  /** re.match of a fixed-shape pattern `t`: the string starts with a match
      of `t`; whatever follows is ignored. Scans one character at a time. */
  function MatchPrefix(s: string, t: string): (b: bool)
    ensures b <==> |t| <= |s| && forall i :: 0 <= i < |t| ==> Fits(s[i], t[i])
  {
    if t == [] then true
    else if s == [] then false
    else if !Fits(s[0], t[0]) then false
    else
      var rest := MatchPrefix(s[1..], t[1..]);
      assert forall i :: 1 <= i < |t| && i < |s| ==> s[1..][i - 1] == s[i] && t[1..][i - 1] == t[i];
      rest
  }

  /** `[+]\d[-][(]\d\d\d[)][-]\d\d\d[-]\d\d[-]\d\d` */
  const TelephonePattern := "+D-(DDD)-DDD-DD-DD"
  /** `\d{12}` */
  const InnPattern := "DDDDDDDDDDDD"
  /** `\d\d[ ]\d\d` */
  const PassportPattern := "DD DD"

  // ---------------------------------------------------------------------
  // Whole-string patterns `[class]+$`, matched with re.match

  /** What may follow the first character of a `[class]+$` match: more of
      the class, then the end of the string or a single final "\n" (Python's
      `$` also matches just before a newline that ends the string). */
  function RunTail(s: string, k: CharClass): (b: bool)
    ensures b <==> AllIn(s, k) || (|s| >= 1 && s[|s| - 1] == '\n' && AllIn(s[..|s| - 1], k))
  {
    if s == [] then true
    else if s == "\n" then true
    else if !InClass(s[0], k) then false
    else
      var rest := RunTail(s[1..], k);
      AllInTail(s, k);
      if |s| >= 2 then
        AllInInitTail(s, k);
        rest
      else
        rest
  }

  /** re.match(`[class]+$`, s) succeeds. */
  function MatchRunToEnd(s: string, k: CharClass): (b: bool)
    ensures b <==>
      || (|s| >= 1 && AllIn(s, k))
      || (|s| >= 2 && s[|s| - 1] == '\n' && AllIn(s[..|s| - 1], k))
  {
    if s == [] || !InClass(s[0], k) then false
    else
      var rest := RunTail(s[1..], k);
      AllInTail(s, k);
      if |s| >= 2 then
        AllInInitTail(s, k);
        rest
      else
        rest
  }

  // ---------------------------------------------------------------------
  // str.find and str.startswith

  predicate StartsWith(s: string, p: string)
  {
    |p| <= |s| && s[..|p|] == p
  }

  predicate OccursAt(s: string, sub: string, j: int)
  {
    0 <= j && j + |sub| <= |s| && s[j..j + |sub|] == sub
  }

  /** str.find from position i: the lowest index at or after i where `sub`
      occurs, or -1 when there is none. */
  function FindFrom(s: string, sub: string, i: nat): (r: int)
    requires i <= |s|
    ensures r == -1 || (i <= r && OccursAt(s, sub, r))
    ensures forall j :: i <= j && (r == -1 || j < r) ==> !OccursAt(s, sub, j)
    decreases |s| - i
  {
    if i + |sub| > |s| then -1
    else if s[i..i + |sub|] == sub then i
    else FindFrom(s, sub, i + 1)
  }

  /** str.find(sub) */
  function Find(s: string, sub: string): int
  {
    FindFrom(s, sub, 0)
  }

  /** `not s.find(sub)` is true exactly when s starts with sub. */
  lemma FindIsZeroIffStartsWith(s: string, sub: string)
    ensures Find(s, sub) == 0 <==> StartsWith(s, sub)
  {
    if StartsWith(s, sub) {
      assert OccursAt(s, sub, 0);
    }
  }

  const UniversityWord := "университет"
  const StreetPrefix := "ул. "

  // ---------------------------------------------------------------------
  // The nine checks

  /** check_telephone_number */
  function CheckTelephoneNumber(s: string): (ok: bool)
    ensures ok <==>
      && |s| >= 18
      && s[0] == '+' && IsDigit(s[1]) && s[2] == '-'
      && s[3] == '(' && IsDigit(s[4]) && IsDigit(s[5]) && IsDigit(s[6]) && s[7] == ')'
      && s[8] == '-' && IsDigit(s[9]) && IsDigit(s[10]) && IsDigit(s[11])
      && s[12] == '-' && IsDigit(s[13]) && IsDigit(s[14])
      && s[15] == '-' && IsDigit(s[16]) && IsDigit(s[17])
  {
    MatchPrefix(s, TelephonePattern)
  }

  /** check_weight: int() of the value, then the range test. */
  function CheckWeight(v: Option<int>): (ok: bool)
    ensures ok <==> v.Some? && 0 < v.value <= 150
  {
    match v
    case None => false
    case Some(value) => !(value > 150 || value <= 0)
  }

  /** check_inn */
  function CheckInn(s: string): (ok: bool)
    ensures ok <==> |s| >= 12 && forall i :: 0 <= i < 12 ==> IsDigit(s[i])
  {
    MatchPrefix(s, InnPattern)
  }

  /** check_passport_series */
  function CheckPassportSeries(s: string): (ok: bool)
    ensures ok <==> |s| >= 5 && IsDigit(s[0]) && IsDigit(s[1]) && s[2] == ' ' && IsDigit(s[3]) && IsDigit(s[4])
  {
    MatchPrefix(s, PassportPattern)
  }

  /** check_university: the whole-string pattern, and `not find(...)` rejects
      only a name whose FIRST word is "университет". */
  function CheckUniversity(s: string): (ok: bool)
    ensures ok <==>
      && ((|s| >= 1 && AllIn(s, UniversityClass)) || (|s| >= 2 && s[|s| - 1] == '\n' && AllIn(s[..|s| - 1], UniversityClass)))
      && !StartsWith(s, UniversityWord)
  {
    FindIsZeroIffStartsWith(s, UniversityWord);
    !(!MatchRunToEnd(s, UniversityClass) || Find(s, UniversityWord) == 0)
  }

  /** check_age: same rule as check_weight. */
  function CheckAge(v: Option<int>): (ok: bool)
    ensures ok <==> v.Some? && 0 < v.value <= 150
  {
    match v
    case None => false
    case Some(value) => !(value > 150 || value <= 0)
  }

  /** check_political_views */
  function CheckPoliticalViews(s: string): (ok: bool)
    ensures ok <==> (|s| >= 1 && AllIn(s, NameClass)) || (|s| >= 2 && s[|s| - 1] == '\n' && AllIn(s[..|s| - 1], NameClass))
  {
    MatchRunToEnd(s, NameClass)
  }

  /** check_worldview */
  function CheckWorldview(s: string): (ok: bool)
    ensures ok <==> (|s| >= 1 && AllIn(s, NameClass)) || (|s| >= 2 && s[|s| - 1] == '\n' && AllIn(s[..|s| - 1], NameClass))
  {
    MatchRunToEnd(s, NameClass)
  }

  /** check_address: the whole-string pattern and the street prefix. */
  function CheckAddress(s: string): (ok: bool)
    ensures ok <==>
      && ((|s| >= 1 && AllIn(s, AddressClass)) || (|s| >= 2 && s[|s| - 1] == '\n' && AllIn(s[..|s| - 1], AddressClass)))
      && StartsWith(s, StreetPrefix)
  {
    !(!MatchRunToEnd(s, AddressClass) || !StartsWith(s, StreetPrefix))
  }

  // ---------------------------------------------------------------------
  // Properties

  /** The fixed-shape checks look only at their leading characters: once a
      string is long enough, nothing appended to it changes the verdict. */
  lemma {:induction false} MatchPrefixIgnoresTail(s: string, t: string, tail: string)
    requires |t| <= |s|
    ensures MatchPrefix(s + tail, t) == MatchPrefix(s, t)
  {
    assert forall i :: 0 <= i < |t| ==> (s + tail)[i] == s[i];
  }

  lemma PrefixChecksIgnoreTail(s: string, tail: string)
    ensures |s| >= 18 ==> CheckTelephoneNumber(s + tail) == CheckTelephoneNumber(s)
    ensures |s| >= 12 ==> CheckInn(s + tail) == CheckInn(s)
    ensures |s| >= 5 ==> CheckPassportSeries(s + tail) == CheckPassportSeries(s)
  {
    if |s| >= 18 { MatchPrefixIgnoresTail(s, TelephonePattern, tail); }
    if |s| >= 12 { MatchPrefixIgnoresTail(s, InnPattern, tail); }
    if |s| >= 5 { MatchPrefixIgnoresTail(s, PassportPattern, tail); }
  }

  /** `$` accepts one final newline after a run of the class, but not two. */
  lemma {:induction false} RunToEndFinalNewline(s: string, k: CharClass)
    ensures MatchRunToEnd(s + "\n", k) <==> |s| >= 1 && AllIn(s, k)
    ensures !MatchRunToEnd(s + "\n\n", k)
  {
    var s1 := s + "\n";
    assert s1[..|s1| - 1] == s;
    assert !InClass(s1[|s1| - 1], k);
    var s2 := s + "\n\n";
    assert !InClass(s2[|s2| - 2], k);
    assert s2[..|s2| - 1][|s2| - 2] == '\n';
  }

  /** The university rule does not ask for the word "университет": a name
      without it passes, and a name that starts with it fails. */
  lemma UniversityWordNotRequired()
    ensures CheckUniversity("МГУ")
  {
    assert "МГУ"[0] != UniversityWord[0];
  }

  lemma UniversityWordFirstRejected()
    ensures !CheckUniversity("университет")
  {
    assert StartsWith("университет", UniversityWord);
  }
}
