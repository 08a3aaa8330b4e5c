/**
 * Month resolution: `parseMonth` turns the request's month designator into a
 * month number 1..12, accepting digits, French names (with and without
 * accents) and English names, after trimming and lower-casing.
 */
module Months {
  import opened Common
  import opened Text

  /** The month field of the JSON body: a string or an (integral) number. */
  datatype MonthInput = Str(s: string) | Num(n: int)

  /** JavaScript falsiness of the month field: `""` and `0`. */
  predicate IsFalsy(input: MonthInput) {
    input == Str("") || input == Num(0)
  }

  /** `(input || "").toString()`. */
  function InputText(input: MonthInput): string {
    match input
    case Str(s) => s
    case Num(n) => if n == 0 then "" else DecimalString(n)
  }

  /** `"" + input`, as it appears in the error message. */
  function MessageText(input: MonthInput): string {
    match input
    case Str(s) => s
    case Num(n) => DecimalString(n)
  }

  /** A canonical month number. */
  type Month = m: int | 1 <= m <= 12 witness 1

  const FrenchMonths: map<string, Month> := map[
    "janvier" := 1, "f\U{E9}vrier" := 2, "fevrier" := 2, "mars" := 3, "avril" := 4,
    "mai" := 5, "juin" := 6, "juillet" := 7, "ao\U{FB}t" := 8, "aout" := 8,
    "septembre" := 9, "octobre" := 10, "novembre" := 11, "d\U{E9}cembre" := 12,
    "decembre" := 12]

  const EnglishMonths: map<string, Month> := map[
    "january" := 1, "february" := 2, "march" := 3, "april" := 4, "may" := 5,
    "june" := 6, "july" := 7, "august" := 8, "september" := 9, "october" := 10,
    "november" := 11, "december" := 12]

  /** The canonical key the tables are looked up with: trimmed, then lower-cased. */
  function Normalize(s: string): string {
    ToLower(Trim(s))
  }

  /** The month a normalized key names: digits in 1..12, else a French, else an English name. */
  function ResolveKey(t: string): (r: Option<Month>)
    ensures r.None? ==> t !in FrenchMonths && t !in EnglishMonths
  {
    if AllDigits(t) && 1 <= DigitsValue(t) <= 12 then Some(DigitsValue(t))
    else if t in FrenchMonths then Some(FrenchMonths[t])
    else if t in EnglishMonths then Some(EnglishMonths[t])
    else None
  }

  /** The month a designator names, if any (the value `parseMonth` returns). */
  function ResolveMonth(s: string): Option<Month> {
    ResolveKey(Normalize(s))
  }

  /** `parseMonth`: a month number in 1..12, or the "Mois invalide" error it throws. */
  function ParseMonth(input: MonthInput): (r: Result<Month>)
    ensures r.Err? ==> r.message == "Mois invalide: " + MessageText(input)
    ensures r.Ok? <==> ResolveMonth(InputText(input)).Some?
  {
    match ResolveMonth(InputText(input))
    case Some(m) => Ok(m)
    case None => Err("Mois invalide: " + MessageText(input))
  }

  /** Surrounding whitespace never changes the month a designator resolves to. */
  lemma ResolveIgnoresPadding(pre: string, s: string, post: string)
    requires AllWhitespace(pre) && AllWhitespace(post)
    ensures ResolveMonth(pre + s + post) == ResolveMonth(s)
  {
    TrimPadded(pre, s, post);
  }

  /** Letter case never changes the month a designator resolves to. */
  lemma ResolveIgnoresCase(s: string)
    ensures ResolveMonth(ToLower(s)) == ResolveMonth(s)
  {
    TrimToLower(s);
    ToLowerIdempotent(Trim(s));
  }

  /** Every table key is a lower-case word, so it never starts with a digit or a sign. */
  lemma TableKeysAreWords(t: string)
    requires t in FrenchMonths || t in EnglishMonths
    ensures |t| > 0 && 'a' <= t[0] <= 'z'
  {
  }

  /** A string whose two ends are not whitespace is its own trim. */
  lemma TrimUnpadded(s: string)
    requires |s| > 0 && !IsWhitespace(s[0]) && !IsWhitespace(s[|s| - 1])
    ensures Trim(s) == s
  {
  }

  /** A key that starts with a digit or a sign is in neither table. */
  lemma NotAName(t: string)
    requires |t| > 0 && (IsDigit(t[0]) || t[0] == '-')
    ensures t !in FrenchMonths && t !in EnglishMonths
  {
    if t in FrenchMonths || t in EnglishMonths {
      TableKeysAreWords(t);
    }
  }

  /** The text of a non-zero number is already in normal form. */
  lemma NumberNormalized(n: int)
    requires n != 0
    ensures Normalize(InputText(Num(n))) == DecimalString(n)
  {
    var s := DecimalString(n);
    var digits := NatDigits(if n < 0 then -n else n);
    assert IsDigit(s[|s| - 1]) by {
      assert s[|s| - 1] == digits[|digits| - 1];
    }
    assert !IsWhitespace(s[0]) by {
      if n > 0 { assert IsDigit(s[0]); }
    }
    TrimUnpadded(s);
    forall i | 0 <= i < |s| ensures LowerChar(s[i]) == s[i] {
      if n < 0 && i > 0 {
        assert s[i] == digits[i - 1];
      }
    }
    ToLowerUnchanged(s);
  }

  /** The digits of a natural number resolve to it exactly when it is in 1..12. */
  lemma DigitsKey(n: nat)
    ensures ResolveKey(NatDigits(n)) == if 1 <= n <= 12 then Some(n) else None
  {
    DigitsRoundTrip(n);
    NotAName(NatDigits(n));
  }

  /** A numeric month is accepted exactly when it lies in 1..12, and then it is itself. */
  lemma NumericMonth(n: int)
    ensures ParseMonth(Num(n)).Ok? <==> 1 <= n <= 12
    ensures ParseMonth(Num(n)).Ok? ==> ParseMonth(Num(n)).value == n
  {
    assert ResolveMonth(InputText(Num(n))) == if 1 <= n <= 12 then Some(n) else None by {
      NumberResolves(n);
    }
  }

  /** The month a number's text resolves to: the number itself when it is in 1..12. */
  lemma NumberResolves(n: int)
    ensures ResolveMonth(InputText(Num(n))) == if 1 <= n <= 12 then Some(n) else None
  {
    if n > 0 {
      NumberNormalized(n);
      DigitsKey(n);
    } else if n < 0 {
      NumberNormalized(n);
      var s := DecimalString(n);
      assert !AllDigits(s) by { assert !IsDigit(s[0]); }
      NotAName(s);
    } else {
      assert Trim("") == "" && ToLower("") == "";
    }
  }

  /** A value of the month tables as a plain JavaScript object lookup yields it. */
  datatype LookupValue = OwnValue(n: int) | InheritedMember(name: string)

  /**
   * The names `Object.prototype` gives every object literal that are spelled
   * in lower case. Its other members (`toString`, `valueOf`, `hasOwnProperty`,
   * `__defineGetter__`, ...) all contain a capital letter, so a lower-cased
   * key never names them.
   */
  const PrototypeMembers: set<string> := {"constructor", "__proto__"}

  /** `table[key]` on an object literal: an own property, else an inherited one. */
  function ObjectGet(table: map<string, Month>, key: string): Option<LookupValue> {
    if key in table then Some(OwnValue(table[key]))
    else if key in PrototypeMembers then Some(InheritedMember(key))
    else None
  }

  /**
   * `parseMonth` as written: the table lookups also see inherited members,
   * which are truthy functions or objects, so they are returned as the month.
   */
  function ParseMonthAsWritten(input: MonthInput): (r: Result<LookupValue>)
    ensures r.Ok? && r.value.OwnValue? ==> 1 <= r.value.n <= 12
    ensures r.Ok? && r.value.InheritedMember? ==> r.value.name in PrototypeMembers
    ensures r.Err? ==> r.message == "Mois invalide: " + MessageText(input)
  {
    match LookupKeyAsWritten(Normalize(InputText(input)))
    case Some(v) => Ok(v)
    case None => Err("Mois invalide: " + MessageText(input))
  }

  /** The value `parseMonth` as written finds for a normalized key. */
  function LookupKeyAsWritten(t: string): (v: Option<LookupValue>)
    ensures v.Some? && v.value.OwnValue? ==> 1 <= v.value.n <= 12
    ensures v.Some? && v.value.InheritedMember? ==> v.value.name == t && t in PrototypeMembers
  {
    if AllDigits(t) && 1 <= DigitsValue(t) <= 12 then Some(OwnValue(DigitsValue(t)))
    else if ObjectGet(FrenchMonths, t).Some? then ObjectGet(FrenchMonths, t)
    else ObjectGet(EnglishMonths, t)
  }

  /** No month name of either table is also a member every object inherits. */
  lemma FrenchKeysNotInherited()
    ensures forall k :: k in PrototypeMembers ==> k !in FrenchMonths
  {
    forall k | k in PrototypeMembers ensures k !in FrenchMonths { }
  }

  lemma EnglishKeysNotInherited()
    ensures forall k :: k in PrototypeMembers ==> k !in EnglishMonths
  {
    forall k | k in PrototypeMembers ensures k !in EnglishMonths { }
  }

  /** On every key the corrected lookup resolves, the lookup as written finds the same month. */
  lemma KeyAgrees(t: string)
    requires ResolveKey(t).Some?
    ensures LookupKeyAsWritten(t) == Some(OwnValue(ResolveKey(t).value))
  {
    FrenchKeysNotInherited();
    EnglishKeysNotInherited();
    if AllDigits(t) && 1 <= DigitsValue(t) <= 12 {
    } else if t in FrenchMonths {
      assert ObjectGet(FrenchMonths, t) == Some(OwnValue(FrenchMonths[t]));
    } else {
      assert t in EnglishMonths;
      assert ObjectGet(FrenchMonths, t) == None;
    }
  }

  /** On every designator the corrected `ParseMonth` accepts, the code as written agrees with it. */
  lemma AsWrittenAgreesOnMonths(input: MonthInput)
    requires ParseMonth(input).Ok?
    ensures ParseMonthAsWritten(input) == Ok(OwnValue(ParseMonth(input).value))
  {
    KeyAgrees(Normalize(InputText(input)));
  }

  /** A designator parses to the month its normalized key resolves to. */
  lemma ParsesAs(s: string, t: string, m: Month)
    requires Normalize(s) == t && ResolveKey(t) == Some(m)
    ensures ParseMonth(Str(s)) == Ok(m)
  {
  }

  /** A designator whose normalized key resolves to nothing is rejected. */
  lemma RejectedAs(s: string, t: string)
    requires Normalize(s) == t && ResolveKey(t) == None
    ensures ParseMonth(Str(s)) == Err("Mois invalide: " + s)
  {
  }

  lemma NormalizeConstructor()
    ensures Normalize("constructor") == "constructor"
  {
    NormalizeWord("constructor");
  }

  /** A non-empty word of lower-case ASCII letters is already in normal form. */
  lemma NormalizeWord(s: string)
    requires |s| > 0 && forall i :: 0 <= i < |s| ==> 'a' <= s[i] <= 'z'
    ensures Normalize(s) == s
  {
    LowerWord(s);
    LetterNotWhitespace(s[0]);
    LetterNotWhitespace(s[|s| - 1]);
    TrimUnpadded(s);
  }

  lemma LetterNotWhitespace(c: char)
    requires 'a' <= c <= 'z'
    ensures !IsWhitespace(c)
  {
  }

  lemma LookupConstructor()
    ensures LookupKeyAsWritten("constructor") == Some(InheritedMember("constructor"))
    ensures ResolveKey("constructor") == None
  {
    assert !AllDigits("constructor") by { assert !IsDigit("constructor"[0]); }
  }

  /**
   * The discrepancy: `"constructor"` is rejected by the corrected `ParseMonth`
   * but accepted as written, with `Object` itself as the "month".
   */
  lemma ConstructorAcceptedAsWritten()
    ensures ParseMonth(Str("constructor")).Err?
    ensures ParseMonthAsWritten(Str("constructor")) == Ok(InheritedMember("constructor"))
  {
    NormalizeConstructor();
    LookupConstructor();
    RejectedAs("constructor", "constructor");
  }

  lemma TrimNovembre()
    ensures Trim("Novembre ") == "Novembre"
  {
    var s := "Novembre ";
    assert TrimStart(s) == s;
    assert s[..|s| - 1] == "Novembre";
    assert TrimEnd("Novembre") == "Novembre";
  }

  lemma LowerNovembre()
    ensures ToLower("Novembre") == "novembre"
  {
    var s := "Novembre";
    LowerWord(s[1..]);
    assert LowerChar(s[0]) == 'n';
    assert ToLower(s) == [LowerChar(s[0])] + ToLower(s[1..]);
  }

  lemma NormalizeNovembre()
    ensures Normalize("Novembre ") == "novembre"
  {
    TrimNovembre();
    LowerNovembre();
  }

  /** `"Novembre "` names November. */
  lemma PaddedCapitalExample()
    ensures ParseMonth(Str("Novembre ")) == Ok(11)
  {
    NormalizeNovembre();
    assert !AllDigits("novembre") by { assert !IsDigit("novembre"[0]); }
    ParsesAs("Novembre ", "novembre", 11);
  }

  /** `"november"` names November. */
  lemma EnglishNameExample()
    ensures ParseMonth(Str("november")) == Ok(11)
  {
    NormalizeWord("november");
    assert ResolveKey("november") == Some(11) by {
      assert !AllDigits("november") by { assert !IsDigit("november"[0]); }
      FrenchEightLetterKeys("november");
    }
    ParsesAs("november", "november", 11);
  }

  /** The French spellings without accents name the same months as the accented ones. */
  lemma AccentFreeSpellings()
    ensures ResolveKey("fevrier") == ResolveKey("f\U{E9}vrier") == Some(2)
    ensures ResolveKey("aout") == ResolveKey("ao\U{FB}t") == Some(8)
    ensures ResolveKey("decembre") == ResolveKey("d\U{E9}cembre") == Some(12)
  {
  }

  /** The eight-letter French month names all end in "e". */
  lemma FrenchEightLetterKeys(t: string)
    requires |t| == 8 && t[7] != 'e'
    ensures t !in FrenchMonths
  {
  }

  /** `"11"` names November. */
  lemma DigitsExample()
    ensures ParseMonth(Str("11")) == Ok(11)
  {
    NumberText(11);
    assert NatDigits(11) == "11";
    NumericMonth(11);
  }

  /** A word of lower-case letters (ASCII, or Latin-1 above U+00DF) is its own lower-case form. */
  lemma LowerWord(s: string)
    requires forall i :: 0 <= i < |s| ==> 'a' <= s[i] <= 'z' || '\U{DF}' <= s[i] <= '\U{FF}'
    ensures ToLower(s) == s
  {
    ToLowerUnchanged(s);
  }

  /** The decimal text of a non-zero number is parsed like the number itself. */
  lemma NumberText(n: nat)
    requires n != 0
    ensures ParseMonth(Str(NatDigits(n))) == ParseMonth(Num(n))
  {
  }

  /**
   * Any string of digits, leading zeros included, is parsed by its `parseInt`
   * value: accepted exactly when that value is in 1..12, and then as that month.
   */
  lemma DigitsText(s: string)
    requires AllDigits(s)
    ensures ParseMonth(Str(s)).Ok? <==> 1 <= DigitsValue(s) <= 12
    ensures ParseMonth(Str(s)).Ok? ==> ParseMonth(Str(s)).value == DigitsValue(s)
  {
    TrimUnpadded(s);
    forall i | 0 <= i < |s| ensures LowerChar(s[i]) == s[i] {
      assert IsDigit(s[i]);
    }
    ToLowerUnchanged(s);
    NotAName(s);
  }

  /** `"07"` parses to 7: `parseInt` ignores the leading zero. */
  lemma LeadingZeroExample()
    ensures ParseMonth(Str("07")) == Ok(7)
  {
    assert AllDigits("07");
    assert DigitsValue("07") == 7 by {
      assert "07"[..1] == "0";
      assert "0"[..0] == [];
    }
    DigitsText("07");
  }

  /** `"0"` and `"13"` are rejected. */
  lemma OutOfRangeExamples()
    ensures ParseMonth(Str("0")).Err?
    ensures ParseMonth(Str("13")).Err?
  {
    assert NatDigits(13) == "13";
    NumberText(13);
    NumericMonth(13);
    assert NatDigits(0) == "0";
    NumberNormalizedZero();
    DigitsKey(0);
  }

  lemma NumberNormalizedZero()
    ensures Normalize("0") == "0"
  {
    TrimUnpadded("0");
    assert ToLower("0") == "0";
  }
}
