/** Vehicle categories, derived from the first letter of a SIPP code. */
module Categories {
  import opened Wrappers
  import opened Text

  /** The constants in declaration order; that order is the ranking used when sorting. */
  datatype Category = Mini | Economy | Compact | Other

  /** Enum ordinal: the position of the constant in declaration order. */
  function Ordinal(c: Category): nat {
    match c
    case Mini => 0
    case Economy => 1
    case Compact => 2
    case Other => 3
  }

  /** The SIPP prefix each constant is declared with; OTHER has none (null). */
  function SippPrefix(c: Category): Option<char> {
    match c
    case Mini => Some('M')
    case Economy => Some('E')
    case Compact => Some('C')
    case Other => None
  }

  /** Category.values(). */
  const Values: seq<Category> := [Mini, Economy, Compact, Other]

  /** The loop over values(): the first constant whose prefix is present and equals ch. */
  function FirstWithPrefix(cats: seq<Category>, ch: char): (r: Option<Category>)
    ensures r.Some? ==> r.value in cats && SippPrefix(r.value) == Some(ch)
    ensures r.None? ==> forall c :: c in cats ==> SippPrefix(c) != Some(ch)
  {
    if cats == [] then None
    else if SippPrefix(cats[0]) == Some(ch) then Some(cats[0])
    else FirstWithPrefix(cats[1..], ch)
  }

  /** fromSipp: null or blank codes are OTHER; otherwise the upper-cased first character
      is looked up among the prefixes, falling back to OTHER. */
  function FromSipp(sipp: JString): Category {
    match sipp
    case Null => Other
    case Str(s) =>
      if IsBlank(s) then Other
      else
        match FirstWithPrefix(Values, UpperChar(s[0]))
        case Some(cat) => cat
        case None => Other
  }

  /** The prefix table written out letter by letter. */
  function LetterCategory(ch: char): Category {
    if ch == 'M' then Mini
    else if ch == 'E' then Economy
    else if ch == 'C' then Compact
    else Other
  }

  /** Ordinals strictly increase along values(), and values() lists every constant. */
  lemma ValuesOrdered()
    ensures forall i, j :: 0 <= i < j < |Values| ==> Ordinal(Values[i]) < Ordinal(Values[j])
    ensures forall c :: c in Values
  {
    forall c ensures c in Values {
      assert c == Values[Ordinal(c)];
    }
  }

  /** The prefix search never yields OTHER: its absent prefix matches no character. */
  lemma OtherNeverMatched(ch: char)
    ensures FirstWithPrefix(Values, ch) != Some(Other)
    ensures FirstWithPrefix(Values, ch).None? <==> ch != 'M' && ch != 'E' && ch != 'C'
  {
    if ch == 'M' {
      assert SippPrefix(Values[0]) == Some(ch);
    } else if ch == 'E' {
      assert SippPrefix(Values[1]) == Some(ch);
    } else if ch == 'C' {
      assert SippPrefix(Values[2]) == Some(ch);
    }
  }

  /** The search over the prefixes agrees with the letter table. */
  lemma FirstWithPrefixIsLetterCategory(ch: char)
    ensures (match FirstWithPrefix(Values, ch) case Some(c) => c case None => Other) == LetterCategory(ch)
  {
    OtherNeverMatched(ch);
  }

  /** fromSipp: blank or null gives OTHER, otherwise the upper-cased first letter decides. */
  lemma FromSippByFirstLetter(sipp: JString)
    ensures sipp.Null? ==> FromSipp(sipp) == Other
    ensures sipp.Str? && IsBlank(sipp.chars) ==> FromSipp(sipp) == Other
    ensures sipp.Str? && !IsBlank(sipp.chars) ==>
      |sipp.chars| > 0 && FromSipp(sipp) == LetterCategory(UpperChar(sipp.chars[0]))
  {
    if sipp.Str? && !IsBlank(sipp.chars) {
      FirstWithPrefixIsLetterCategory(UpperChar(sipp.chars[0]));
    }
  }

  /** Upper-casing a code does not change its category. */
  lemma FromSippCaseInsensitive(s: string)
    ensures FromSipp(Str(ToUpper(s))) == FromSipp(Str(s))
  {
    ToUpperKeepsBlank(s);
    FromSippByFirstLetter(Str(s));
    FromSippByFirstLetter(Str(ToUpper(s)));
  }

  /** Only the first character matters: codes whose first letters agree up to case share a category. */
  lemma FromSippFirstCharOnly(s1: string, s2: string)
    requires |s1| > 0 && |s2| > 0
    requires UpperChar(s1[0]) == UpperChar(s2[0])
    ensures FromSipp(Str(s1)) == FromSipp(Str(s2))
  {
    UpperCharKeepsWhitespace(s1[0]);
    UpperCharKeepsWhitespace(s2[0]);
    FromSippByFirstLetter(Str(s1));
    FromSippByFirstLetter(Str(s2));
    if IsWhitespace(s1[0]) {
      assert IsWhitespace(s2[0]);
    }
  }

  /** The classifications of the unit tests, and of lower-case, empty, blank and null codes. */
  lemma FromSippExamples()
    ensures FromSipp(Str("MDMR")) == Mini
    ensures FromSipp(Str("EDMR")) == Economy
    ensures FromSipp(Str("CDMR")) == Compact
    ensures FromSipp(Str("XDMR")) == Other
    ensures FromSipp(Str("mdmr")) == Mini
    ensures FromSipp(Str("")) == Other
    ensures FromSipp(Str("  ")) == Other
    ensures FromSipp(Null) == Other
  {
    FromSippByFirstLetter(Str("MDMR"));
    FromSippByFirstLetter(Str("EDMR"));
    FromSippByFirstLetter(Str("CDMR"));
    FromSippByFirstLetter(Str("XDMR"));
    FromSippByFirstLetter(Str("mdmr"));
    assert !IsWhitespace("MDMR"[0]) && !IsWhitespace("EDMR"[0]) && !IsWhitespace("CDMR"[0]);
    assert !IsWhitespace("XDMR"[0]) && !IsWhitespace("mdmr"[0]);
    assert IsBlank("  ");
  }
}
