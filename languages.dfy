/** The `Language` enum of supported translation targets and its
    `from_name` resolver: the input is stripped of surrounding whitespace,
    upper-cased, its spaces turned into underscores, and the result is looked
    up among the member NAMES (not the language codes).

    Characters are modelled as ASCII: whitespace is the ASCII part of Python's
    `str.isspace`, and case mapping touches only `a`-`z` / `A`-`Z`. */
module Languages {
  import opened Wrappers
  import opened Strings

  datatype Language =
    | Chinese | English | Hindi | Spanish | French | German | Japanese
    | Korean | Russian | Arabic | Portuguese | Italian | Dutch

  /** The members in definition order, which is the order Python iterates the enum in. */
  const Members: seq<Language> :=
    [Chinese, English, Hindi, Spanish, French, German, Japanese,
     Korean, Russian, Arabic, Portuguese, Italian, Dutch]

  /** The member's name (`Language.X.name`). */
  function Name(l: Language): string
  {
    match l
    case Chinese => "CHINESE"
    case English => "ENGLISH"
    case Hindi => "HINDI"
    case Spanish => "SPANISH"
    case French => "FRENCH"
    case German => "GERMAN"
    case Japanese => "JAPANESE"
    case Korean => "KOREAN"
    case Russian => "RUSSIAN"
    case Arabic => "ARABIC"
    case Portuguese => "PORTUGUESE"
    case Italian => "ITALIAN"
    case Dutch => "DUTCH"
  }

  /** The member's value (`Language.X.value`): the code handed to the translator. */
  function Code(l: Language): string
  {
    match l
    case Chinese => "zh-cn"
    case English => "en"
    case Hindi => "hi"
    case Spanish => "es"
    case French => "fr"
    case German => "de"
    case Japanese => "ja"
    case Korean => "ko"
    case Russian => "ru"
    case Arabic => "ar"
    case Portuguese => "pt"
    case Italian => "it"
    case Dutch => "nl"
  }

  // ---------------------------------------------------------------------------
  // The enum itself
  // ---------------------------------------------------------------------------

  /** The member's position in definition order. */
  function Ordinal(l: Language): (i: nat)
    ensures i < |Members| && Members[i] == l
  {
    match l
    case Chinese => 0
    case English => 1
    case Hindi => 2
    case Spanish => 3
    case French => 4
    case German => 5
    case Japanese => 6
    case Korean => 7
    case Russian => 8
    case Arabic => 9
    case Portuguese => 10
    case Italian => 11
    case Dutch => 12
  }

  /** Members lists the thirteen languages, each exactly once. */
  lemma MembersEnumerateLanguages()
    ensures |Members| == 13
    ensures forall l :: l in Members
    ensures forall i, j :: 0 <= i < j < |Members| ==> Members[i] != Members[j]
  {
    forall l ensures l in Members {
      assert Members[Ordinal(l)] == l;
    }
  }

  /** The member whose name starts with `c`: the thirteen names have thirteen different initials. */
  function ByInitial(c: char): Option<Language>
  {
    match c
    case 'C' => Some(Chinese)
    case 'E' => Some(English)
    case 'H' => Some(Hindi)
    case 'S' => Some(Spanish)
    case 'F' => Some(French)
    case 'G' => Some(German)
    case 'J' => Some(Japanese)
    case 'K' => Some(Korean)
    case 'R' => Some(Russian)
    case 'A' => Some(Arabic)
    case 'P' => Some(Portuguese)
    case 'I' => Some(Italian)
    case 'D' => Some(Dutch)
    case _ => None
  }

  lemma InitialDetermines(l: Language)
    ensures |Name(l)| > 0 && ByInitial(Name(l)[0]) == Some(l)
  {
  }

  /** No two members share a name. */
  lemma NamesDistinct(a: Language, b: Language)
    ensures Name(a) == Name(b) ==> a == b
  {
    InitialDetermines(a);
    InitialDetermines(b);
  }

  lemma NamesInjective()
    ensures forall a, b :: Name(a) == Name(b) ==> a == b
  {
    forall a, b | Name(a) == Name(b) ensures a == b {
      NamesDistinct(a, b);
    }
  }

  /** The thirteen member values are pairwise distinct language codes. */
  lemma CodesDistinct(a: Language, b: Language)
    ensures Code(a) == Code(b) ==> a == b
  {
  }

  /** Every member name is upper-case ASCII letters, at least five of them. */
  lemma NameShape(l: Language)
    ensures |Name(l)| >= 5
    ensures forall i :: 0 <= i < |Name(l)| ==> 'A' <= Name(l)[i] <= 'Z'
  {
  }

  /** Every code is lower-case ASCII letters and `-`: two characters, or `zh-cn`. */
  lemma CodeShape(l: Language)
    ensures |Code(l)| == 2 || Code(l) == "zh-cn"
    ensures forall i :: 0 <= i < |Code(l)| ==> 'a' <= Code(l)[i] <= 'z' || Code(l)[i] == '-'
  {
  }

  // ---------------------------------------------------------------------------
  // String operations of the normaliser
  // ---------------------------------------------------------------------------

  /** The ASCII characters Python's `str.isspace` accepts: space, tab, line feed,
      vertical tab, form feed, carriage return, and the separators 0x1C-0x1F. */
  predicate IsSpace(c: char)
  {
    c == ' ' || ('\t' <= c <= '\r') || (28 <= c as int <= 31)
  }

  function UpperChar(c: char): char
  {
    if 'a' <= c <= 'z' then (c as int - 'a' as int + 'A' as int) as char else c
  }

  function LowerChar(c: char): char
  {
    if 'A' <= c <= 'Z' then (c as int - 'A' as int + 'a' as int) as char else c
  }

  /** `s.lstrip()`: drops the leading whitespace. */
  function TrimStart(s: string): (r: string)
    ensures |r| <= |s| && r == s[|s| - |r|..]
    ensures forall k :: 0 <= k < |s| - |r| ==> IsSpace(s[k])
    ensures r != [] ==> !IsSpace(r[0])
  {
    if s != [] && IsSpace(s[0]) then TrimStart(s[1..]) else s
  }

  /** `s.rstrip()`: drops the trailing whitespace. */
  function TrimEnd(s: string): (r: string)
    ensures |r| <= |s| && r == s[..|r|]
    ensures forall k :: |r| <= k < |s| ==> IsSpace(s[k])
    ensures r != [] ==> !IsSpace(r[|r| - 1])
  {
    if s != [] && IsSpace(s[|s| - 1]) then TrimEnd(s[..|s| - 1]) else s
  }

  /** `s.strip()`: drops leading and trailing whitespace. */
  function Strip(s: string): (r: string)
    ensures |r| <= |s|
    ensures r != [] ==> !IsSpace(r[0]) && !IsSpace(r[|r| - 1])
  {
    TrimEnd(TrimStart(s))
  }

  /** `s.upper()` on ASCII. */
  function Upper(s: string): (r: string)
    ensures |r| == |s|
    ensures forall i :: 0 <= i < |s| ==> r[i] == UpperChar(s[i])
  {
    if s == [] then [] else [UpperChar(s[0])] + Upper(s[1..])
  }

  /** `s.lower()` on ASCII. */
  function Lower(s: string): (r: string)
    ensures |r| == |s|
    ensures forall i :: 0 <= i < |s| ==> r[i] == LowerChar(s[i])
  {
    if s == [] then [] else [LowerChar(s[0])] + Lower(s[1..])
  }

  /** `s.replace(" ", "_")`. */
  function ReplaceSpaces(s: string): (r: string)
    ensures |r| == |s|
    ensures forall i :: 0 <= i < |s| ==> r[i] == if s[i] == ' ' then '_' else s[i]
  {
    if s == [] then [] else [if s[0] == ' ' then '_' else s[0]] + ReplaceSpaces(s[1..])
  }

  /** `name.strip().upper().replace(" ", "_")`. */
  function Normalize(s: string): string
  {
    ReplaceSpaces(Upper(Strip(s)))
  }

  // ---------------------------------------------------------------------------
  // The resolver
  // ---------------------------------------------------------------------------

  /** `cls[name]`: the member of `ms` whose name is exactly `name`. */
  function FindByName(name: string, ms: seq<Language>): (r: Option<Language>)
    ensures r.Some? ==> r.value in ms && Name(r.value) == name
    ensures r.None? ==> forall l :: l in ms ==> Name(l) != name
  {
    if ms == [] then None
    else if Name(ms[0]) == name then Some(ms[0])
    else FindByName(name, ms[1..])
  }

  /** The lower-cased member names, in definition order. */
  function SupportedNames(): seq<string>
  {
    seq(|Members|, i requires 0 <= i < |Members| => Lower(Name(Members[i])))
  }

  /** The `ValueError` message raised on a miss (its spelling is the source's own). */
  function UnsupportedMessage(normalized: string): string
  {
    "Unsupported langauge: " + normalized + ". Supported " + Join(", ", SupportedNames())
  }

  /** `Language.from_name(name)`: the member whose name is the normalised input,
      or the `ValueError` message. */
  function FromName(s: string): (r: Result<Language, string>)
    ensures r.Success? <==> exists l :: Name(l) == Normalize(s)
    ensures r.Success? ==> Name(r.value) == Normalize(s)
    ensures r.Failure? ==> r.error == UnsupportedMessage(Normalize(s))
  {
    MembersEnumerateLanguages();
    match FindByName(Normalize(s), Members)
    case Some(l) => Success(l)
    case None => Failure(UnsupportedMessage(Normalize(s)))
  }

  // ---------------------------------------------------------------------------
  // Properties of the normaliser
  // ---------------------------------------------------------------------------

  predicate AllSpace(w: string)
  {
    forall i :: 0 <= i < |w| ==> IsSpace(w[i])
  }

  predicate Unpadded(s: string)
  {
    s == [] || (!IsSpace(s[0]) && !IsSpace(s[|s| - 1]))
  }

  lemma StripUnpadded(s: string)
    requires Unpadded(s)
    ensures Strip(s) == s
  {
  }

  lemma {:induction false} TrimStartSkipsSpace(w: string, x: string)
    requires AllSpace(w)
    ensures TrimStart(w + x) == TrimStart(x)
  {
    if w != [] {
      assert (w + x)[1..] == w[1..] + x;
      TrimStartSkipsSpace(w[1..], x);
    } else {
      assert w + x == x;
    }
  }

  lemma {:induction false} TrimEndSkipsSpace(x: string, w: string)
    requires AllSpace(w)
    ensures TrimEnd(x + w) == TrimEnd(x)
  {
    if w != [] {
      var w' := w[..|w| - 1];
      assert (x + w)[..|x + w| - 1] == x + w';
      TrimEndSkipsSpace(x, w');
    } else {
      assert x + w == x;
    }
  }

  lemma {:induction false} TrimStartConcat(x: string, w: string)
    ensures TrimStart(x) != [] ==> TrimStart(x + w) == TrimStart(x) + w
    ensures TrimStart(x) == [] ==> TrimStart(x + w) == TrimStart(w)
  {
    if x == [] {
      assert x + w == w;
    } else if IsSpace(x[0]) {
      assert (x + w)[1..] == x[1..] + w;
      TrimStartConcat(x[1..], w);
    }
  }

  /** Surrounding whitespace of any length is dropped by `strip`. */
  lemma StripPadding(w1: string, s: string, w2: string)
    requires AllSpace(w1) && AllSpace(w2)
    ensures Strip(w1 + s + w2) == Strip(s)
  {
    assert w1 + s + w2 == w1 + (s + w2);
    TrimStartSkipsSpace(w1, s + w2);
    TrimStartConcat(s, w2);
    if TrimStart(s) != [] {
      TrimEndSkipsSpace(TrimStart(s), w2);
    } else {
      TrimStartSkipsSpace(w2, []);
      assert w2 + [] == w2;
    }
  }

  lemma TrimStartDropsSpace(s: string)
    ensures AllSpace(s[..|s| - |TrimStart(s)|])
  {
    var head := s[..|s| - |TrimStart(s)|];
    assert forall k :: 0 <= k < |head| ==> head[k] == s[k];
  }

  lemma TrimEndDropsSpace(s: string)
    ensures AllSpace(s[|TrimEnd(s)|..])
  {
    var tail := s[|TrimEnd(s)|..];
    assert forall k :: 0 <= k < |tail| ==> tail[k] == s[|TrimEnd(s)| + k];
  }

  /** `r` is the slice of `s` starting at `i`, with only whitespace before and after it. */
  predicate PaddedSlice(s: string, r: string, i: int)
  {
    0 <= i <= |s| - |r| && r == s[i..i + |r|] && AllSpace(s[..i]) && AllSpace(s[i + |r|..])
  }

  lemma SliceOfSuffix(s: string, t: string, r: string)
    requires |t| <= |s| && t == s[|s| - |t|..]
    requires |r| <= |t| && r == t[..|r|]
    ensures r == s[|s| - |t|..|s| - |t| + |r|]
    ensures s[|s| - |t| + |r|..] == t[|r|..]
  {
  }

  /** `strip` keeps a contiguous middle of its input and drops only whitespace around it. */
  lemma StripIsSlice(s: string)
    ensures exists i :: PaddedSlice(s, Strip(s), i)
  {
    var t := TrimStart(s);
    var r := TrimEnd(t);
    SliceOfSuffix(s, t, r);
    TrimStartDropsSpace(s);
    TrimEndDropsSpace(t);
    assert Strip(s) == r;
    assert PaddedSlice(s, r, |s| - |t|);
  }

  lemma UpperSpace(c: char)
    ensures IsSpace(UpperChar(c)) == IsSpace(c)
  {
  }

  lemma {:induction false} UpperTrimStart(s: string)
    ensures Upper(TrimStart(s)) == TrimStart(Upper(s))
  {
    if s != [] {
      UpperSpace(s[0]);
      assert Upper(s)[1..] == Upper(s[1..]);
      UpperTrimStart(s[1..]);
    }
  }

  lemma {:induction false} UpperTrimEnd(s: string)
    ensures Upper(TrimEnd(s)) == TrimEnd(Upper(s))
  {
    if s != [] {
      UpperSpace(s[|s| - 1]);
      assert Upper(s)[..|s| - 1] == Upper(s[..|s| - 1]);
      UpperTrimEnd(s[..|s| - 1]);
    }
  }

  /** Upper-casing commutes with stripping, so the normalised name depends on `upper(s)` alone. */
  lemma NormalizeThroughUpper(s: string)
    ensures Normalize(s) == ReplaceSpaces(Strip(Upper(s)))
  {
    UpperTrimStart(s);
    UpperTrimEnd(TrimStart(s));
  }

  // ---------------------------------------------------------------------------
  // Properties of the resolver
  // ---------------------------------------------------------------------------

  /** Any input whose normalised form is a member's name resolves to that member. */
  lemma FromNameByNormalizedName(s: string, l: Language)
    requires Normalize(s) == Name(l)
    ensures FromName(s) == Success(l)
  {
    NamesDistinct(FromName(s).value, l);
  }

  /** A word of upper-case ASCII letters only, as every member name is. */
  predicate UpperWord(n: string)
  {
    forall i :: 0 <= i < |n| ==> 'A' <= n[i] <= 'Z'
  }

  lemma {:induction false} UpperOfLowerLetters(n: string)
    requires UpperWord(n)
    ensures Upper(Lower(n)) == n
  {
    if n != [] {
      var low := Lower(n);
      assert low[1..] == Lower(n[1..]);
      UpperOfLowerLetters(n[1..]);
      assert Upper(low) == [UpperChar(low[0])] + Upper(low[1..]);
    }
  }

  lemma UpperWordFixed(n: string)
    requires UpperWord(n)
    ensures Upper(n) == n
  {
    var u := Upper(n);
    assert forall i :: 0 <= i < |n| ==> u[i] == n[i];
  }

  lemma ReplaceSpacesNoSpace(n: string)
    requires forall i :: 0 <= i < |n| ==> n[i] != ' '
    ensures ReplaceSpaces(n) == n
  {
    var r := ReplaceSpaces(n);
    assert forall i :: 0 <= i < |n| ==> r[i] == n[i];
  }

  /** A word of upper-case letters is its own normal form. */
  lemma NormalizeUpperWord(n: string)
    requires UpperWord(n)
    ensures Normalize(n) == n
  {
    assert Unpadded(n) by {
      if n != [] {
        assert 'A' <= n[0] <= 'Z' && 'A' <= n[|n| - 1] <= 'Z';
      }
    }
    calc {
      Normalize(n);
    == { StripUnpadded(n); }
      ReplaceSpaces(Upper(n));
    == { UpperWordFixed(n); }
      ReplaceSpaces(n);
    == { ReplaceSpacesNoSpace(n); }
      n;
    }
  }

  /** The lower-cased form of a word of upper-case letters normalises back to the word. */
  lemma NormalizeLowerWord(n: string)
    requires UpperWord(n)
    ensures Normalize(Lower(n)) == n
  {
    var low := Lower(n);
    assert Unpadded(low) by {
      if n != [] {
        assert low[0] == LowerChar(n[0]) && low[|n| - 1] == LowerChar(n[|n| - 1]);
        assert 'A' <= n[0] <= 'Z' && 'A' <= n[|n| - 1] <= 'Z';
      }
    }
    calc {
      Normalize(low);
    == { StripUnpadded(low); }
      ReplaceSpaces(Upper(low));
    == { UpperOfLowerLetters(n); }
      ReplaceSpaces(n);
    == { ReplaceSpacesNoSpace(n); }
      n;
    }
  }

  /** A member name is already in normal form. */
  lemma NormalizeName(l: Language)
    ensures Normalize(Name(l)) == Name(l)
  {
    NameShape(l);
    NormalizeUpperWord(Name(l));
  }

  /** A lower-cased member name normalises back to the name. */
  lemma NormalizeLowerName(l: Language)
    ensures Normalize(Lower(Name(l))) == Name(l)
  {
    NameShape(l);
    NormalizeLowerWord(Name(l));
  }

  /** For every member, `from_name(member.name.lower())` is that member. */
  lemma FromNameRoundTrip(l: Language)
    ensures FromName(Lower(Name(l))) == Success(l)
  {
    NormalizeLowerName(l);
    FromNameByNormalizedName(Lower(Name(l)), l);
  }

  /** `from_name(s)` depends only on `upper(s)`: in particular upper- or lower-casing the input changes nothing. */
  lemma FromNameCaseInsensitive(s: string, t: string)
    requires Upper(s) == Upper(t)
    ensures FromName(s) == FromName(t)
  {
    NormalizeThroughUpper(s);
    NormalizeThroughUpper(t);
  }

  lemma UpperLower(s: string)
    ensures Upper(Upper(s)) == Upper(s)
    ensures Upper(Lower(s)) == Upper(s)
  {
    var u, uu, ul := Upper(s), Upper(Upper(s)), Upper(Lower(s));
    assert forall i :: 0 <= i < |s| ==> uu[i] == u[i];
    assert forall i :: 0 <= i < |s| ==> ul[i] == u[i];
  }

  /** Upper-casing or lower-casing the input before resolving it changes nothing. */
  lemma FromNameIgnoresCase(s: string)
    ensures FromName(Upper(s)) == FromName(s)
    ensures FromName(Lower(s)) == FromName(s)
  {
    UpperLower(s);
    FromNameCaseInsensitive(Upper(s), s);
    FromNameCaseInsensitive(Lower(s), s);
  }

  /** Leading and trailing whitespace is ignored. */
  lemma FromNameIgnoresPadding(w1: string, s: string, w2: string)
    requires AllSpace(w1) && AllSpace(w2)
    ensures FromName(w1 + s + w2) == FromName(s)
  {
    StripPadding(w1, s, w2);
  }

  lemma ReplaceSpacesUnpadded(s: string)
    requires Unpadded(s)
    ensures Unpadded(ReplaceSpaces(s))
  {
  }

  lemma UpperReplaceSpaces(s: string)
    ensures ReplaceSpaces(Upper(ReplaceSpaces(s))) == ReplaceSpaces(Upper(s))
  {
    var a, b := ReplaceSpaces(Upper(ReplaceSpaces(s))), ReplaceSpaces(Upper(s));
    assert forall i :: 0 <= i < |s| ==> a[i] == b[i];
  }

  /** Inside the name, a space and an underscore are the same. */
  lemma FromNameSpacesAsUnderscores(s: string)
    requires Unpadded(s)
    ensures FromName(ReplaceSpaces(s)) == FromName(s)
  {
    var t := ReplaceSpaces(s);
    ReplaceSpacesUnpadded(s);
    calc {
      Normalize(t);
    == { StripUnpadded(t); }
      ReplaceSpaces(Upper(t));
    == { UpperReplaceSpaces(s); }
      ReplaceSpaces(Upper(s));
    == { StripUnpadded(s); }
      Normalize(s);
    }
  }

  lemma EnglishLowerName()
    ensures Lower(Name(English)) == "english"
  {
    var low := Lower(Name(English));
    assert low[0] == 'e' && low[1] == 'n' && low[2] == 'g' && low[3] == 'l';
    assert low[4] == 'i' && low[5] == 's' && low[6] == 'h';
  }

  lemma EnglishPaddedResolves()
    ensures FromName(" english") == Success(English)
  {
    assert " english" == " " + "english" + "";
    FromNameIgnoresPadding(" ", "english", "");
    EnglishLowerName();
    FromNameRoundTrip(English);
  }

  /** A text shorter than five characters, or with a character that is not an upper-case letter, is no member name. */
  lemma NotANameByShape(n: string, i: int)
    requires |n| < 5 || (0 <= i < |n| && !('A' <= n[i] <= 'Z'))
    ensures forall m :: Name(m) != n
  {
    forall m ensures Name(m) != n {
      NameShape(m);
    }
  }

  lemma NotANameStartsWithUnderscore(s: string)
    requires s != [] && s[0] == '_'
    ensures FromName(s).Failure?
  {
    StripUnpaddedStart(s);
    var n := Normalize(s);
    assert n[0] == '_';
    NotANameByShape(n, 0);
  }

  lemma StripUnpaddedStart(s: string)
    requires s != [] && !IsSpace(s[0])
    ensures Strip(s) != [] && Strip(s)[0] == s[0]
  {
  }

  /** The requirement above is needed: a leading space is stripped, a leading underscore is not. */
  lemma SpacesAsUnderscoresOnlyInside()
    ensures FromName(" english") == Success(English)
    ensures FromName(ReplaceSpaces(" english")).Failure?
  {
    EnglishPaddedResolves();
    var t := ReplaceSpaces(" english");
    assert t[0] == '_';
    NotANameStartsWithUnderscore(t);
  }

  /** The lookup is by member name, never by code: every code is rejected. */
  lemma FromNameRejectsCodes(l: Language)
    ensures FromName(Code(l)).Failure?
  {
    var c := Code(l);
    CodeShape(l);
    assert Unpadded(c) by {
      assert c[0] != '-' && c[|c| - 1] != '-';
    }
    StripUnpadded(c);
    var n := Normalize(c);
    assert |n| == |c|;
    if c == "zh-cn" {
      assert n[2] == '-';
    }
    NotANameByShape(n, 2);
  }

  /** `from_name("en")` fails although "en" is English's code. */
  lemma FromNameEnFails()
    ensures FromName("en").Failure?
  {
    FromNameRejectsCodes(English);
  }

  /** The listing in the miss message names every member, lower-cased. */
  lemma SupportedListingNamesAll(l: Language)
    ensures Occurs(Lower(Name(l)), Join(", ", SupportedNames()))
  {
    var i := Ordinal(l);
    assert SupportedNames()[i] == Lower(Name(l));
    JoinContainsPart(", ", SupportedNames(), i);
  }

  /** The miss message quotes the normalised input and lists every supported name. */
  lemma UnsupportedMessageContents(n: string, l: Language)
    ensures Occurs(n, UnsupportedMessage(n))
    ensures Occurs(Lower(Name(l)), UnsupportedMessage(n))
  {
    var listing := Join(", ", SupportedNames());
    OccursInFourParts("Unsupported langauge: ", n, ". Supported ", listing);
    SupportedListingNamesAll(l);
    OccursTransitive(Lower(Name(l)), listing, UnsupportedMessage(n));
  }

  /** A miss reports the normalised input and lists every supported name. */
  lemma UnsupportedMessageMentions(s: string, l: Language)
    requires FromName(s).Failure?
    ensures Occurs(Normalize(s), FromName(s).error)
    ensures Occurs(Lower(Name(l)), FromName(s).error)
  {
    UnsupportedMessageContents(Normalize(s), l);
  }
}
