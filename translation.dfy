/** The decision logic of `translate`: the availability check, turning the
    input into a list of texts, resolving the destination into a language code,
    shaping the translator's reply, and the fallback on failure.

    The awaited call to the global googletrans translator is a parameter,
    `service`, from (texts, source language, destination code) to the outcome
    of that call. Whether the library could be imported is the parameter
    `available`. */
module Translation {
  import opened Wrappers
  import opened Languages

  /** `text_or_list`: a single string, or another iterable of strings (held as its items in order). */
  datatype TextInput = Text(text: string) | Texts(items: seq<string>)

  /** What `translate` returns: a string or a list of strings. */
  datatype Translated = One(text: string) | Many(texts: seq<string>)

  /** `dest`: a `Language` member or a plain string. */
  datatype Destination = Lang(language: Language) | Named(name: string)

  /** The outcome of `translator.translate(texts, src=src, dest=dest_code)`:
      the translated texts, in order, or the exception it raised. */
  datatype ServiceOutcome = Replied(texts: seq<string>) | Raised(message: string)

  type Service = (seq<string>, string, string) -> ServiceOutcome

  /** The exceptions that leave `translate`. */
  datatype TranslateError =
    | TranslatorUnavailable(message: string)
    | TranslationFailed(message: string)

  const UnavailableMessage: string :=
    "googletrans library is not available. Install with: pip install googletrans==4.0.0-rc1"

  /** What Python raises for `result[0]` on an empty reply. */
  const IndexErrorMessage: string := "list index out of range"

  /** `_ensure_translator()`: fails exactly when the translator could not be created. */
  function EnsureTranslator(available: bool): (r: Result<(), TranslateError>)
    ensures r.Success? <==> available
    ensures r.Failure? ==> r.error == TranslatorUnavailable(UnavailableMessage)
  {
    if available then Success(()) else Failure(TranslatorUnavailable(UnavailableMessage))
  }

  /** `_normalize_input(text_or_list)`: the texts to send and whether the input was a single string. */
  function NormalizeInput(input: TextInput): (r: (seq<string>, bool))
    ensures r.1 <==> input.Text?
    ensures input.Text? ==> r.0 == [input.text]
    ensures input.Texts? ==> r.0 == input.items
  {
    match input
    case Text(s) => ([s], true)
    case Texts(xs) => (xs, false)
  }

  /** The input that a normalised pair came from. */
  function RestoreInput(texts: seq<string>, single: bool): TextInput
    requires single ==> |texts| == 1
  {
    if single then Text(texts[0]) else Texts(texts)
  }

  /** Normalising loses nothing: a single string becomes a one-element list flagged single,
      any other input keeps its items in order, and the input can be rebuilt from the pair. */
  lemma NormalizeInputInvertible(input: TextInput)
    ensures NormalizeInput(input).1 ==> |NormalizeInput(input).0| == 1
    ensures RestoreInput(NormalizeInput(input).0, NormalizeInput(input).1) == input
  {
  }

  /** The destination code (lines 56-63): a member gives its value; a string that
      `from_name` accepts gives that member's value; any other string is passed on as it is. */
  function ResolveDest(dest: Destination): (code: string)
    ensures dest.Lang? ==> code == Code(dest.language)
    ensures dest.Named? ==> forall l :: Name(l) == Normalize(dest.name) ==> code == Code(l)
    ensures dest.Named? && (forall l :: Name(l) != Normalize(dest.name)) ==> code == dest.name
  {
    match dest
    case Lang(l) => Code(l)
    case Named(s) =>
      match FromName(s)
      case Success(l) => NamesInjective(); Code(l)
      case Failure(_) => s
  }

  /** A member's exact name and its lower-cased name both resolve to the same code as the member. */
  lemma ResolveDestByName(l: Language)
    ensures ResolveDest(Named(Lower(Name(l)))) == ResolveDest(Lang(l)) == Code(l)
    ensures ResolveDest(Named(Name(l))) == Code(l)
  {
    NormalizeLowerName(l);
    NormalizeName(l);
  }

  /** A language code is not a member name, so it is passed through unchanged as the code. */
  lemma ResolveDestPassesCodes(l: Language)
    ensures ResolveDest(Named(Code(l))) == Code(l)
  {
    FromNameRejectsCodes(l);
  }

  lemma ChineseLowerName()
    ensures Lower(Name(Chinese)) == "chinese"
  {
    var low := Lower(Name(Chinese));
    assert low[0] == 'c' && low[1] == 'h' && low[2] == 'i' && low[3] == 'n';
    assert low[4] == 'e' && low[5] == 's' && low[6] == 'e';
  }

  /** `"zh-cn"` stays `"zh-cn"`; `"chinese"` becomes `"zh-cn"`. */
  lemma ResolveDestChinese()
    ensures ResolveDest(Named("zh-cn")) == "zh-cn"
    ensures ResolveDest(Named("chinese")) == "zh-cn"
  {
    ResolveDestPassesCodes(Chinese);
    ChineseLowerName();
    NormalizeLowerName(Chinese);
    assert Normalize("chinese") == Name(Chinese);
  }

  /** The texts of the reply (lines 67-78): one text for a one-element request, the list
      otherwise; a raised exception, or `result[0]` on an empty reply, is a failure. */
  function ShapeReply(texts: seq<string>, reply: ServiceOutcome): Result<Translated, string>
  {
    match reply
    case Raised(m) => Failure(m)
    case Replied(out) =>
      if |texts| == 1 then
        if out == [] then Failure(IndexErrorMessage) else Success(One(out[0]))
      else Success(Many(out))
  }

  /** The original input returned unchanged by the fallback. */
  function Original(input: TextInput): Translated
  {
    match input
    case Text(s) => One(s)
    case Texts(xs) => Many(xs)
  }

  /** The `except` branch (lines 82-86): re-raise when asked to, else return the input. */
  function Recover(input: TextInput, raiseOnError: bool, message: string): Result<Translated, TranslateError>
  {
    if raiseOnError then Failure(TranslationFailed(message)) else Success(Original(input))
  }

  /** `translate(text_or_list, src, dest, raise_on_error=...)` as written. Line 80,
      `translated if not single else translated`, returns `translated` on both branches. */
  function Translate(available: bool, input: TextInput, src: string, dest: Destination,
                     raiseOnError: bool, service: Service): Result<Translated, TranslateError>
  {
    match EnsureTranslator(available)
    case Failure(e) => Failure(e)
    case Success(_) =>
      var (texts, single) := NormalizeInput(input);
      var code := ResolveDest(dest);
      match ShapeReply(texts, service(texts, src, code))
      case Success(translated) => Success(translated)
      case Failure(m) => Recover(input, raiseOnError, m)
  }

  /** `translate(text_or_list)` with its defaults `src="auto"`, `dest=Language.CHINESE`
      and `raise_on_error=False`: once the translator exists it never fails. */
  function TranslateWithDefaults(available: bool, input: TextInput, service: Service): (r: Result<Translated, TranslateError>)
    ensures r.Success? <==> available
    ensures !available ==> r == Failure(TranslatorUnavailable(UnavailableMessage))
  {
    Translate(available, input, "auto", Lang(Chinese), false, service)
  }

  /** With the defaults the service is asked for `zh-cn` with source `auto`, and a failing
      call gives back the input unchanged. */
  lemma DefaultsAskForChinese(input: TextInput, service: Service)
    requires service(NormalizeInput(input).0, "auto", "zh-cn").Raised?
    ensures ResolveDest(Lang(Chinese)) == "zh-cn"
    ensures TranslateWithDefaults(true, input, service) == Success(Original(input))
  {
    FailureFallsBack(input, "auto", Lang(Chinese), false, service);
  }

  // ---------------------------------------------------------------------------
  // Properties of translate
  // ---------------------------------------------------------------------------

  /** Without the translator the call fails before anything is translated, whatever the service would say. */
  lemma UnavailableFailsFirst(input: TextInput, src: string, dest: Destination, raiseOnError: bool,
                              s1: Service, s2: Service)
    ensures Translate(false, input, src, dest, raiseOnError, s1) == Failure(TranslatorUnavailable(UnavailableMessage))
    ensures Translate(false, input, src, dest, raiseOnError, s1) == Translate(false, input, src, dest, raiseOnError, s2)
  {
  }

  /** The service is consulted once, on the normalised texts, the given source and the resolved code:
      two services that agree there give the same result. */
  lemma ServiceSeesNormalizedRequest(available: bool, input: TextInput, src: string, dest: Destination,
                                     raiseOnError: bool, s1: Service, s2: Service)
    requires s1(NormalizeInput(input).0, src, ResolveDest(dest)) == s2(NormalizeInput(input).0, src, ResolveDest(dest))
    ensures Translate(available, input, src, dest, raiseOnError, s1) == Translate(available, input, src, dest, raiseOnError, s2)
  {
  }

  /** A failing translator call gives back exactly the original input, unless `raise_on_error`
      is set, in which case the failure propagates. */
  lemma FailureFallsBack(input: TextInput, src: string, dest: Destination, raiseOnError: bool, service: Service)
    requires service(NormalizeInput(input).0, src, ResolveDest(dest)).Raised?
    ensures var m := service(NormalizeInput(input).0, src, ResolveDest(dest)).message;
      Translate(true, input, src, dest, raiseOnError, service)
        == if raiseOnError then Failure(TranslationFailed(m)) else Success(Original(input))
    ensures !raiseOnError ==> Translate(true, input, src, dest, raiseOnError, service).Success?
  {
  }

  /** A reply becomes a single string exactly when one text was sent, a list otherwise;
      an empty reply to one text is treated as a failure. */
  lemma ReplyShapeFollowsLength(input: TextInput, src: string, dest: Destination, raiseOnError: bool,
                                service: Service)
    requires service(NormalizeInput(input).0, src, ResolveDest(dest)).Replied?
    ensures var texts := NormalizeInput(input).0;
      var out := service(texts, src, ResolveDest(dest)).texts;
      var r := Translate(true, input, src, dest, raiseOnError, service);
      && (|texts| == 1 && out != [] ==> r == Success(One(out[0])))
      && (|texts| == 1 && out == [] ==> r == Recover(input, raiseOnError, IndexErrorMessage))
      && (|texts| != 1 ==> r == Success(Many(out)))
  {
  }

  /** Because both branches of line 80 agree, a one-element list comes back as a plain string. */
  lemma OneElementListYieldsString(x: string, y: string, src: string, dest: Destination,
                                   raiseOnError: bool, service: Service)
    requires service([x], src, ResolveDest(dest)) == Replied([y])
    ensures Translate(true, Texts([x]), src, dest, raiseOnError, service) == Success(One(y))
  {
  }

  // ---------------------------------------------------------------------------
  // The evidently intended line 80
  // ---------------------------------------------------------------------------

  /** A list result for a list input. */
  function AsList(t: Translated): (r: Translated)
    ensures r.Many?
    ensures t.Many? ==> r == t
    ensures t.One? ==> r == Many([t.text])
  {
    match t
    case One(s) => Many([s])
    case Many(xs) => t
  }

  /** `translate` with line 80 as `translated if single or isinstance(translated, list) else [translated]`. */
  function TranslateIntended(available: bool, input: TextInput, src: string, dest: Destination,
                             raiseOnError: bool, service: Service): Result<Translated, TranslateError>
  {
    match EnsureTranslator(available)
    case Failure(e) => Failure(e)
    case Success(_) =>
      var (texts, single) := NormalizeInput(input);
      var code := ResolveDest(dest);
      match ShapeReply(texts, service(texts, src, code))
      case Success(translated) => Success(if single then translated else AsList(translated))
      case Failure(m) => Recover(input, raiseOnError, m)
  }

  /** With the intended line 80, a string input gives a string and a list input a list. */
  lemma IntendedShapeFollowsInput(available: bool, input: TextInput, src: string, dest: Destination,
                                  raiseOnError: bool, service: Service)
    ensures var r := TranslateIntended(available, input, src, dest, raiseOnError, service);
      r.Success? ==> (r.value.One? <==> input.Text?)
  {
  }

  /** The intended version differs from the written one only on one-element list inputs. */
  lemma IntendedAgreesElsewhere(available: bool, input: TextInput, src: string, dest: Destination,
                                raiseOnError: bool, service: Service)
    requires input.Text? || |input.items| != 1
    ensures TranslateIntended(available, input, src, dest, raiseOnError, service)
         == Translate(available, input, src, dest, raiseOnError, service)
  {
  }
}
