# TokenEff core, modelled in Dafny

TokenEff turns a parsed JSON-like value tree into a compact text (its "TOON"
format) to save language-model tokens, and can translate text through an
external translation service. This project models three pure pieces of it and
proves properties of them:

- **The compact serialiser** (`ToonFormatter.format` and its nested `_compact`,
  `toon_formatter.dfy`). An object becomes its `key:value` entries joined by `,`
  in insertion order. An array becomes `[` + its elements joined by `,` + `]`.
  Anything else becomes its text. Nothing is quoted or escaped. Proved: the
  shape of object and array output, the length laws, every key and element
  appearing verbatim, balanced brackets when the data holds none, and
  non-injectivity (different trees with the same output).
- **The language resolver** (`Language` and `Language.from_name`,
  `languages.dfy`). Thirteen members. The input is stripped, upper-cased, its
  spaces turned into underscores, and then looked up by member *name*. Proved:
  the round trip from every lower-cased name, case-insensitivity, padding
  being ignored, spaces inside the name matching underscores, the rejection of
  every language code, the content of the error message, and that names and
  codes are distinct.
- **The decisions of `translate`** (`translation.dfy`). The availability check,
  `_normalize_input`, destination-code resolution, how the reply is shaped, and
  the `raise_on_error` fallback. The awaited googletrans call is a parameter
  `service` from (texts, source, destination code) to a reply or a raised
  exception. Whether the library imported is a parameter `available`.

`strings.dfy` holds Python's `sep.join(parts)` and the substring test `a in b`.
`wrappers.dfy` holds `Option` and `Result`.

`toon_formatter.py` has no tabular arrays, no quoting or escaping, no key
folding, no indentation, no fallback modes and no chunked translation:
`format` takes only `data`, and `_compact` escapes nothing.

## Model

| member | source | states |
|---|---|---|
| `ToonFormatter.Compact` | src/tokeneff/formatters/toon_formatter.py:9-14 | `_compact` itself; specified by `ObjectRendering`, `ArrayRendering`, the length, verbatim and collision lemmas and `CompactBalanced` below |
| `ToonFormatter.EntryTexts` | src/tokeneff/formatters/toon_formatter.py:11 | one rendered entry per dict item, in order, each `key + ":" + _compact(value)` |
| `ToonFormatter.ElementTexts` | src/tokeneff/formatters/toon_formatter.py:13 | one rendered element per list item, in order, each `_compact(item)` |
| `ToonFormatter.Format` | src/tokeneff/formatters/toon_formatter.py:16-19 | succeeds exactly when the token counter accepts the compact text of `data`; then content is that text, format is `"toon"`, the token count is the counter's result and metadata is unset; otherwise the counter's error is passed on |
| `ToonFormatter.ObjectRendering` | src/tokeneff/formatters/toon_formatter.py:10-11 | an object renders as its entries `k:v` in insertion order joined by `,`; the empty object renders as `""` |
| `ToonFormatter.ArrayRendering` | src/tokeneff/formatters/toon_formatter.py:12-13 | an array renders as `[` + elements joined by `,` + `]`; it starts with `[`, ends with `]`, and the empty array is `[]` |
| `ToonFormatter.ArrayLength` | src/tokeneff/formatters/toon_formatter.py:13 | a non-empty array of n elements renders in 2 + (sum of element lengths) + (n - 1) characters |
| `ToonFormatter.ObjectLength` | src/tokeneff/formatters/toon_formatter.py:11 | a non-empty object of n entries renders in the sum of (len(key) + 1 + len(value)) plus n - 1 characters |
| `ToonFormatter.KeysAppearVerbatim` | src/tokeneff/formatters/toon_formatter.py:11 | every top-level key, and every top-level value's rendering, is a substring of the output |
| `ToonFormatter.ElementsAppearVerbatim` | src/tokeneff/formatters/toon_formatter.py:13-14 | every array element's rendering is a substring of the array's output |
| `ToonFormatter.ProfileRecordRendering` | tests/test_json.py:5-12 | `{"name": "Raghvender", "role": "ML Engineer"}` renders `name:Raghvender,role:ML Engineer`, which contains `"name"`, and that is the content of a successful `format` |
| `ToonFormatter.NotInjectiveExample` | src/tokeneff/formatters/toon_formatter.py:11-14 | `{"a": "b,c:d"}` and `{"a": "b", "c": "d"}` are distinct well-formed dicts that both render `a:b,c:d` |
| `ToonFormatter.ArrayCommaCollision` | src/tokeneff/formatters/toon_formatter.py:13-14 | a primitive holding `,` renders like two primitives, so distinct arrays share an output; both arrays are well formed when the rest of the array is |
| `ToonFormatter.ObjectEntryCollision` | src/tokeneff/formatters/toon_formatter.py:11-14 | a value holding `,k2:` renders like a second entry keyed `k2`, so distinct objects share an output; with `k1 != k2` and neither key in a well-formed rest, both objects are dicts with distinct keys |
| `ToonFormatter.ContainersCollideWithPrimitives` | src/tokeneff/formatters/toon_formatter.py:9-14 | every object or array renders exactly like the primitive string holding its output |
| `ToonFormatter.CompactBalanced` | src/tokeneff/formatters/toon_formatter.py:9-14 | if no key or primitive holds `[` or `]`, the output's brackets are balanced and properly nested |
| `Strings.Join` | src/tokeneff/formatters/toon_formatter.py:11-13 | `sep.join(parts)`; specified by `JoinLength`, `JoinContainsPart` and `JoinSplitsOnSeparator` |
| `Strings.Occurs` | tests/test_json.py:12 | the substring test `a in b`; used by `KeysAppearVerbatim`, `ElementsAppearVerbatim`, `ProfileRecordRendering` and the message lemmas |
| `Strings.JoinLength` | src/tokeneff/formatters/toon_formatter.py:11 | `sep.join(parts)` is empty for no parts, else as long as the parts plus one separator per gap |
| `Strings.JoinContainsPart` | src/tokeneff/formatters/toon_formatter.py:13 | every part of `sep.join(parts)` is a substring of it |
| `Strings.JoinSplitsOnSeparator` | src/tokeneff/formatters/toon_formatter.py:11 | a part containing the separator joins exactly like the two parts around it |
| `Languages.Name` | src/tokeneff/core/translation/languages.py:7-19 | a member's name; specified by `NameShape`, `NamesDistinct` and `NormalizeName` |
| `Languages.Code` | src/tokeneff/core/translation/languages.py:7-19 | a member's value; specified by `CodeShape`, `CodesDistinct` and `FromNameRejectsCodes` |
| `Languages.Ordinal` | src/tokeneff/core/translation/languages.py:7-19 | each member's position in definition order |
| `Languages.MembersEnumerateLanguages` | src/tokeneff/core/translation/languages.py:7-19 | the enum has 13 members, listed in definition order, each exactly once |
| `Languages.NamesDistinct` | src/tokeneff/core/translation/languages.py:7-19 | no two members share a name |
| `Languages.CodesDistinct` | src/tokeneff/core/translation/languages.py:7-19 | the 13 member values are pairwise distinct language codes |
| `Languages.NameShape` | src/tokeneff/core/translation/languages.py:7-19 | every member name is at least five upper-case ASCII letters |
| `Languages.CodeShape` | src/tokeneff/core/translation/languages.py:7-19 | every code is lower-case letters and `-`: two characters, or `zh-cn` |
| `Languages.IsSpace` | src/tokeneff/core/translation/languages.py:23 | the whitespace set `strip()` drops, restricted to ASCII; used by `TrimStart`, `TrimEnd`, `StripIsSlice` and `StripPadding` |
| `Languages.TrimStart` | src/tokeneff/core/translation/languages.py:23 | the result is a suffix of the input, everything dropped is whitespace, and it does not start with whitespace |
| `Languages.TrimEnd` | src/tokeneff/core/translation/languages.py:23 | the result is a prefix of the input, everything dropped is whitespace, and it does not end with whitespace |
| `Languages.Strip` | src/tokeneff/core/translation/languages.py:23 | the stripped text is no longer than the input and has no whitespace at either end |
| `Languages.StripIsSlice` | src/tokeneff/core/translation/languages.py:23 | the stripped text is a contiguous slice of the input with only whitespace before and after it |
| `Languages.Upper` | src/tokeneff/core/translation/languages.py:23 | same length, every character upper-cased |
| `Languages.Lower` | src/tokeneff/core/translation/languages.py:28 | same length, every character lower-cased |
| `Languages.ReplaceSpaces` | src/tokeneff/core/translation/languages.py:23 | same length, each space replaced by `_`, every other character kept |
| `Languages.Normalize` | src/tokeneff/core/translation/languages.py:23 | `name.strip().upper().replace(" ", "_")`; specified by `NormalizeThroughUpper`, `NormalizeUpperWord`, `NormalizeLowerWord` and the `FromName` laws below |
| `Languages.SupportedNames` | src/tokeneff/core/translation/languages.py:28 | the lower-cased names in definition order; specified by `SupportedListingNamesAll` |
| `Languages.UnsupportedMessage` | src/tokeneff/core/translation/languages.py:27-29 | the `ValueError` text; specified by `UnsupportedMessageContents` |
| `Languages.FindByName` | src/tokeneff/core/translation/languages.py:25 | a found member is in the list and has exactly that name; a miss means no listed member has it |
| `Languages.FromName` | src/tokeneff/core/translation/languages.py:22-29 | succeeds if and only if the normalised input is a member name, returning that member; otherwise fails with the "Unsupported langauge" message |
| `Languages.FromNameByNormalizedName` | src/tokeneff/core/translation/languages.py:23-25 | any input that normalises to a member's name resolves to that member |
| `Languages.NormalizeUpperWord` | src/tokeneff/core/translation/languages.py:23 | a word of upper-case letters is its own normal form |
| `Languages.NormalizeLowerWord` | src/tokeneff/core/translation/languages.py:23 | the lower-cased form of a word of upper-case letters normalises back to the word |
| `Languages.NormalizeName` | src/tokeneff/core/translation/languages.py:23 | a member name is already in normal form |
| `Languages.NormalizeLowerName` | src/tokeneff/core/translation/languages.py:23 | a lower-cased member name normalises back to the name |
| `Languages.FromNameRoundTrip` | src/tokeneff/core/translation/languages.py:22-28 | for every member m, `from_name(m.name.lower())` is m |
| `Languages.NormalizeThroughUpper` | src/tokeneff/core/translation/languages.py:23 | upper-casing commutes with stripping, so the normal form depends on `upper(s)` alone |
| `Languages.FromNameCaseInsensitive` | src/tokeneff/core/translation/languages.py:23 | two inputs with equal upper-case forms resolve alike |
| `Languages.FromNameIgnoresCase` | src/tokeneff/core/translation/languages.py:23 | upper- or lower-casing the input first changes nothing |
| `Languages.StripPadding` | src/tokeneff/core/translation/languages.py:23 | whitespace of any length around the input is removed by `strip` |
| `Languages.FromNameIgnoresPadding` | src/tokeneff/core/translation/languages.py:23 | leading and trailing whitespace does not change the result |
| `Languages.FromNameSpacesAsUnderscores` | src/tokeneff/core/translation/languages.py:23 | for an input without surrounding whitespace, replacing its spaces by `_` does not change the result |
| `Languages.SpacesAsUnderscoresOnlyInside` | src/tokeneff/core/translation/languages.py:23 | `" english"` resolves to ENGLISH but `"_english"` fails, so the previous law needs its condition |
| `Languages.FromNameRejectsCodes` | src/tokeneff/core/translation/languages.py:7-25 | lookup is by name, never by code: every member's code fails |
| `Languages.FromNameEnFails` | src/tokeneff/core/translation/languages.py:23-27 | `from_name("en")` fails |
| `Languages.SupportedListingNamesAll` | src/tokeneff/core/translation/languages.py:28 | the listing of supported names contains every member name lower-cased |
| `Languages.UnsupportedMessageContents` | src/tokeneff/core/translation/languages.py:27-29 | the error message quotes the normalised input and lists every member name |
| `Languages.UnsupportedMessageMentions` | src/tokeneff/core/translation/languages.py:26-29 | a failed lookup's message quotes the normalised input and lists every member name |
| `Translation.EnsureTranslator` | src/tokeneff/core/translation/translation.py:16-23 | fails, with the install message, exactly when the translator is absent |
| `Translation.NormalizeInput` | src/tokeneff/core/translation/translation.py:26-31 | a string s gives `([s], True)`; any other input gives its items in order with `False` |
| `Translation.NormalizeInputInvertible` | src/tokeneff/core/translation/translation.py:26-31 | the input is recoverable from the normalised pair, and a single string always gives one text |
| `Translation.ResolveDest` | src/tokeneff/core/translation/translation.py:56-63 | a member gives its own value; a string naming a member gives that member's code; any other string is passed through unchanged |
| `Translation.ResolveDestByName` | src/tokeneff/core/translation/translation.py:60-61 | a member's exact name and its lower-cased name both resolve to the same code as the member |
| `Translation.ResolveDestPassesCodes` | src/tokeneff/core/translation/translation.py:60-63 | a language code given as the destination is passed through as itself |
| `Translation.ChineseLowerName` | src/tokeneff/core/translation/languages.py:7 | the lower-cased name of CHINESE is `chinese` |
| `Translation.ResolveDestChinese` | src/tokeneff/core/translation/translation.py:56-63 | `"zh-cn"` stays `"zh-cn"` and `"chinese"` becomes `"zh-cn"` |
| `Translation.ShapeReply` | src/tokeneff/core/translation/translation.py:67-78 | how the reply becomes the result; specified by `ReplyShapeFollowsLength` |
| `Translation.Recover` | src/tokeneff/core/translation/translation.py:82-86 | the `except` branch; specified by `FailureFallsBack` |
| `Translation.Original` | src/tokeneff/core/translation/translation.py:86 | the input handed back by the fallback; specified by `FailureFallsBack` |
| `Translation.Translate` | src/tokeneff/core/translation/translation.py:34-86 | `translate` as written; specified by `UnavailableFailsFirst`, `ServiceSeesNormalizedRequest`, `FailureFallsBack`, `ReplyShapeFollowsLength` and `OneElementListYieldsString` |
| `Translation.TranslateWithDefaults` | src/tokeneff/core/translation/translation.py:34-40 | with `src="auto"`, `dest=Language.CHINESE` and `raise_on_error=False`, the call succeeds exactly when the translator exists, and otherwise fails with the install message |
| `Translation.DefaultsAskForChinese` | src/tokeneff/core/translation/translation.py:34-86 | the default destination resolves to `zh-cn`, and with the defaults a failing call gives back the input unchanged |
| `Translation.UnavailableFailsFirst` | src/tokeneff/core/translation/translation.py:53 | without the translator the call fails with the install error whatever the service and `raise_on_error` |
| `Translation.ServiceSeesNormalizedRequest` | src/tokeneff/core/translation/translation.py:53-67 | the result depends on the service only through its reply to (normalised texts, src, resolved code) |
| `Translation.FailureFallsBack` | src/tokeneff/core/translation/translation.py:82-86 | a raised translator call returns exactly the original input unless `raise_on_error`, which propagates the failure |
| `Translation.ReplyShapeFollowsLength` | src/tokeneff/core/translation/translation.py:67-80 | a reply becomes one string when one text was sent and a list otherwise; an empty reply to one text takes the fallback |
| `Translation.OneElementListYieldsString` | src/tokeneff/core/translation/translation.py:70-80 | a one-element list input comes back as a single string |
| `Translation.TranslateIntended` | src/tokeneff/core/translation/translation.py:80 | `translate` with the corrected line 80; specified by `IntendedShapeFollowsInput` and `IntendedAgreesElsewhere` |
| `Translation.AsList` | src/tokeneff/core/translation/translation.py:80 | wraps a single result into a one-element list and leaves a list alone |
| `Translation.IntendedShapeFollowsInput` | src/tokeneff/core/translation/translation.py:80 | with the corrected line 80, a successful result is a string exactly when the input was a string |
| `Translation.IntendedAgreesElsewhere` | src/tokeneff/core/translation/translation.py:80 | the corrected version differs from the written one only on one-element list inputs |

## Left out

- Python's `str()` rendering of numbers, booleans, `None` and other objects (toon_formatter.py:14): a primitive is held as its already-rendered text.
- Non-string dict keys, which `f"{k}"` would render with `str()`: keys are strings, as JSON gives them.
- Duplicate keys: a Python dict cannot hold them. The `Value` type can, and the predicate `WellFormed` states their absence where it matters.
- `count_tokens` (tiktoken) is an external function, so `Format` takes the counter as its parameter `countTokens`. The counter may fail (tiktoken's `encode` rejects special tokens such as `<|endoftext|>`, which a primitive copies into the content), and `Format` passes that failure on.
- Python's recursion limit: `_compact` raises `RecursionError` on a tree nested deeper than about five hundred levels (each level takes two frames, `_compact` and the generator expression it passes to `join`). `Compact` is total on trees of any depth.
- Callers with keyword options: examples/example_toon.py:16 passes `delimiter`, `indent` and `key_folding`, and tests/test_json_to_toon_with_translate.py:17 passes `translate_to`; both `await` the result. `format(self, data)` (toon_formatter.py:7) takes no keyword options and returns a plain `ConversionOutput`, so both calls raise `TypeError`. Those callers are not modelled.
- Unicode behaviour of `strip()` and `upper()`/`lower()`: `IsSpace` holds only for ASCII whitespace (space, 9-13, 28-31), and `UpperChar`/`LowerChar` change only ASCII letters. Every function accepts any character, but on non-ASCII input the model differs from Python: `from_name("\xa0english")` returns ENGLISH in Python, because U+00A0 counts as whitespace there, while `FromName` fails on it; `"ß".upper()` is `"SS"` in Python and stays `"ß"` in `Upper`.
- The awaited googletrans call (translation.py:67) becomes the parameter `service`. Its reply is modelled as the list of translated texts. The `hasattr(result, "text")` and `str(result)` branches (translation.py:71-76) for a non-list reply are left out.
- `except Exception` (translation.py:82) does not catch `BaseException`: `asyncio.CancelledError` and `KeyboardInterrupt` leave `translate` even when `raise_on_error` is false. `Raised` stands for an `Exception` only; the other kind is not modelled.
- The optional import and the module-global translator (translation.py:4-13) are process state. They become the parameter `available`.
- An iterable input is held as its items. A one-shot generator consumed by `list()` would come back exhausted from the fallback, and the model does not capture that.
- A destination that is neither a `Language` nor a string, which `str(dest)` would render, is not modelled.
- `Translation.Translate`, `Translation.TranslateIntended`, `Translation.ShapeReply`, `Translation.Recover`, `Translation.Original`, `ToonFormatter.Compact`, `Languages.Normalize`, `Languages.Name`, `Languages.Code`, `Languages.SupportedNames`, `Languages.UnsupportedMessage`, `Languages.IsSpace`, `Strings.Join` and `Strings.Occurs` carry no `ensures` of their own. Their properties are the lemmas named in their rows.
- Not modelled: the CLI (argparse and file I/O), the JSON converter (`json.loads`), the data classes in models.py, the abstract interfaces in base.py, metrics.py (float ratios of token counts), tokenizer_utils.py (tiktoken) and the demo scripts.

## Findings

| source | as written | input that shows it | evidently intended | confidence | as-written member | corrected member |
|---|---|---|---|---|---|---|
| src/tokeneff/core/translation/translation.py:80 | `return translated if not single else translated` returns `translated` on both branches | `translate(["hello"])` with the translator replying `["hola"]` returns `"hola"`, a string, for a list input | a list input returns a list, a string input a string: `translated if single or isinstance(translated, list) else [translated]` | medium (both branches are the same expression); not executed | `Translation.OneElementListYieldsString` | `Translation.IntendedShapeFollowsInput` |

`Translation.Translate` models line 80 as written. `Translation.TranslateIntended` is the corrected
definition, and `Translation.IntendedAgreesElsewhere` shows that the two differ only on
one-element list inputs.
