# Lezer, modelled in Dafny

Lezer is the internationalisation layer of the HexMakina framework. It
extends a generic i18n class with three things:

- **Language negotiation.** `availableLanguage` joins the `.json` file
  names of the language directory into one string and scans it for
  `/([a-z]{3})\.json/`. When the scan finds no code, the list from the
  previous call is kept. It picks the first code found that is also a
  detected environment value. The environment is an explicit forced
  language, the `lang` query parameter, the session, the cookie and the
  fallback language. The code picked becomes the forced language.
- **Message lookup.** `compileFunction` emits a function that `l` calls. It
  returns an undefined key unchanged and a defined key's template verbatim
  when there are no arguments. Otherwise it fills the template through
  `vsprintf`.
- **Humanizing helpers.** `when` gives relative days, `time` shortens a time
  to `HH:MM`, `date`/`human_date` renders dates and `seconds`/`human_seconds`
  renders durations. A static version of the class (`Lezer.class.php`) adds
  `model_type_to_label` and `field_name_to_label`.

The project has these modules:

- `Wrappers`: `Option`, `Result`.
- `Text`: PHP's integer rendering, `intval`, `explode`, `implode`, and the
  PCRE `$` anchor.
- `Lookup`: the generated lookup function and `vsprintf`.
- `Negotiation`: the class `Lezer` with its two detection caches and the
  specification functions they are proved against.
- `Humanize`: `when`, `time`, `date`, `seconds`.
- `Labels`: the label-key builders.

Negotiation follows the code's own shape. `Lezer` is a class whose methods
update `detectedLanguageEnv`, `detectedLanguageFiles` and `forcedLang`.
Each method's new state is tied to a specification function:
`StoreAll(old env, EnvCandidates(...))`, `FilesAfter(...)` and
`FirstCommon(...)`. Those functions are characterised by lemmas.
`detectLanguageEnv` keeps its loop, with invariants.

PHP's ordered array `detected_language_env` is a sequence of
`(source, value)` entries with distinct keys. Assigning to an existing key
keeps its position; a new key is appended.

Inputs that the source reads from its environment become parameters:

- `$_GET['lang']`, `$_SESSION['lang']` and `$_COOKIE['lang']` form a
  `Request`. Each field is `None` unless it is set and is a string.
- The `.json` file names returned by the directory scan.
- The compiled catalog constants, as a map from key to template.
- The day difference and its unit breakdown from the date library (`None`
  when the event date cannot be parsed).
- The current year.

`when`, `time`, `date` and `seconds` have the same logic in `Lezer.php` and
in the static `Lezer.class.php`, where they are named `when`, `time`,
`human_date` and `human_seconds`. They are modelled once. The table cites
one of the two places.

### Behaviour of the code worth knowing

- `l()` hands its context to `vsprintf` as it is. Context values are not
  themselves looked up.
- Only an undefined constant comes back as the key. A defined key whose
  template is empty returns `""`.
- `detectLanguageEnv` reads five sources only: the forced language, the
  query, the session, the cookie and the fallback. It reads no
  `Accept-Language` header.
- The fallback entry is not always written. `array_unique` drops it when a
  higher source offers the same value, and the legality filter drops it when
  the pattern rejects it. `Negotiation.EnvCandidatesExactly` states exactly
  when each source's value is written.
- The pattern `[a-zA-Z0-9_-]*` accepts the empty string, so a query
  parameter `lang=` is stored as `""`. A forced language of `""` is skipped,
  because `!= null` is a loose comparison.
- The pattern's `$` also matches before one final newline, so `lang=en%0A`
  is stored as `"en\n"` and overwrites an earlier `get` entry. The class
  models this as written; the intended filter is `Negotiation.KeepStrict`
  (see Findings).
- The file names are joined before the scan, so a code can come back that
  has no file of its own. `fr.json` followed by `en.json` gives the single
  code `nen` (`Negotiation.ConcatenationInventsCode`). A longer name such as
  `xfra.json` gives `fra`. A directory whose names hold no code leaves the
  previous list in place.
- Durations render as `%dh %dm %ds`.

## Model

| member | source | states |
|---|---|---|
| Text.IntValOfIntToString | Lezer.php:203 | `intval` reads back the decimal rendering of every integer (round trip) |
| Text.IntVal | Lezer.php:203 | `intval` on a string: optional white space and sign, then the leading digits; characterised by `Text.IntValOfIntToString` and `Humanize.IntValOfDigits` |
| Text.Split | Lezer.php:201 | `explode` on a one-character separator yields at least one piece and no piece contains the separator; `Text.JoinSplit` and `Text.SplitAt` complete it |
| Text.JoinSplit | Lezer.php:201 | `implode` with the separator undoes `explode` |
| Text.SplitAt | Lezer.php:201 | exploding `a-rest` where `a` has no `-` gives `a` followed by the parts of `rest` |
| Lookup.Format | Lezer.php:114 | `vsprintf` restricted to `%s` and `%%`; characterised by `FormatSucceeds`, `FormatPlain`, `FormatAppend`, `FormatExtraArguments` and `FormatOneHole` |
| Lookup.FormatSucceeds | Lezer.php:114 | `vsprintf` with `%s`/`%%` succeeds exactly when every `%` begins `%s` or `%%` and there are at least as many arguments as `%s` holes |
| Lookup.FormatPlain | Lezer.php:114 | a template without `%` is its own result, whatever the arguments |
| Lookup.FormatAppend | Lezer.php:114 | placeholders are filled left to right: the second part of a template gets the arguments the first part did not consume |
| Lookup.FormatExtraArguments | Lezer.php:114 | surplus arguments are ignored |
| Lookup.FormatOneHole | Lezer.php:114 | a single `%s` between plain text receives the first argument |
| Lookup.Lookup | Lezer.php:110-115 | the generated function: the key when undefined, the template when the context is empty, else `vsprintf`; characterised by `UndefinedKey`, `EmptyArgumentsVerbatim` and `LookupSucceeds` |
| Lookup.UndefinedKey | Lezer.php:111-112 | an undefined key is returned unchanged for any arguments |
| Lookup.EmptyArgumentsVerbatim | Lezer.php:113-114 | a defined key with an empty context gives its template verbatim, placeholders included |
| Lookup.LookupSucceeds | Lezer.php:107-116 | a lookup fails exactly when the key is defined, the context is nonempty and the template cannot be filled |
| Lookup.Translate | Lezer.php:118-121 | `l(key)` with the default context never fails and returns the key when it is undefined |
| Lookup.GreetingExample | Lezer.php:107-121 | `GREETING` = `Hello, %s!` with a one-name context gives `Hello, ` + name + `!` |
| Negotiation.Candidates | Lezer.php:68-91 | the array `$userLangs` built source by source before `array_unique`; characterised by `CandidatesShape` |
| Negotiation.CandidatesShape | Lezer.php:68-91 | the candidate list is in priority order forced, get, session, cookie, fallback; it ends with the fallback; an entry is in it exactly when its source offers that value |
| Negotiation.Unique | Lezer.php:93 | `array_unique` on the candidate array; characterised by `UniqueSubseq`, `UniqueDistinct`, `UniqueKeepsValues` and `UniqueKeepsFirst` |
| Negotiation.UniqueSubseq | Lezer.php:93 | `array_unique` keeps an order-preserving subsequence |
| Negotiation.UniqueDistinct | Lezer.php:93 | after `array_unique` no value occurs twice |
| Negotiation.UniqueKeepsValues | Lezer.php:93 | `array_unique` keeps every value |
| Negotiation.UniqueKeepsFirst | Lezer.php:93 | `array_unique` keeps exactly the first occurrence of each value |
| Negotiation.KeepLegal | Lezer.php:96-101 | the legality filter of the `foreach`, as the pattern is written; characterised by `KeepLegalSpec` |
| Negotiation.KeepLegalSpec | Lezer.php:96-101 | the filter keeps, in order, exactly the entries whose value the pattern accepts as PCRE reads `$`: a legal name, optionally followed by one newline |
| Negotiation.NewlineSlipsThrough | Lezer.php:98 | the pattern as PCRE evaluates it accepts `en\n`, which is not a legal name |
| Negotiation.LegalHasNoNewline | Lezer.php:98 | a legal name contains no newline |
| Negotiation.KeepStrictSpec | Lezer.php:96-101 | the intended filter, anchored at the true end, keeps in order exactly the legal entries, and no kept value contains a newline |
| Negotiation.NewlineValueWritten | Lezer.php:96-101 | a query value `name\n` is written under `get` and overwrites whatever an earlier call stored there |
| Negotiation.UniqueKeepsHighest | Lezer.php:93 | in a priority-ordered array, a survivor of `array_unique` is the highest-priority entry carrying its value |
| Negotiation.UniqueKeepsUnrivalled | Lezer.php:93 | in a priority-ordered array, an entry whose value no higher-priority entry carries survives `array_unique` |
| Negotiation.EnvCandidates | Lezer.php:68-101 | the entries `detectLanguageEnv` writes, in order; characterised by `EnvCandidatesRanked` and `EnvCandidatesExactly` |
| Negotiation.EnvCandidatesRanked | Lezer.php:68-101 | the entries to write are in priority order with distinct sources |
| Negotiation.EnvCandidatesSound | Lezer.php:68-101 | a written value is accepted by the pattern, offered by its source and offered by no higher source |
| Negotiation.EnvCandidatesComplete | Lezer.php:68-101 | a value the pattern accepts, offered by a source and by no higher source, is written |
| Negotiation.EnvCandidatesExactly | Lezer.php:68-101 | both directions: a source's value is written if and only if the pattern accepts it, its source offers it and no higher source offers it |
| Negotiation.QueryCookieFallbackExample | Lezer.php:68-101 | query `en`, cookie `fr`, fallback `fra` give `get=en, cookie=fr, fallback=fra` |
| Negotiation.ValueAt | Lezer.php:99 | a value found under a key in the array is stored under that key |
| Negotiation.ValueAtNone | Lezer.php:99 | a key has no value exactly when it is not among the array's keys |
| Negotiation.Assign | Lezer.php:99 | `$arr[$key] = $value` on an ordered array; characterised by `AssignSpec`, `AssignPresent` and `AssignAbsent` |
| Negotiation.AssignSpec | Lezer.php:99 | `$arr[$key] = $value` sets that key, leaves every other key's value unchanged and adds no other entry |
| Negotiation.AssignPresent | Lezer.php:99 | assigning an existing key keeps the array's length and order of keys |
| Negotiation.AssignAbsent | Lezer.php:99 | assigning a new key appends it |
| Negotiation.AssignDistinct | Lezer.php:99 | assignment keeps keys distinct |
| Negotiation.StoreAll | Lezer.php:96-101 | the assignments of the `foreach`, one per entry in order; characterised by `StoreAllSpec`, `StoreAllWrites` and `StoreAllFresh` |
| Negotiation.StoreAllSpec | Lezer.php:96-101 | the loop writes only entries it was given, and keys it was not given keep their values |
| Negotiation.StoreAllWrites | Lezer.php:96-101 | after the loop, each written entry is found under its key and keys not written keep their old values |
| Negotiation.StoreAllDistinct | Lezer.php:96-101 | the loop keeps the array's keys distinct |
| Negotiation.StoreAllFresh | Lezer.php:96-101 | on an empty array the loop leaves exactly the written entries, in order |
| Negotiation.ExtractCodes | Lezer.php:45-46 | every match of `([a-z]{3})\.json` is a three-letter lowercase code, and there is at most one per eight characters |
| Negotiation.ExtractFileNames | Lezer.php:45-46 | scanning the concatenation of `code.json` names gives back the codes in order |
| Negotiation.ScanMatch | Lezer.php:46 | a code followed by `.json` is matched and the scan resumes after the match |
| Negotiation.ConcatenationInventsCode | Lezer.php:45-46 | names are concatenated before matching, so two-letter files `xy.json` and `zw.json` yield the single code `nzw` (`fr.json` + `en.json` gives `nen`) |
| Negotiation.FilesAfter | Lezer.php:41-50 | the cache after `detectLanguageFiles`: unchanged with no names or no codes, else the codes found; characterised by `FilesOfCodeNames` |
| Negotiation.FilesReturned | Lezer.php:41-50 | what `detectLanguageFiles` returns: `[]` with no names, else the cache after the scan; characterised by `FilesOfCodeNames` |
| Negotiation.FilesOfCodeNames | Lezer.php:41-50 | scanning a directory of `code.json` catalogs replaces the cache with exactly those codes, in order, and returns them |
| Negotiation.CommonIndex | Lezer.php:29 | the index of the first file code that is also a candidate value |
| Negotiation.FirstCommon | Lezer.php:29 | `current(array_intersect(...))` is `false` exactly when no file code is a candidate value; otherwise it is the first file code, in scan order, that is one |
| Negotiation.Lezer.constructor | Lezer.php:18-19 | both detection caches start empty and the invariant holds |
| Negotiation.Lezer.DetectLanguageEnv | Lezer.php:66-104 | the array becomes the old array with every entry of `EnvCandidates` stored under its key; it is returned; keys stay distinct and every value is one the pattern accepts; keys not written keep their values |
| Negotiation.Lezer.DetectLanguageFiles | Lezer.php:38-51 | no names gives `[]` and no change; otherwise the cache is replaced by the codes when some are found and returned |
| Negotiation.Lezer.AvailableLanguage | Lezer.php:27-36 | returns the first scanned code that is a detected environment value (`None` for `false`); when found it becomes the forced language, otherwise nothing else changes |
| Humanize.NonZeroUnits | Lezer.php:158-168 | a unit gets an entry exactly when it is in the breakdown with a nonzero quantity |
| Humanize.Phrases | Lezer.php:156-175 | `$ordering` after the `foreach`; characterised by `PhrasesOfNonZeroUnits` and `ListingOfNonZeroUnits` |
| Humanize.PhrasesOfNonZeroUnits | Lezer.php:158-176 | the entries are the phrases `qty label.` of the nonzero units, one for one, in order |
| Humanize.NonZeroUnitsInOrder | Lezer.php:145-158 | entries appear in the order year, month, week, day, hour, minute, second |
| Humanize.WhenText | Lezer.php:126-181 | what `when` returns; characterised by `WhenNamesFirstTwo`, `WhenNamesOnlyUnit` and `WhenNamesNoUnit` |
| Humanize.When | Lezer.php:126-181 | the loop computes `WhenText`: the error text, yesterday/today/tomorrow, or the prefix and the first two entries joined by ` & ` |
| Humanize.WhenNamesFirstTwo | Lezer.php:176-180 | with two or more nonzero units, the result is the future (difference ≥ 0) or past prefix, then the two most significant phrases joined by ` & ` |
| Humanize.WhenNamesOnlyUnit | Lezer.php:176-180 | with one nonzero unit, the prefix and its phrase |
| Humanize.WhenNamesNoUnit | Lezer.php:176-180 | with none, the prefix and a trailing space |
| Humanize.ListingOfNonZeroUnits | Lezer.php:178 | `implode(' & ', array_slice($ordering, 0, 2))` names the first two nonzero units |
| Humanize.UnitLabelRules | Lezer.php:168-172 | `_ABBREV` when abbreviating, else `_PLURAL` for quantities above one, else the bare label |
| Humanize.Time | Lezer.class.php:102-107 | the short form is the prefix of at most five characters; otherwise the input is unchanged |
| Humanize.HumanDate | Lezer.class.php:109-125 | `human_date`; characterised by `HumanDateSentinel`, `HumanDateBareYear` and `HumanDateOfParts` |
| Humanize.HumanDateSentinel | Lezer.class.php:111-112 | `""`, `"0"` and `0000-00-00` render as the empty-value label |
| Humanize.HumanDateBareYear | Lezer.class.php:114-115 | a four-digit year is returned as its integer value, between 0 and 9999 |
| Humanize.HumanDateOfParts | Lezer.class.php:117-124 | `Y-M-D` renders as the day number, the translated month and the year; the year is omitted exactly when short and equal to the current year |
| Humanize.Hms | Lezer.class.php:139-141 | hours, minutes and seconds recompose the input, with minutes and seconds below 60 |
| Humanize.HmsUnique | Lezer.class.php:139-141 | any decomposition with minutes and seconds below 60 is the one computed |
| Humanize.HumanSeconds | Lezer.class.php:137-145 | `human_seconds`; characterised by `Hms`, `HmsUnique` and `HumanSecondsOfParts` |
| Humanize.HumanSecondsOfParts | Lezer.class.php:137-145 | `h·3600 + m·60 + s` renders as `{h}h {m}m {s}s` |
| Labels.InstanceKey | Lezer.class.php:41 | the key `MODEL_{type}_INSTANCE`; characterised by `InstanceKeyInjective` |
| Labels.FieldKey | Lezer.class.php:45 | the key `MODEL_{type}_FIELD_{field}`; characterised by `FieldKeyInjective` and `FieldKeyCollision` |
| Labels.ModelTypeToLabel | Lezer.class.php:39-42 | the translation of `MODEL_{type}_INSTANCE`, or that key when undefined |
| Labels.FieldNameToLabel | Lezer.class.php:43-46 | the translation of `MODEL_{type}_FIELD_{field}`, or that key when undefined |
| Labels.InstanceKeyInjective | Lezer.class.php:41 | distinct model types have distinct instance keys |
| Labels.FieldKeyInjective | Lezer.class.php:45 | for one model type, distinct fields have distinct keys |
| Labels.FieldKeyCollision | Lezer.class.php:45 | across types, keys collide: type `a_FIELD_b` with field `c` equals type `a` with field `b_FIELD_c` |

## Left out

- The directory scan `FileSystem::preg_scandir` and its `/.json$/` filter are not modelled. The model takes the list of names it returns.
- The superglobals, the session and the cookie are read once per call into a `Request`. Concurrent changes are not modelled.
- `setForcedLang` is modelled as a plain assignment of `forcedLang`. The parent i18n class is not part of this model. That covers catalog loading, fallback merging, the cache file, header parsing and `init`.
- `compileFunction` generates PHP source that is evaluated later. The model is the behaviour of the generated function, not the text or its evaluation.
- Lookup.Format: `vsprintf` is modelled for `%s` and `%%` only. Any other conversion (`%d`, positional `%1$s`, widths) gives `Err(Unmodelled)` instead of PHP's result.
- Lookup.Lookup: arguments are strings. PHP's conversion of other argument types is not modelled.
- Humanize.When: the day difference and its breakdown (`DatoTempo::days_diff`, `days_diff_in_parts`) come from a date library that is not part of this model. They are parameters, and the model does not relate the breakdown to the day count. `$options['abbrev']` is a boolean.
- Humanize.HumanDate: `Dato::format(null, 'Y')` is the `currentYear` parameter. `short` stands for `$short === true`, so any other value behaves as `false`. PHP's warnings for missing `explode` parts are not modelled; the missing parts read as `""`.
- Humanize.Time: `substr` counts bytes and the model counts characters. They agree on ASCII times.
- Humanize.Hms: the input is a natural number. Negative or fractional seconds, and `floor` returning a float, are not modelled.
- Text.IntVal: decimal digits only. The exponent and overflow forms of PHP's numeric strings are not modelled.
- `month`/`day` (`human_month`/`human_day`) only concatenate a date library result onto a key and translate it. The date library is not part of this model.
- `languages_by_file` in the static class and the `L` bootstrap around it are not modelled. They only list a directory and wire up global state.
- Labels: `get_class($form_model)::model_type()` is a parameter `modelType`.

## Findings

| source | as written | input that shows it | evidently intended | confidence | as-written member | corrected member |
|---|---|---|---|---|---|---|
| Lezer.php:98 | `preg_match('/^[a-zA-Z0-9_-]*$/', $value)`: without the `D` modifier, `$` also matches before a final newline | `$_GET['lang'] = "en\n"` passes the filter and is stored under `get` | only letters, digits, `_` and `-` in a stored language name | not executed | Negotiation.NewlineValueWritten | Negotiation.KeepStrictSpec |
