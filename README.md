# nkrane: terminology-controlled translation, modelled in Dafny

nkrane translates text into African languages (Twi/Akan, Ewe, Ga, ...)
through Google's translation service. Glossary terms must come out with their
fixed, curated translations, so the translation goes in three steps:

1. Before translation, every whole-word, case-insensitive occurrence of a
   glossary term is replaced by a placeholder `<id>`.
2. The engine translates the placeholder-bearing text.
3. Afterwards, each placeholder is replaced by the term's translation.

Three front ends share this idea, and all three are modelled:

- **`tc_translate`**:
  - `TerminologyManager` loads one glossary and does the substitution.
  - `TCTranslator` checks that the requested domain and language exist, then
    translates in two hops, source → Thai → target.
  - `Translator` is a facade that uses `TCTranslator` only when a domain is
    given.
  - `language_codes` converts between ISO 639-3 glossary codes and the
    engine's mostly two-letter codes.
- **`tc-translator` (`Terminex`)**: substitutes the terms a glossary reports.
  When the engine fails, it falls back to the untranslated text. It lists
  the terms it used and accepts lists of texts.
- **`nkrane_gt` (`NkraneTranslator`)**:
  - sends one HTTP request per text;
  - reads Google's nested-list JSON answer;
  - keeps three kinds of failure apart;
  - in batch mode, records failures without stopping, and pauses after every
    successful item except the last, whether or not the next one succeeds.

Modules:

| module | models |
|---|---|
| `Wrappers` | `Option` and `Result` |
| `Sequences` | three facts about plain sequences used as explicit proof steps |
| `OrderedDict` | Python dictionaries as insertion-ordered association lists: assignment keeps a key's position, and a dict display lets the last value win |
| `PyText` | `str.lower`, `str.strip`, `str.replace`, `re.subn` with `\b…\b` and `IGNORECASE`, and `str(int)` |
| `LanguageCodes` | `tc_translate/language_codes.py` |
| `TerminologyManager` | `tc_translate/terminology_manager.py` (class `TerminologyManager`) |
| `Engine` | the translation engine: text, source and destination in; a reply or an error message out |
| `TcTranslator` | `tc_translate/translator.py` (classes `TCTranslator` and `Translator`) |
| `Terminex` | `tc-translator/translator.py` (class `Terminex`) |
| `Nkrane` | `nkrane_gt/translator.py` (class `NkraneTranslator`) |

Where the source changes state step by step, the model does too:

- The substitution, restoration, resolution, batch and parsing loops are
  methods with loop invariants.
- Each method is proved equal to a specification function.
- The properties are proved about those functions as lemmas.

The classes set their fields only at construction, so their fields are
`const`, and their methods change nothing.

## Model

| member | source | states |
|---|---|---|
| OrderedDict.Put | tc_translate/terminology_manager.py:93 | `d[k] = v`: the key reads `v` afterwards; an existing key keeps its position; a new key goes last; keys stay unique; no other entry appears |
| OrderedDict.GetPutOther | tc_translate/terminology_manager.py:93 | writing one key leaves every other key's value unchanged |
| OrderedDict.GetFromPairs | tc_translate/language_codes.py:6-38 | a dict display gives each key the value of its last occurrence |
| OrderedDict.GetFromPairsAt | tc_translate/language_codes.py:6-38 | an occurrence with no later occurrence of its key is the value the display keeps |
| OrderedDict.KeysFromPairs | tc_translate/language_codes.py:6-38 | the keys of a dict display are exactly the keys written in it |
| PyText.Strip | tc_translate/terminology_manager.py:89 | `str.strip`: the result is a contiguous slice; everything cut off on either side is whitespace; the result neither starts nor ends with whitespace |
| PyText.StripStripped | tc_translate/terminology_manager.py:89 | stripping text with no surrounding whitespace changes nothing |
| PyText.LowerIdempotent | tc_translate/terminology_manager.py:89 | lower-casing twice is lower-casing once |
| PyText.WordSub | tc_translate/terminology_manager.py:121-128 | `re.subn` of `\bw\b`, case-insensitively: zero replacements exactly when no whole-word match exists, and then the text is unchanged |
| PyText.WordSubFromLength | tc_translate/terminology_manager.py:121-128 | each of the n replacements swaps the word's length for the placeholder's |
| PyText.WordSubThenReplace | tc_translate/terminology_manager.py:121-143 | replacing words by a marker and then the marker by `rep` equals replacing the words by `rep`, when the marker's first character is not in the text |
| PyText.WordSubSelfOnLower | tc_translate/terminology_manager.py:121-128 | replacing a lower-case word by itself in lower-case text changes nothing |
| PyText.ReplaceAllAbsent | tc_translate/terminology_manager.py:143 | `str.replace` with a non-empty pattern that does not occur changes nothing |
| PyText.RemoveAffixes | tc_translate/terminology_manager.py:70 | removing a prefix and then a suffix by `str.replace` leaves the middle, when the middle shares no marker character with them |
| PyText.IntToStringInjective | tc_translate/terminology_manager.py:124 | different integers print differently |
| LanguageCodes.ReverseOf | tc_translate/language_codes.py:41 | the reverse comprehension: unique keys; every entry has a 2-letter key and inverts a forward entry; every 2-letter forward value is a key |
| LanguageCodes.ConvertLangCode | tc_translate/language_codes.py:43-71 | codes of any length other than 2 or 3 pass through; toward Google the result is the input, 2 letters, or `zh-cn`; away from Google it is the input or 3 letters |
| LanguageCodes.ConvertThreeLetter | tc_translate/language_codes.py:63-64 | toward Google, a 3-letter code is looked up lower-cased, and an unmapped code is returned as given |
| LanguageCodes.ConvertTwoLetter | tc_translate/language_codes.py:67-68 | away from Google, a 2-letter code is looked up lower-cased in the reverse table, and an unmapped code is returned as given |
| LanguageCodes.ConvertPassThrough | tc_translate/language_codes.py:55-71 | pass-through for: the empty code; 2-letter codes toward Google; unmapped 3-letter codes; 3-letter codes away from Google |
| LanguageCodes.ConvertToGoogleIdempotent | tc_translate/language_codes.py:6-71 | converting to Google form twice is converting once |
| LanguageCodes.EntryShapes | tc_translate/language_codes.py:6-38 | in the table: 3-letter keys map to 2-letter codes or `zh-cn`; 2-letter values come from 3-letter keys; keys are lower case |
| LanguageCodes.TwiLookup | tc_translate/language_codes.py:8-35 | the repeated key `twi` holds its last value `tw` |
| LanguageCodes.ConvertTwi | tc_translate/language_codes.py:8-64 | any spelling of `twi` converts to `tw` |
| LanguageCodes.TwiResolvesToLastDefinition | tc_translate/language_codes.py:8-35 | `twi` and `TWI` both convert to `tw` |
| LanguageCodes.ConvertMapped | tc_translate/language_codes.py:63-64 | a 3-letter code converts to the table value of its lower-case form |
| LanguageCodes.ConvertFra | tc_translate/language_codes.py:10-64 | any spelling of `fra` converts to `fr` |
| LanguageCodes.AkEntries | tc_translate/language_codes.py:8-9 | only `twi` and `aka` are written with the value `ak` |
| LanguageCodes.AkReversesToAka | tc_translate/language_codes.py:41 | since `twi` ends up as `tw`, the reverse table sends `ak` to `aka` |
| LanguageCodes.ReverseInvertsMapping | tc_translate/language_codes.py:41 | each reverse entry has a 2-letter key, and its forward lookup gives the key back |
| LanguageCodes.ReverseCoversTwoLetterValues | tc_translate/language_codes.py:41 | a forward value is a reverse key exactly when it has 2 letters |
| LanguageCodes.FromGoogleThenToGoogle | tc_translate/language_codes.py:59-68 | for a 2-letter code, converting away from Google and back gives its lower-case form when the reverse table knows it, and the code itself otherwise |
| LanguageCodes.FromGoogleGivesIso6393 | tc_translate/language_codes.py:67-80 | a 2-letter code the reverse table knows converts to a code classified `iso639-3` |
| LanguageCodes.DetectLangCodeFormat | tc_translate/language_codes.py:73-80 | `iso639-1` exactly for length 2, `iso639-3` exactly for length 3, and `unknown` exactly otherwise |
| LanguageCodes.IsGoogleSupported | tc_translate/language_codes.py:98-102 | a code of length other than 3 is supported exactly when it is listed as written; a 3-letter code exactly when its table value (for its lower-case form), or the code itself if unmapped, is listed |
| LanguageCodes.SupportIgnoresConversion | tc_translate/language_codes.py:98-102 | converting before asking about support changes nothing |
| LanguageCodes.ListMembership | tc_translate/language_codes.py:82-96 | `tw` is not in the list; `fr` is |
| LanguageCodes.TwiIsNotListed | tc_translate/language_codes.py:35-102 | neither `twi` nor `tw` counts as supported |
| LanguageCodes.FrenchIsListed | tc_translate/language_codes.py:10-102 | `fra` and `fr` both count as supported |
| TerminologyManager.FileNameGivesLanguage | tc_translate/terminology_manager.py:69-70 | `terminologies_<lang>.csv` gives `<lang>` when `<lang>` has no `_` or `.` |
| TerminologyManager.NormalizeTerm | tc_translate/terminology_manager.py:89 | a dictionary key is lower case and has no surrounding whitespace |
| TerminologyManager.NormalizeTermIdempotent | tc_translate/terminology_manager.py:89 | normalising a key again changes nothing |
| TerminologyManager.RowEntries | tc_translate/terminology_manager.py:85-93 | one entry per row: key is the normalised term, with the row's id and translation |
| TerminologyManager.LoadedTermsWellFormed | tc_translate/terminology_manager.py:84-93 | loaded keys are unique and lower case; each key is its term's `term`; each term carries the manager's Google code and comes from a row |
| TerminologyManager.LoadedKeys | tc_translate/terminology_manager.py:85-93 | a key is loaded exactly when some row normalises to it |
| TerminologyManager.LaterRowOverwrites | tc_translate/terminology_manager.py:93 | a row with no later row of the same normalised term is what the dictionary keeps |
| TerminologyManager.InsertByLength | tc_translate/terminology_manager.py:114 | insertion into the length-sorted list is a permutation that adds the new term |
| TerminologyManager.InsertByLengthSorted | tc_translate/terminology_manager.py:114 | insertion keeps the list longest first |
| TerminologyManager.InsertByLengthStable | tc_translate/terminology_manager.py:114 | insertion keeps terms of equal length in their original order |
| TerminologyManager.SortByLengthDescSorted | tc_translate/terminology_manager.py:113-114 | the sort is a permutation, and lengths never increase along it |
| TerminologyManager.SortByLengthDescStable | tc_translate/terminology_manager.py:114 | terms of each length keep the dictionary's order, as Python's stable sort does |
| TerminologyManager.Placeholder | tc_translate/terminology_manager.py:124 | a placeholder is at least 3 characters, opens with `<` and closes with `>` |
| TerminologyManager.PlaceholderInjective | tc_translate/terminology_manager.py:124 | different ids give different placeholders |
| TerminologyManager.ReplacementsWellFormed | tc_translate/terminology_manager.py:123-126 | each recorded placeholder is `<id>` of the term it maps to, that term is one of the terms tried, and keys are unique |
| TerminologyManager.ReplacementsRecordMatches | tc_translate/terminology_manager.py:119-128 | a placeholder is recorded exactly when some term with that placeholder matched the text as it stood at that term's turn |
| TerminologyManager.PreprocessNoMatch | tc_translate/terminology_manager.py:116-130 | when no term matches, the text comes back unchanged with no replacements |
| TerminologyManager.PostprocessNoPlaceholder | tc_translate/terminology_manager.py:142-144 | text with no recorded placeholder comes back unchanged |
| TerminologyManager.SingleTermRoundTrip | tc_translate/terminology_manager.py:101-144 | for one term and text without `<`, postprocess(preprocess) is whole-word replacement of the term by its translation |
| TerminologyManager.IdentityTranslationRoundTrip | tc_translate/terminology_manager.py:101-144 | a term translated as itself leaves lower-case text without `<` unchanged after the round trip |
| TerminologyManager.PlaceholderHasNoTerm | tc_translate/terminology_manager.py:119-128 | a term starting with a letter never matches inside a placeholder |
| TerminologyManager.WholeTextMatch | tc_translate/terminology_manager.py:120-128 | a text that starts and ends with word characters is replaced whole, once, when it is itself the term |
| TerminologyManager.LongestFirstKeepsCompound | tc_translate/terminology_manager.py:113-130 | with a shorter term loaded before a longer one, text equal to the longer term becomes its one placeholder, the only one recorded: the shorter term does not split it |
| TerminologyManager.NorthBankStaysWhole | tc_translate/terminology_manager.py:113-130 | with "bank" loaded before "north bank", "north bank" becomes the placeholder of "north bank" alone |
| TerminologyManager.TerminologyManager.constructor | tc_translate/terminology_manager.py:64-93 | language from the file name; Google code is its conversion; terms are the rows loaded in order, with later rows overwriting |
| TerminologyManager.TerminologyManager.GetGoogleLangCode | tc_translate/terminology_manager.py:95-99 | the Google code of the given language, or of the manager's own language when none is given |
| TerminologyManager.TerminologyManager.PreprocessText | tc_translate/terminology_manager.py:101-130 | an error naming the language exactly when no terms are loaded; otherwise the longest-first substitution loop |
| TerminologyManager.TerminologyManager.PostprocessText | tc_translate/terminology_manager.py:132-144 | every recorded placeholder replaced by its translation, in the dictionary's order |
| TcTranslator.AvailableForDomain | tc_translate/translator.py:60 | lists exactly the languages available for the domain |
| TcTranslator.FirstMatch | tc_translate/translator.py:49-56 | none exactly when no pair accepts; otherwise the language of the first accepting pair (domain equal; target equal to the language or its Google form) |
| TcTranslator.ResolveTargetLanguage | tc_translate/translator.py:46-65 | the flag-and-break scan succeeds with the first match, and otherwise fails with the domain's available languages |
| TcTranslator.TCTranslator.Create | tc_translate/translator.py:13-68 | construction fails exactly when no pair accepts; otherwise it fixes the Google codes and stores the first match as the original target language |
| TcTranslator.TwoHopThroughPivot | tc_translate/translator.py:96-109 | the two-hop chain yields (thai, final) exactly when the engine gives `thai` from src to `th`, then `final` from `th` to the target on `thai`'s text verbatim |
| TcTranslator.TwoHopFailure | tc_translate/translator.py:92-136 | the chain fails exactly when either hop fails, and a first-hop failure is its error |
| TcTranslator.ControlledReport | tc_translate/translator.py:111-132 | `intermediate_thai` is the first hop's text; `google_translation` is the second hop's output on it; `text` is postprocess(that, replacements); the count is the number of replacements; the inputs come back unchanged |
| TcTranslator.ControlledErrors | tc_translate/translator.py:82-136 | an empty glossary is the terminology error; otherwise the translation fails exactly when the two-hop chain does |
| TcTranslator.TransparentEngineSingleTerm | tc_translate/translator.py:82-117 | with an engine that returns its input and a one-term glossary, the result is whole-word replacement of the term by its translation |
| TcTranslator.TCTranslator.TranslateAsync | tc_translate/translator.py:70-136 | preprocess, two hops through `th`, postprocess; any error propagates |
| TcTranslator.TCTranslator.BatchTranslate | tc_translate/translator.py:173-182 | one result per text, in order, when all succeed; otherwise the first failing text's error, with every earlier text succeeding; one pause per translated text |
| TcTranslator.Plain | tc_translate/translator.py:225-254 | without a domain: the same two hops on the raw text; `text` is the second hop's output and `intermediate_thai` the first's |
| TcTranslator.Translator.TranslateAsync | tc_translate/translator.py:210-254 | with a domain, construction and translation by `TCTranslator`; without one, the plain two-hop chain |
| Terminex.MapLanguageCode | tc-translator/translator.py:121-140 | the result is lower case |
| Terminex.MapLanguageCodeCustom | tc-translator/translator.py:134-140 | `twi`→`ak`, `ewe`→`ee` and `ga`→`gaa`, in any letter case |
| Terminex.MapLanguageCodeOther | tc-translator/translator.py:140 | any other code comes back lower-cased |
| Terminex.MapLanguageCodeIdempotent | tc-translator/translator.py:134-140 | mapping a mapped code changes nothing |
| Terminex.TermMappingKeys | tc-translator/translator.py:72-81 | a placeholder is recorded exactly when some found term has that id, whether or not its pattern matched |
| Terminex.TermMappingLastWins | tc-translator/translator.py:77-81 | a placeholder records the term, translation and id of the last found term with that id |
| Terminex.TermsUsedDistinct | tc-translator/translator.py:103-110 | `terms_used` has one item per distinct placeholder; each is copied from a found term, and its placeholder is `<id>` |
| Terminex.TranslationReport | tc-translator/translator.py:84-119 | the engine is asked for the mapped target code; on failure, the placeholder text and the requested source stand in; placeholders are restored either way; the inputs come back unchanged |
| Terminex.NothingFound | tc-translator/translator.py:61-119 | with no terms found, the engine sees the text as given, and the result lists no terms |
| Terminex.TransparentEngineSingleTerm | tc-translator/translator.py:72-100 | with an engine that returns its input, one found term and text without `<`, the result is whole-word replacement of the term by its translation |
| Terminex.ListTranslation | tc-translator/translator.py:57-58 | a list yields as many outputs, in the same order, each the translation of its item |
| Terminex.SubstituteTerms | tc-translator/translator.py:69-81 | the substitution loop computes the substituted text and `term_mapping` |
| Terminex.RestorePlaceholders | tc-translator/translator.py:99-100 | the restoring loop replaces every recorded placeholder by its translation |
| Terminex.RestoreNoPlaceholder | tc-translator/translator.py:99-100 | text holding no recorded (non-empty) placeholder comes back unchanged from the restoring loop |
| Terminex.RestoreWithoutFoundPlaceholders | tc-translator/translator.py:72-100 | text holding no placeholder of any found term is restored to itself |
| Terminex.Terminex.TranslateText | tc-translator/translator.py:60-119 | the single-text translation |
| Terminex.Terminex.Translate | tc-translator/translator.py:37-119 | strings and lists of inputs, recursively |
| Nkrane.Len | nkrane_gt/translator.py:82-84 | where `len` is defined, a value is truthy exactly when its length is positive |
| Nkrane.First | nkrane_gt/translator.py:83-85 | indexing a non-empty value fails exactly for a dictionary (`KeyError`) |
| Nkrane.Iterate | nkrane_gt/translator.py:83 | iteration is defined exactly where `len` is, and yields as many items |
| Nkrane.ParseEmpty | nkrane_gt/translator.py:81-87 | empty or false data parses as `''` |
| Nkrane.CollectWellFormed | nkrane_gt/translator.py:83-85 | on well-formed segments, the loop collects the text of every non-empty segment, in order |
| Nkrane.JoinTextParts | nkrane_gt/translator.py:87 | the join of those parts is their concatenation |
| Nkrane.ParseWellFormed | nkrane_gt/translator.py:81-87 | a response `[[seg, ...], ...]` parses as the concatenation of the first element of every non-empty segment |
| Nkrane.CollectPartsErrPersists | nkrane_gt/translator.py:83-85 | an exception inside the loop is the parse's outcome, whatever follows |
| Nkrane.ParseResponse | nkrane_gt/translator.py:77-87 | the parsing loop and join, with Python's `TypeError` and `KeyError` cases |
| Nkrane.GoogleTranslate | nkrane_gt/translator.py:72-94 | a timeout gives `TimeoutError`; any other request failure gives the API error with its detail; a response the loop cannot read gives the parse error carrying the fault the loop raised, except that a `KeyError` (indexing a dict) escapes unwrapped as `KeyNotFound`; a good response gives its text |
| Nkrane.MessagesDistinct | nkrane_gt/translator.py:89-94 | the timeout, API and parse error messages differ, whatever their details |
| Nkrane.NkraneTranslator.constructor | nkrane_gt/translator.py:14-38 | the codes are converted to Google form once |
| Nkrane.NkraneTranslator.GoogleTranslateSync | nkrane_gt/translator.py:52-94 | one request with the stored codes, read as above |
| Nkrane.NkraneTranslator.TranslationReport | nkrane_gt/translator.py:107-144 | the first of preprocessing, the request and postprocessing to raise gives the error message; otherwise `text` is postprocess(engine(preprocess(text))), `replacements_count` is the number of replacements, `src_google`/`dest_google` are the stored codes, and `replaced_terms` is the list of their keys in dictionary order |
| Nkrane.NkraneTranslator.Translate | nkrane_gt/translator.py:96-144 | preprocess, one request, postprocess; an exception from any step is re-raised |
| Nkrane.NkraneTranslator.BatchTranslate | nkrane_gt/translator.py:146-166 | one item per text, in order: a failure becomes `{'text': '', 'error': str(e), 'original': text}` and the batch goes on; a pause follows exactly the successful texts other than the last, in order |

## Left out

- Unicode: `str.lower`, `str.strip`, `\w` and `IGNORECASE` are modelled on ASCII letters and digits and `_`. Whitespace follows Python's ASCII and Latin-1 whitespace set.
- File and CSV I/O:
  - finding the glossary file (`_find_terminology_file`), `pandas.read_csv` and `int(row['id'])` are not modelled;
  - the manager takes the file's base name and its rows as given;
  - the missing parenthesis at `tc_translate/terminology_manager.py:51` therefore does not arise.
- Logging, `print` warnings, `time.time` and the elapsed `translation_time`. These have no effect on results.
- asyncio:
  - the event-loop plumbing of `translate` and `batch_translate_sync`, and `future.result(timeout=...)`, are not modelled;
  - `asyncio.sleep(0.1)` and `time.sleep(0.5)` are recorded as pauses, not timed.
- The engines (`googletrans`, `requests.get`) are function parameters.
  - An engine call either returns a reply or fails with a message.
  - The request function of `nkrane_gt` returns a timeout, another request failure, or the decoded JSON body.
  - A body that is not JSON counts as a request failure, as `requests` raises a `RequestException` for it.
- Nkrane.NkraneTranslator.Translate: "the engine is called exactly once" is not stated. The model has no call counter. It does state that the result depends on one request, for the preprocessed text.
- TcTranslator.TCTranslator.TranslateAsync: `tc_translate/translator.py:82-84` passes three arguments to a `preprocess_text` that takes one. The model calls the one-argument operation of the manager.
- TcTranslator.TCTranslator.Create:
  - `get_available_domains_languages` is not defined by the manager that is modelled, so the available `(domain, language)` pairs are a parameter;
  - the manager is passed in, not built from a directory;
  - the `ValueError` is modelled by its data (domain, language, available languages), not its formatted text.
- TcTranslator.Translator.TranslateAsync: the domain path builds a fresh `TerminologyManager` from the same directory in the source. The model reuses the facade's manager, which was loaded from the same files. `domain=None` is modelled as the empty string.
- Terminex:
  - `glossary_manager.find_terms_in_text` is not part of this model; the terms it reports are a parameter;
  - a term id is kept as the text it prints as;
  - the engine error's `print` is left out.
- Nkrane:
  - the terminology manager of `nkrane_gt` (its `preprocess_text`, `postprocess_text`, `original_cases`) is not part of this model; its two operations are function parameters that either return a value or raise with a message;
  - `nkrane_gt/language_codes.py` is not part of this model; its `convert_lang_code` is a constructor parameter;
  - `get_terms_count` and the support warnings are left out;
  - floats in the response keep only whether they are zero.
- Nkrane.ParseResponse: Python's `TypeError`/`KeyError` texts are reproduced for the cases the parser can meet. `IndexError` cannot arise there, because every indexed value has just been checked to be non-empty.
- Terminex.SubstituteTerms: placeholders are inserted literally. In the source the placeholder is a `re.sub` replacement template, so an id containing `\` is escape-processed (`\n` becomes a newline) or raises `re.error` (`\d`, `\1`) before the engine's `try`; ids containing a backslash are not modelled.
- Default arguments are not modelled: `src_lang='en'` and `use_builtin=True` (`nkrane_gt`), `source_language='auto'` and `domain=None` (`Terminex`), `src='en'`, `dest='twi'` and `domain=None` (`Translator`), `to_google=True` (`convert_lang_code`) and `language=None` (`get_google_lang_code`, where the empty string stands for `None`). Every caller in the model passes each argument explicitly.
- `setup.py` and `tc-translator/__init__.py` are packaging and re-exports only.
