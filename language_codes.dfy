/** Language codes: ISO 639-3 (three-letter, as used by the terminology files)
    and the codes the Google engine accepts (mostly ISO 639-1, two letters). */
module LanguageCodes {
  import opened Wrappers
  import opened OrderedDict
  import opened PyText
  import opened Sequences

  /** The entries of `LANGUAGE_CODE_MAPPING` as written, in order, with the
      repeated keys `twi` and `orm` kept. */
  const LanguageCodeEntries: seq<(string, string)> := [
    ("twi", "ak"), ("aka", "ak"), ("fra", "fr"), ("deu", "de"), ("spa", "es"),
    ("por", "pt"), ("ita", "it"), ("rus", "ru"), ("zho", "zh-cn"), ("cmn", "zh-cn"),
    ("jpn", "ja"), ("kor", "ko"), ("ara", "ar"), ("hin", "hi"), ("ben", "bn"),
    ("urd", "ur"), ("swa", "sw"), ("yor", "yo"), ("ibo", "ig"), ("hau", "ha"),
    ("amh", "am"), ("orm", "om"), ("som", "so"), ("wol", "wo"), ("ful", "ff"),
    ("mand", "man"), ("ewe", "ee"), ("twi", "tw"), ("tir", "ti"), ("orm", "om")
  ]

  /** `LANGUAGE_CODE_MAPPING`: the dict display evaluated, so a repeated key
      keeps its first position and its last value. */
  const LanguageCodeMapping: Dict<string, string> := FromPairs(LanguageCodeEntries)

  /** `{v: k for k, v in items if len(v) == 2}`, evaluated in iteration order
      (a later item with the same value overwrites an earlier one). */
  function ReverseOf(items: Dict<string, string>): (r: Dict<string, string>)
    ensures UniqueKeys(r)
    ensures forall e :: e in r ==> |e.0| == 2 && (e.1, e.0) in items
    ensures forall e :: e in items && |e.1| == 2 ==> e.1 in Keys(r)
  {
    if items == [] then []
    else
      var init := items[..|items| - 1];
      var last := items[|items| - 1];
      var acc := ReverseOf(init);
      ReverseStep(items, acc);
      if |last.1| == 2 then Put(acc, last.1, last.0) else acc
  }

  /** One more item of the comprehension keeps `ReverseOf`'s contract. */
  lemma ReverseStep(items: Dict<string, string>, acc: Dict<string, string>)
    requires items != []
    requires UniqueKeys(acc)
    requires forall e :: e in acc ==> |e.0| == 2 && (e.1, e.0) in items[..|items| - 1]
    requires forall e :: e in items[..|items| - 1] && |e.1| == 2 ==> e.1 in Keys(acc)
    ensures var last := items[|items| - 1];
      var r := if |last.1| == 2 then Put(acc, last.1, last.0) else acc;
      && UniqueKeys(r)
      && (forall e :: e in r ==> |e.0| == 2 && (e.1, e.0) in items)
      && (forall e :: e in items && |e.1| == 2 ==> e.1 in Keys(r))
  {
    var init := items[..|items| - 1];
    var last := items[|items| - 1];
    assert items == init + [last];
    assert forall e :: e in init ==> e in items;
  }

  /** `REVERSE_LANGUAGE_MAPPING`. */
  const ReverseLanguageMapping: Dict<string, string> := ReverseOf(LanguageCodeMapping)

  /** Three-letter keys of the table as written map to two-letter codes or
      to `zh-cn`. */
  lemma ThreeLetterKeysShape()
    ensures forall i :: 0 <= i < |LanguageCodeEntries| && |LanguageCodeEntries[i].0| == 3 ==>
      |LanguageCodeEntries[i].1| == 2 || LanguageCodeEntries[i].1 == "zh-cn"
  {
  }

  /** Two-letter values of the table as written come from three-letter keys. */
  lemma TwoLetterValuesShape()
    ensures forall i :: 0 <= i < |LanguageCodeEntries| && |LanguageCodeEntries[i].1| == 2 ==>
      |LanguageCodeEntries[i].0| == 3
  {
  }

  /** Every key of the table as written is lower case. */
  lemma KeysLowerCase()
    ensures forall i :: 0 <= i < |LanguageCodeEntries| ==> IsLowerCase(LanguageCodeEntries[i].0)
  {
  }

  /** The three facts above, stated for the entries themselves. */
  lemma EntryShapes()
    ensures forall e :: e in LanguageCodeEntries && |e.0| == 3 ==> |e.1| == 2 || e.1 == "zh-cn"
    ensures forall e :: e in LanguageCodeEntries && |e.1| == 2 ==> |e.0| == 3
    ensures forall e :: e in LanguageCodeEntries ==> IsLowerCase(e.0)
  {
    var es := LanguageCodeEntries;
    ThreeLetterKeysShape();
    TwoLetterValuesShape();
    KeysLowerCase();
    forall e | e in es
      ensures |e.0| == 3 ==> |e.1| == 2 || e.1 == "zh-cn"
      ensures |e.1| == 2 ==> |e.0| == 3
      ensures IsLowerCase(e.0)
    {
      var i :| 0 <= i < |es| && es[i] == e;
    }
  }

  /** `convert_lang_code(code, to_google)`. */
  function ConvertLangCode(code: string, toGoogle: bool): (r: string)
    // codes of any length other than 2 and 3 are never touched
    ensures |code| != 2 && |code| != 3 ==> r == code
    // towards Google: unchanged, or a two-letter code, or the one longer
    // Google code in the table
    ensures toGoogle ==> r == code || |r| == 2 || r == "zh-cn"
    // towards the terminology files: unchanged, or a three-letter code
    ensures !toGoogle ==> r == code || |r| == 3
  {
    if code == "" then code
    else if toGoogle && |code| == 2 then code
    else if toGoogle && |code| == 3 then
      GoogleLookupShape(Lower(code));
      Get(LanguageCodeMapping, Lower(code)).GetOr(code)
    else if !toGoogle && |code| == 2 then
      ReverseLookupShape(Lower(code));
      Get(ReverseLanguageMapping, Lower(code)).GetOr(code)
    else code
  }

  /** A three-letter key of the table maps to a two-letter code or `zh-cn`. */
  lemma GoogleLookupShape(k: string)
    requires |k| == 3
    ensures var g := Get(LanguageCodeMapping, k); g.Some? ==> |g.value| == 2 || g.value == "zh-cn"
  {
    var g := Get(LanguageCodeMapping, k);
    if g.Some? {
      assert (k, g.value) in LanguageCodeEntries;
      EntryShapes();
    }
  }

  /** A key of the reverse table maps to a three-letter code. */
  lemma ReverseLookupShape(v: string)
    ensures var g := Get(ReverseLanguageMapping, v); g.Some? ==> |g.value| == 3
  {
    var g := Get(ReverseLanguageMapping, v);
    if g.Some? {
      assert (v, g.value) in ReverseLanguageMapping;
      assert (g.value, v) in LanguageCodeEntries;
      EntryShapes();
    }
  }

  /** `detect_lang_code_format(code)`. */
  function DetectLangCodeFormat(code: string): (r: string)
    ensures r == "iso639-1" <==> |code| == 2
    ensures r == "iso639-3" <==> |code| == 3
    ensures r == "unknown" <==> |code| != 2 && |code| != 3
  {
    if |code| == 2 then "iso639-1"
    else if |code| == 3 then "iso639-3"
    else "unknown"
  }

  /** `get_available_google_languages()`: the list as written, kept as five
      displays of two source lines each so that each stays small. */
  const GoogleLanguages: seq<string> :=
    GoogleLanguagesAToEo + GoogleLanguagesEtToKn + GoogleLanguagesKkToOr + GoogleLanguagesPsToTa + GoogleLanguagesTtToZu

  const GoogleLanguagesAToEo: seq<string> := [
    "af", "sq", "am", "ar", "hy", "az", "eu", "be", "bn", "bs", "bg", "ca",
    "ceb", "zh", "zh-cn", "zh-tw", "co", "hr", "cs", "da", "nl", "en", "eo"
  ]
  const GoogleLanguagesEtToKn: seq<string> := [
    "et", "fi", "fr", "fy", "gl", "ka", "de", "el", "gu", "ht", "ha", "haw",
    "he", "hi", "hmn", "hu", "is", "ig", "id", "ga", "it", "ja", "jv", "kn"
  ]
  const GoogleLanguagesKkToOr: seq<string> := [
    "kk", "km", "rw", "ko", "ku", "ky", "lo", "la", "lv", "lt", "lb", "mk",
    "mg", "ms", "ml", "mt", "mi", "mr", "mn", "my", "ne", "no", "ny", "or"
  ]
  const GoogleLanguagesPsToTa: seq<string> := [
    "ps", "fa", "pl", "pt", "pa", "ro", "ru", "sm", "gd", "sr", "st", "sn",
    "sd", "si", "sk", "sl", "so", "es", "su", "sw", "sv", "tl", "tg", "ta"
  ]
  const GoogleLanguagesTtToZu: seq<string> := [
    "tt", "te", "th", "tr", "tk", "uk", "ur", "ug", "uz", "vi", "cy", "xh",
    "yi", "yo", "zu"
  ]

  /** `is_google_supported(code)`: the Google form of the code is listed.
      A three-letter code is judged by its table value, if it has one; any
      other code is judged as written. */
  function IsGoogleSupported(code: string): (r: bool)
    ensures |code| != 3 ==> (r <==> code in GoogleLanguages)
    ensures |code| == 3 ==> (r <==> Get(LanguageCodeMapping, Lower(code)).GetOr(code) in GoogleLanguages)
  {
    ConvertLangCode(code, true) in GoogleLanguages
  }

  // -----------------------------------------------------------------------
  // Properties

  /** The lookup branches of `convert_lang_code`. */
  lemma ConvertThreeLetter(code: string)
    requires |code| == 3
    ensures ConvertLangCode(code, true) == Get(LanguageCodeMapping, Lower(code)).GetOr(code)
  {
  }

  lemma ConvertTwoLetter(code: string)
    requires |code| == 2
    ensures ConvertLangCode(code, false) == Get(ReverseLanguageMapping, Lower(code)).GetOr(code)
  {
  }

  /** Converting to Google form twice is converting once. */
  lemma ConvertToGoogleIdempotent(code: string)
    ensures ConvertLangCode(ConvertLangCode(code, true), true) == ConvertLangCode(code, true)
  {
  }

  /** Empty codes, two-letter codes (towards Google) and codes of any length
      other than 2 or 3 pass through; an unmapped three-letter code comes back
      as given, not lower-cased. */
  lemma ConvertPassThrough(code: string, toGoogle: bool)
    ensures code == "" ==> ConvertLangCode(code, toGoogle) == code
    ensures toGoogle && |code| == 2 ==> ConvertLangCode(code, toGoogle) == code
    ensures |code| == 3 && Lower(code) !in Keys(LanguageCodeMapping) ==> ConvertLangCode(code, true) == code
    ensures !toGoogle && |code| == 3 ==> ConvertLangCode(code, toGoogle) == code
  {
  }

  /** The table as written sends `twi` to its later value `tw`. */
  lemma TwiLookup()
    ensures Get(LanguageCodeMapping, "twi") == Some("tw")
  {
    GetFromPairsAt(LanguageCodeEntries, 27, "twi", "tw");
  }

  /** A three-letter code converts to the table's value for its lower-case
      form. */
  lemma ConvertMapped(code: string, v: string)
    requires |code| == 3 && Get(LanguageCodeMapping, Lower(code)) == Some(v)
    ensures ConvertLangCode(code, true) == v
  {
    ConvertThreeLetter(code);
  }

  /** Any spelling of `twi` converts to `tw`. */
  lemma ConvertTwi(code: string)
    requires |code| == 3 && Lower(code) == "twi"
    ensures ConvertLangCode(code, true) == "tw"
  {
    TwiLookup();
    ConvertMapped(code, "tw");
  }

  /** `twi` is written twice in the table; the later `'twi': 'tw'` wins, in
      any letter case. */
  lemma TwiResolvesToLastDefinition()
    ensures ConvertLangCode("twi", true) == "tw"
    ensures ConvertLangCode("TWI", true) == "tw"
  {
    var l := Lower("TWI");
    assert l[0] == 't' && l[1] == 'w' && l[2] == 'i';
    ConvertTwi("TWI");
    var m := Lower("twi");
    assert m[0] == 't' && m[1] == 'w' && m[2] == 'i';
    ConvertTwi("twi");
  }

  /** The table as written sends `aka` to `ak`. */
  lemma AkaLookup()
    ensures Get(LanguageCodeMapping, "aka") == Some("ak")
  {
    GetFromPairsAt(LanguageCodeEntries, 1, "aka", "ak");
  }

  /** Only the first two entries as written have the value `ak`. */
  lemma AkEntries()
    ensures forall i :: 0 <= i < |LanguageCodeEntries| && LanguageCodeEntries[i].1 == "ak" ==>
      LanguageCodeEntries[i].0 == "twi" || LanguageCodeEntries[i].0 == "aka"
  {
  }

  /** Every entry of the reverse table has a two-letter key and undoes the
      forward table. */
  lemma ReverseInvertsMapping(v: string)
    requires v in Keys(ReverseLanguageMapping)
    ensures |v| == 2
    ensures Get(LanguageCodeMapping, Get(ReverseLanguageMapping, v).value) == Some(v)
  {
    var k := Get(ReverseLanguageMapping, v).value;
    assert (v, k) in ReverseLanguageMapping;
    assert (k, v) in LanguageCodeMapping;
  }

  /** Since `twi` now means `tw`, the reverse table sends `ak` back to `aka`
      alone. */
  lemma AkReversesToAka()
    ensures Get(ReverseLanguageMapping, "ak") == Some("aka")
  {
    AkaLookup();
    ReverseCoversTwoLetterValues("aka", "ak");
    ReverseInvertsMapping("ak");
    AkSource(Get(ReverseLanguageMapping, "ak").value);
  }

  /** The only key the table as evaluated sends to `ak` is `aka`. */
  lemma AkSource(k: string)
    requires Get(LanguageCodeMapping, k) == Some("ak")
    ensures k == "aka"
  {
    TwiLookup();
    assert (k, "ak") in LanguageCodeEntries;
    var i := PositionOf(LanguageCodeEntries, (k, "ak"));
    AkEntries();
  }

  /** Every two-letter Google code of the forward table can be looked up in
      the reverse table; no longer Google code can. */
  lemma ReverseCoversTwoLetterValues(k: string, v: string)
    requires (k, v) in LanguageCodeMapping
    ensures v in Keys(ReverseLanguageMapping) <==> |v| == 2
  {
    if v in Keys(ReverseLanguageMapping) {
      ReverseInvertsMapping(v);
    }
  }

  /** Converting a two-letter code to the terminology form and back gives its
      lower-case form when the reverse table knows it, and the code itself
      otherwise. */
  lemma FromGoogleThenToGoogle(code: string)
    requires |code| == 2
    ensures ConvertLangCode(ConvertLangCode(code, false), true)
            == if Lower(code) in Keys(ReverseLanguageMapping) then Lower(code) else code
  {
    var c := Lower(code);
    ConvertTwoLetter(code);
    if c in Keys(ReverseLanguageMapping) {
      ReverseInvertsMapping(c);
      var k := Get(ReverseLanguageMapping, c).value;
      assert (k, c) in LanguageCodeMapping;
      EntryShapes();
      assert |k| == 3 && IsLowerCase(k);
      LowerFixedPoint(k);
      ConvertMapped(k, c);
    }
  }

  /** A two-letter code the reverse table knows becomes a code that
      `detect_lang_code_format` classifies as ISO 639-3. */
  lemma FromGoogleGivesIso6393(code: string)
    requires |code| == 2 && Lower(code) in Keys(ReverseLanguageMapping)
    ensures DetectLangCodeFormat(ConvertLangCode(code, false)) == "iso639-3"
  {
    var c := Lower(code);
    ConvertTwoLetter(code);
    ReverseInvertsMapping(c);
    var k := Get(ReverseLanguageMapping, c).value;
    assert (k, c) in LanguageCodeMapping;
    EntryShapes();
  }

  /** Support is decided on the Google form, so converting first changes nothing. */
  lemma SupportIgnoresConversion(code: string)
    ensures IsGoogleSupported(ConvertLangCode(code, true)) == IsGoogleSupported(code)
  {
    ConvertToGoogleIdempotent(code);
  }

  /** The table as written sends `fra` to `fr`. */
  lemma FraLookup()
    ensures Get(LanguageCodeMapping, "fra") == Some("fr")
  {
    GetFromPairsAt(LanguageCodeEntries, 2, "fra", "fr");
  }

  /** Any spelling of `fra` converts to `fr`. */
  lemma ConvertFra(code: string)
    requires |code| == 3 && Lower(code) == "fra"
    ensures ConvertLangCode(code, true) == "fr"
  {
    FraLookup();
    ConvertMapped(code, "fr");
  }

  /** `tw` is not in the engine's list; `fr` is. */
  lemma ListMembership()
    ensures "tw" !in GoogleLanguages
    ensures "fr" in GoogleLanguages
  {
    TwUnlistedFirstHalf();
    TwUnlistedSecondHalf();
    var ab := GoogleLanguagesAToEo + GoogleLanguagesEtToKn;
    assert ab[|GoogleLanguagesAToEo| + 2] == "fr";
  }

  lemma TwUnlistedFirstHalf()
    ensures "tw" !in GoogleLanguagesAToEo && "tw" !in GoogleLanguagesEtToKn
  {
  }

  lemma TwUnlistedSecondHalf()
    ensures "tw" !in GoogleLanguagesKkToOr && "tw" !in GoogleLanguagesPsToTa && "tw" !in GoogleLanguagesTtToZu
  {
  }

  /** Twi in either spelling is not in the engine's list (the table sends it
      to `tw`). */
  lemma TwiIsNotListed()
    ensures !IsGoogleSupported("twi") && !IsGoogleSupported("tw")
  {
    ListMembership();
    TwiResolvesToLastDefinition();
  }

  /** French is listed in either spelling. */
  lemma FrenchIsListed()
    ensures IsGoogleSupported("fra") && IsGoogleSupported("fr")
  {
    ListMembership();
    var m := Lower("fra");
    assert m[0] == 'f' && m[1] == 'r' && m[2] == 'a';
    ConvertFra("fra");
  }
}
