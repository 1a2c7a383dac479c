/** `Terminex`, the glossary-aware translator of the `tc-translator`
    package.

    For each glossary term the glossary reports in the text, the term's
    whole-word occurrences become the placeholder `<id>` and the placeholder
    is recorded; the engine then translates the text (on failure the text is
    kept untranslated), and every recorded placeholder is replaced by the
    term's fixed translation.  A list of texts is translated item by item. */
module Terminex {
  import opened Wrappers
  import opened OrderedDict
  import opened PyText
  import opened Engine
  import opened Sequences

  /** A term the glossary found in the text: `(term, term_id, translation)`. */
  datatype Found = Found(term: string, termId: string, translation: string)

  /** A `term_mapping` value and a `terms_used` item: `{term, translation, id}`. */
  datatype TermInfo = TermInfo(term: string, translation: string, id: string)

  /** `TranslationResult`; a `domain` of `None` is Python's `None`. */
  datatype TranslationResult = TranslationResult(
    originalText: string, translatedText: string, sourceLanguage: string,
    targetLanguage: string, domain: Option<string>, termsUsed: seq<TermInfo>)

  /** What `translate` accepts: a string or a list of such inputs. */
  datatype Text = Str(value: string) | List(items: seq<Text>)

  /** What `translate` returns for each kind of input. */
  datatype Output = Single(result: TranslationResult) | Many(results: seq<Output>)

  /** `glossary_manager.find_terms_in_text(text, target_language, domain)`. */
  type FindTerms = (string, string, Option<string>) -> seq<Found>

  // -----------------------------------------------------------------------
  // Language codes

  /** `code_mapping` of `_map_language_code`. */
  const CodeMapping: Dict<string, string> := [("twi", "ak"), ("ewe", "ee"), ("ga", "gaa")]

  /** `_map_language_code(code)`: the mapped code of the lower-cased code, or
      the lower-cased code itself. */
  function MapLanguageCode(code: string): (r: string)
    ensures IsLowerCase(r)
  {
    var l := Lower(code);
    LowerIsLowerCase(code);
    match Get(CodeMapping, l)
    case Some(g) => assert g in ["ak", "ee", "gaa"]; g
    case None => l
  }

  /** The three custom codes, in any letter case. */
  lemma MapLanguageCodeCustom(code: string)
    ensures Lower(code) == "twi" ==> MapLanguageCode(code) == "ak"
    ensures Lower(code) == "ewe" ==> MapLanguageCode(code) == "ee"
    ensures Lower(code) == "ga" ==> MapLanguageCode(code) == "gaa"
  {
    assert Keys(CodeMapping) == ["twi", "ewe", "ga"];
    if Lower(code) == "ewe" {
      IndexOfAt(CodeMapping, "ewe", 1);
    } else if Lower(code) == "ga" {
      IndexOfAt(CodeMapping, "ga", 2);
    }
  }

  /** Any other code comes back lower-cased. */
  lemma MapLanguageCodeOther(code: string)
    requires Lower(code) != "twi" && Lower(code) != "ewe" && Lower(code) != "ga"
    ensures MapLanguageCode(code) == Lower(code)
  {
    assert Keys(CodeMapping) == ["twi", "ewe", "ga"];
  }

  /** Mapping a mapped code changes nothing. */
  lemma MapLanguageCodeIdempotent(code: string)
    ensures MapLanguageCode(MapLanguageCode(code)) == MapLanguageCode(code)
  {
    var r := MapLanguageCode(code);
    MapLanguageCodeCustom(code);
    LowerIsLowerCase(code);
    LowerFixedPoint(r);
    assert Lower(r) == r;
    if r == "ak" || r == "ee" || r == "gaa" {
      assert r != "twi" && r != "ewe" && r != "ga";
      MapLanguageCodeOther(r);
    } else {
      assert Lower(code) != "twi" && Lower(code) != "ewe" && Lower(code) != "ga";
      MapLanguageCodeOther(code);
      MapLanguageCodeOther(r);
    }
  }

  // -----------------------------------------------------------------------
  // Substitution and restoration

  /** `f"<{term_id}>"`. */
  function Placeholder(termId: string): (r: string)
    ensures |r| == |termId| + 2 && r[0] == '<' && r[|r| - 1] == '>'
    ensures r[1..|r| - 1] == termId
  {
    "<" + termId + ">"
  }

  /** The `term_mapping` entry a found term writes. */
  function Entry(f: Found): (string, TermInfo) {
    (Placeholder(f.termId), TermInfo(f.term, f.translation, f.termId))
  }

  /** The entries the loop writes, one per found term, in order. */
  function Entries(found: seq<Found>): (es: seq<(string, TermInfo)>)
    ensures |es| == |found|
    ensures forall i :: 0 <= i < |found| ==> es[i] == Entry(found[i])
  {
    if found == [] then []
    else
      var init := found[..|found| - 1];
      assert forall i :: 0 <= i < |init| ==> init[i] == found[i];
      Entries(init) + [Entry(found[|found| - 1])]
  }

  /** `term_mapping` after the loop: every found term is recorded, whether
      or not its pattern matched, and a repeated id keeps its first position
      and takes the last term's information. */
  function TermMapping(found: seq<Found>): Dict<string, TermInfo> {
    FromPairs(Entries(found))
  }

  /** `processed_text` after the loop over `found`. */
  function Substitute(found: seq<Found>, text: string): string {
    if found == [] then text
    else
      var f := found[|found| - 1];
      WordSub(Substitute(found[..|found| - 1], text), f.term, Placeholder(f.termId)).0
  }

  /** The restoring loop: every placeholder, in the mapping's order, replaced
      by its translation. */
  function Restore(mapping: Dict<string, TermInfo>, text: string): string {
    if mapping == [] then text
    else
      var (placeholder, info) := mapping[|mapping| - 1];
      ReplaceAll(Restore(mapping[..|mapping| - 1], text), placeholder, info.translation)
  }

  /** Text holding none of the recorded placeholders comes back unchanged
      from the restoring loop. */
  lemma {:induction false} RestoreNoPlaceholder(mapping: Dict<string, TermInfo>, text: string)
    requires forall e :: e in mapping ==> |e.0| > 0 && !Occurs(text, e.0)
    ensures Restore(mapping, text) == text
  {
    if mapping != [] {
      var init := mapping[..|mapping| - 1];
      var (placeholder, info) := mapping[|mapping| - 1];
      assert forall e :: e in init ==> e in mapping;
      RestoreNoPlaceholder(init, text);
      ReplaceAllAbsent(text, placeholder, info.translation);
    }
  }

  /** In particular, an engine answer that holds no placeholder of a found
      term is restored to itself. */
  lemma RestoreWithoutFoundPlaceholders(found: seq<Found>, text: string)
    requires forall i :: 0 <= i < |found| ==> !Occurs(text, Placeholder(found[i].termId))
    ensures Restore(TermMapping(found), text) == text
  {
    forall e | e in TermMapping(found) ensures |e.0| > 0 && !Occurs(text, e.0) {
      var i := MappedFrom(found, e);
    }
    RestoreNoPlaceholder(TermMapping(found), text);
  }

  /** Every entry of the mapping was written by some found term. */
  lemma MappedFrom(found: seq<Found>, e: (string, TermInfo)) returns (i: nat)
    requires e in TermMapping(found)
    ensures i < |found| && e.0 == Placeholder(found[i].termId)
  {
    var es := Entries(found);
    assert e in es;
    i := PositionOf(es, e);
  }

  lemma EntriesSnoc(found: seq<Found>, i: nat)
    requires i < |found|
    ensures Entries(found[..i + 1]) == Entries(found[..i]) + [Entry(found[i])]
  {
    assert found[..i + 1][..i] == found[..i];
  }

  lemma SubstituteSnoc(found: seq<Found>, i: nat, text: string)
    requires i < |found|
    ensures Substitute(found[..i + 1], text) ==
      WordSub(Substitute(found[..i], text), found[i].term, Placeholder(found[i].termId)).0
  {
    assert found[..i + 1][..i] == found[..i];
  }

  /** A placeholder is recorded exactly when some found term has that id. */
  lemma TermMappingKeys(found: seq<Found>, k: string)
    ensures k in Keys(TermMapping(found)) <==> exists i :: 0 <= i < |found| && Placeholder(found[i].termId) == k
  {
    var es := Entries(found);
    KeysFromPairs(es, k);
    if exists i :: 0 <= i < |es| && es[i].0 == k {
      var i :| 0 <= i < |es| && es[i].0 == k;
      assert Placeholder(found[i].termId) == k;
    }
  }

  /** The information recorded under a placeholder is that of the last found
      term with that id. */
  lemma TermMappingLastWins(found: seq<Found>, i: nat)
    requires i < |found|
    requires forall j :: i < j < |found| ==> found[j].termId != found[i].termId
    ensures Get(TermMapping(found), Placeholder(found[i].termId)) ==
      Some(TermInfo(found[i].term, found[i].translation, found[i].termId))
  {
    var es := Entries(found);
    forall j | i < j < |es| ensures es[j].0 != Placeholder(found[i].termId) {
      assert es[j].0 == Placeholder(found[j].termId);
    }
    GetFromPairsAt(es, i, Placeholder(found[i].termId), TermInfo(found[i].term, found[i].translation, found[i].termId));
  }

  /** `terms_used` holds one item per distinct placeholder, each copied from
      a found term. */
  lemma TermsUsedDistinct(found: seq<Found>)
    ensures var m := TermMapping(found);
      && |Values(m)| == |m| && UniqueKeys(m)
      && (forall j :: 0 <= j < |m| ==> m[j].0 == Placeholder(m[j].1.id))
      && (forall j :: 0 <= j < |m| ==> exists i :: (0 <= i < |found| &&
           Values(m)[j] == TermInfo(found[i].term, found[i].translation, found[i].termId)))
  {
    var m := TermMapping(found);
    var es := Entries(found);
    forall j | 0 <= j < |m|
      ensures m[j].0 == Placeholder(m[j].1.id)
      ensures exists i :: 0 <= i < |found| && Values(m)[j] == TermInfo(found[i].term, found[i].translation, found[i].termId)
    {
      assert m[j] in m;
      assert m[j] in es;
      var i :| 0 <= i < |es| && es[i] == m[j];
      assert es[i] == Entry(found[i]);
    }
  }

  // -----------------------------------------------------------------------
  // Translation

  /** `translate(text, target_language, source_language, domain)` for a
      single string. */
  function Translation(findTerms: FindTerms, engine: Translate, text: string, targetLanguage: string,
                       sourceLanguage: string, domain: Option<string>): TranslationResult
  {
    var found := findTerms(text, targetLanguage, domain);
    var processed := Substitute(found, text);
    var mapping := TermMapping(found);
    var (translated, detected) := match engine(processed, sourceLanguage, MapLanguageCode(targetLanguage))
      case Ok(reply) => (reply.text, reply.src)
      case Err(_) => (processed, sourceLanguage);
    TranslationResult(text, Restore(mapping, translated), detected, targetLanguage, domain, Values(mapping))
  }

  /** The inputs come back unchanged; the engine is asked for the mapped
      target code; its failure falls back to the placeholder-bearing text and
      the requested source language; every recorded placeholder is restored
      either way. */
  lemma TranslationReport(findTerms: FindTerms, engine: Translate, text: string, targetLanguage: string,
                          sourceLanguage: string, domain: Option<string>)
    ensures var r := Translation(findTerms, engine, text, targetLanguage, sourceLanguage, domain);
      var found := findTerms(text, targetLanguage, domain);
      var processed := Substitute(found, text);
      var reply := engine(processed, sourceLanguage, MapLanguageCode(targetLanguage));
      && r.originalText == text && r.targetLanguage == targetLanguage && r.domain == domain
      && r.termsUsed == Values(TermMapping(found))
      && (reply.Ok? ==> r.translatedText == Restore(TermMapping(found), reply.value.text) && r.sourceLanguage == reply.value.src)
      && (reply.Err? ==> r.translatedText == Restore(TermMapping(found), processed) && r.sourceLanguage == sourceLanguage)
  {
  }

  /** With nothing found, the engine sees the text as given and the result
      lists no terms. */
  lemma NothingFound(findTerms: FindTerms, engine: Translate, text: string, targetLanguage: string,
                     sourceLanguage: string, domain: Option<string>)
    requires findTerms(text, targetLanguage, domain) == []
    ensures var r := Translation(findTerms, engine, text, targetLanguage, sourceLanguage, domain);
      var reply := engine(text, sourceLanguage, MapLanguageCode(targetLanguage));
      && r.termsUsed == []
      && r.translatedText == (if reply.Ok? then reply.value.text else text)
  {
    assert Entries([]) == [];
  }

  /** With one found term and text free of `<`, an engine that gives back
      its input leaves whole-word replacement of the term by its
      translation. */
  lemma TransparentEngineSingleTerm(findTerms: FindTerms, engine: Translate, text: string, targetLanguage: string,
                                    sourceLanguage: string, domain: Option<string>, f: Found)
    requires findTerms(text, targetLanguage, domain) == [f]
    requires forall x, src, dest :: engine(x, src, dest) == Ok(Reply(x, src))
    requires '<' !in text
    ensures Translation(findTerms, engine, text, targetLanguage, sourceLanguage, domain).translatedText ==
      WordSub(text, f.term, f.translation).0
    ensures Translation(findTerms, engine, text, targetLanguage, sourceLanguage, domain).termsUsed ==
      [TermInfo(f.term, f.translation, f.termId)]
  {
    var ph := Placeholder(f.termId);
    assert [f][..0] == [];
    var processed := WordSub(text, f.term, ph).0;
    assert Substitute([f], text) == processed;
    assert engine(processed, sourceLanguage, MapLanguageCode(targetLanguage)) == Ok(Reply(processed, sourceLanguage));
    assert Entries([f]) == [Entry(f)];
    assert FromPairs([Entry(f)]) == [Entry(f)] by {
      assert [Entry(f)][..0] == [];
    }
    assert Restore([Entry(f)], WordSub(text, f.term, ph).0) == ReplaceAll(WordSub(text, f.term, ph).0, ph, f.translation) by {
      assert [Entry(f)][..0] == [];
    }
    WordSubThenReplace(text, f.term, ph, f.translation, 0);
  }

  /** The result for every kind of input: a string gives one result, a list
      the list of its items' outputs. */
  function TranslateInput(findTerms: FindTerms, engine: Translate, input: Text, targetLanguage: string,
                          sourceLanguage: string, domain: Option<string>): Output
    decreases input
  {
    match input
    case Str(s) => Single(Translation(findTerms, engine, s, targetLanguage, sourceLanguage, domain))
    case List(items) => Many(TranslateItems(findTerms, engine, items, targetLanguage, sourceLanguage, domain))
  }

  /** `[self.translate(t, ...) for t in items]`. */
  function TranslateItems(findTerms: FindTerms, engine: Translate, items: seq<Text>, targetLanguage: string,
                          sourceLanguage: string, domain: Option<string>): seq<Output>
    decreases items
  {
    if items == [] then []
    else
      TranslateItems(findTerms, engine, items[..|items| - 1], targetLanguage, sourceLanguage, domain) +
      [TranslateInput(findTerms, engine, items[|items| - 1], targetLanguage, sourceLanguage, domain)]
  }

  /** A list yields a list of the same length. */
  lemma {:induction false} ListTranslationLength(findTerms: FindTerms, engine: Translate, items: seq<Text>, targetLanguage: string,
                                                 sourceLanguage: string, domain: Option<string>)
    ensures |TranslateItems(findTerms, engine, items, targetLanguage, sourceLanguage, domain)| == |items|
  {
    if items != [] {
      ListTranslationLength(findTerms, engine, items[..|items| - 1], targetLanguage, sourceLanguage, domain);
    }
  }

  /** The outputs of a list end with those of its last item, after those
      of the items before it. */
  lemma TranslateItemsSnoc(findTerms: FindTerms, engine: Translate, items: seq<Text>, targetLanguage: string,
                           sourceLanguage: string, domain: Option<string>, i: nat)
    requires i < |items|
    ensures var r := TranslateItems(findTerms, engine, items, targetLanguage, sourceLanguage, domain);
      var ri := TranslateItems(findTerms, engine, items[..|items| - 1], targetLanguage, sourceLanguage, domain);
      && |r| == |items| && |ri| == |items| - 1
      && (i < |items| - 1 ==> r[i] == ri[i])
      && (i == |items| - 1 ==> r[i] == TranslateInput(findTerms, engine, items[i], targetLanguage, sourceLanguage, domain))
  {
    ListTranslationLength(findTerms, engine, items, targetLanguage, sourceLanguage, domain);
    ListTranslationLength(findTerms, engine, items[..|items| - 1], targetLanguage, sourceLanguage, domain);
  }

  /** Item `i` of a list yields output `i`. */
  lemma {:induction false} ListTranslationAt(findTerms: FindTerms, engine: Translate, items: seq<Text>, targetLanguage: string,
                                             sourceLanguage: string, domain: Option<string>, i: nat)
    requires i < |items|
    ensures var r := TranslateItems(findTerms, engine, items, targetLanguage, sourceLanguage, domain);
      |r| == |items| && r[i] == TranslateInput(findTerms, engine, items[i], targetLanguage, sourceLanguage, domain)
  {
    TranslateItemsSnoc(findTerms, engine, items, targetLanguage, sourceLanguage, domain, i);
    if i < |items| - 1 {
      var init := items[..|items| - 1];
      ListTranslationAt(findTerms, engine, init, targetLanguage, sourceLanguage, domain, i);
      assert init[i] == items[i];
    }
  }

  /** A list yields a list of the same length, each item's output in the
      item's position. */
  lemma ListTranslation(findTerms: FindTerms, engine: Translate, items: seq<Text>, targetLanguage: string,
                        sourceLanguage: string, domain: Option<string>)
    ensures var r := TranslateItems(findTerms, engine, items, targetLanguage, sourceLanguage, domain);
      && |r| == |items|
      && forall i :: 0 <= i < |items| ==>
           r[i] == TranslateInput(findTerms, engine, items[i], targetLanguage, sourceLanguage, domain)
  {
    ListTranslationLength(findTerms, engine, items, targetLanguage, sourceLanguage, domain);
    forall i | 0 <= i < |items|
      ensures TranslateItems(findTerms, engine, items, targetLanguage, sourceLanguage, domain)[i]
        == TranslateInput(findTerms, engine, items[i], targetLanguage, sourceLanguage, domain)
    {
      ListTranslationAt(findTerms, engine, items, targetLanguage, sourceLanguage, domain, i);
    }
  }

  /** The first loop of `translate`: `processed_text` and `term_mapping`. */
  method SubstituteTerms(termsFound: seq<Found>, text: string) returns (processedText: string, termMapping: Dict<string, TermInfo>)
    ensures processedText == Substitute(termsFound, text)
    ensures termMapping == TermMapping(termsFound)
  {
    termMapping := [];
    processedText := text;
    for i := 0 to |termsFound|
      invariant processedText == Substitute(termsFound[..i], text)
      invariant termMapping == FromPairs(Entries(termsFound[..i]))
    {
      var f := termsFound[i];
      var placeholder := Placeholder(f.termId);
      SubstituteSnoc(termsFound, i, text);
      EntriesSnoc(termsFound, i);
      FromPairsSnoc(Entries(termsFound[..i]), placeholder, TermInfo(f.term, f.translation, f.termId));
      processedText := WordSub(processedText, f.term, placeholder).0;
      termMapping := Put(termMapping, placeholder, TermInfo(f.term, f.translation, f.termId));
    }
    assert termsFound[..|termsFound|] == termsFound;
  }

  /** The second loop of `translate`: each recorded placeholder replaced by
      its translation. */
  method RestorePlaceholders(termMapping: Dict<string, TermInfo>, translatedText: string) returns (restored: string)
    ensures restored == Restore(termMapping, translatedText)
  {
    restored := translatedText;
    for i := 0 to |termMapping|
      invariant restored == Restore(termMapping[..i], translatedText)
    {
      assert termMapping[..i + 1][..i] == termMapping[..i];
      var (placeholder, info) := termMapping[i];
      restored := ReplaceAll(restored, placeholder, info.translation);
    }
    assert termMapping[..|termMapping|] == termMapping;
  }

  class Terminex {
    /** `glossary_manager.find_terms_in_text`. */
    const findTerms: FindTerms
    /** `google_translator.translate`. */
    const engine: Translate

    constructor (findTerms: FindTerms, engine: Translate)
      ensures this.findTerms == findTerms && this.engine == engine
    {
      this.findTerms := findTerms;
      this.engine := engine;
    }

    /** `translate` on a single string. */
    method TranslateText(text: string, targetLanguage: string, sourceLanguage: string, domain: Option<string>)
      returns (r: TranslationResult)
      ensures r == Translation(findTerms, engine, text, targetLanguage, sourceLanguage, domain)
    {
      var termsFound := findTerms(text, targetLanguage, domain);
      var processedText, termMapping := SubstituteTerms(termsFound, text);

      var translatedText, detectedSrc;
      var reply := engine(processedText, sourceLanguage, MapLanguageCode(targetLanguage));
      if reply.Ok? {
        translatedText, detectedSrc := reply.value.text, reply.value.src;
      } else {
        translatedText, detectedSrc := processedText, sourceLanguage;
      }

      var restored := RestorePlaceholders(termMapping, translatedText);
      var termsUsed := Values(termMapping);
      return TranslationResult(text, restored, detectedSrc, targetLanguage, domain, termsUsed);
    }

    /** `translate(text, target_language, source_language, domain)`. */
    method Translate(input: Text, targetLanguage: string, sourceLanguage: string, domain: Option<string>)
      returns (r: Output)
      ensures r == TranslateInput(findTerms, engine, input, targetLanguage, sourceLanguage, domain)
      decreases input
    {
      if input.List? {
        var items := input.items;
        var results: seq<Output> := [];
        for i := 0 to |items|
          invariant results == TranslateItems(findTerms, engine, items[..i], targetLanguage, sourceLanguage, domain)
        {
          var item := Translate(items[i], targetLanguage, sourceLanguage, domain);
          assert items[..i + 1][..i] == items[..i];
          results := results + [item];
        }
        assert items[..|items|] == items;
        return Many(results);
      }
      var one := TranslateText(input.value, targetLanguage, sourceLanguage, domain);
      return Single(one);
    }
  }
}
