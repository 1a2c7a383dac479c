/** `tc_translate.translator`: the terminology-controlled translator.

    `TCTranslator` checks at construction that the requested domain and
    target language are available, then translates by protecting glossary
    terms with placeholders, sending the text through the engine twice (from
    the source language into Thai, then from Thai into the target language)
    and restoring the terms.  `Translator` is the Google-like facade that
    uses a `TCTranslator` when a domain is given and the bare two-hop chain
    otherwise. */
module TcTranslator {
  import opened Wrappers
  import opened OrderedDict
  import opened PyText
  import opened LanguageCodes
  import opened TerminologyManager
  import opened Engine

  /** The language every translation passes through. */
  const Pivot: string := "th"

  /** Why a terminology-controlled translation failed. */
  datatype TcError =
    | DomainLanguageNotFound(domain: string, targetLang: string, availableForDomain: seq<string>)
    | Terminology(cause: TerminologyError)
    | EngineFailed(message: string)

  /** The dictionary `TCTranslator._translate_async` returns. */
  datatype TcResult = TcResult(
    text: string, src: string, dest: string, originalDest: string, domain: string,
    original: string, preprocessed: string, googleTranslation: string,
    intermediateThai: string, replacementsCount: nat, srcGoogle: string, destGoogle: string)

  /** The dictionary `Translator._translate_async` returns without a domain. */
  datatype PlainResult = PlainResult(
    text: string, src: string, dest: string, srcGoogle: string, destGoogle: string,
    original: string, intermediateThai: string)

  /** What `Translator._translate_async` returns, with or without a domain. */
  datatype Outcome = WithTerminology(controlled: TcResult) | WithoutTerminology(plain: PlainResult)

  // -----------------------------------------------------------------------
  // Domain and language resolution

  /** `[l for d, l in available if d == domain]`. */
  function AvailableForDomain(available: seq<(string, string)>, domain: string): (r: seq<string>)
    ensures forall l :: l in r <==> (domain, l) in available
  {
    if available == [] then []
    else
      var rest := AvailableForDomain(available[1..], domain);
      assert forall p :: p in available <==> p == available[0] || p in available[1..];
      (if available[0].0 == domain then [available[0].1] else []) + rest
  }

  /** The pair `(d, l)` serves `domain` in `targetLang`, given either as the
      terminology file's code or as its Google form. */
  predicate Accepts(pair: (string, string), domain: string, targetLang: string) {
    pair.0 == domain && (targetLang == pair.1 || targetLang == ConvertLangCode(pair.1, true))
  }

  /** The language of the first pair that accepts the request. */
  function FirstMatch(available: seq<(string, string)>, domain: string, targetLang: string): (r: Option<string>)
    ensures r.None? <==> forall i :: 0 <= i < |available| ==> !Accepts(available[i], domain, targetLang)
    ensures r.Some? ==> exists i :: (0 <= i < |available| && Accepts(available[i], domain, targetLang) &&
      available[i].1 == r.value && forall j :: 0 <= j < i ==> !Accepts(available[j], domain, targetLang))
  {
    if available == [] then None
    else if Accepts(available[0], domain, targetLang) then Some(available[0].1)
    else
      var r := FirstMatch(available[1..], domain, targetLang);
      assert forall i :: 1 <= i < |available| ==> available[i] == available[1..][i - 1];
      r
  }

  /** The scan of `available` in `TCTranslator.__init__`: the first accepting
      pair gives the original target language; with none, the error lists
      every language the domain has. */
  method ResolveTargetLanguage(available: seq<(string, string)>, domain: string, targetLang: string)
    returns (r: Result<string, TcError>)
    ensures r == match FirstMatch(available, domain, targetLang)
      case Some(l) => Ok(l)
      case None => Err(DomainLanguageNotFound(domain, targetLang, AvailableForDomain(available, domain)))
  {
    var domainLangExists := false;
    var originalTargetLang := "";
    var i := 0;
    while i < |available|
      invariant 0 <= i <= |available|
      invariant FirstMatch(available, domain, targetLang) == FirstMatch(available[i..], domain, targetLang)
      invariant !domainLangExists
    {
      var (d, l) := available[i];
      if d == domain {
        var googleL := ConvertLangCode(l, true);
        if targetLang == l || targetLang == googleL {
          domainLangExists := true;
          originalTargetLang := l;
          break;
        }
      }
      assert available[i..][1..] == available[i + 1..];
      i := i + 1;
    }
    if !domainLangExists {
      return Err(DomainLanguageNotFound(domain, targetLang, AvailableForDomain(available, domain)));
    }
    return Ok(originalTargetLang);
  }

  // -----------------------------------------------------------------------
  // Translation

  /** The two engine calls: `src` into the pivot, then the pivot's text into
      `dest`.  The first failure ends the chain. */
  function TwoHop(engine: Translate, text: string, src: string, dest: string): Result<(Reply, Reply), string> {
    match engine(text, src, Pivot)
    case Err(m) => Err(m)
    case Ok(thai) =>
      match engine(thai.text, Pivot, dest)
      case Err(m) => Err(m)
      case Ok(final) => Ok((thai, final))
  }

  /** The chain succeeds with `(thai, final)` exactly when the engine turns
      the text into `thai` going into Thai and turns `thai`'s text, verbatim,
      into `final` going out of Thai. */
  lemma TwoHopThroughPivot(engine: Translate, text: string, src: string, dest: string, thai: Reply, final: Reply)
    ensures TwoHop(engine, text, src, dest) == Ok((thai, final)) <==>
      engine(text, src, "th") == Ok(thai) && engine(thai.text, "th", dest) == Ok(final)
  {
  }

  /** A failure of either hop is the chain's failure. */
  lemma TwoHopFailure(engine: Translate, text: string, src: string, dest: string)
    ensures TwoHop(engine, text, src, dest).Err? <==>
      engine(text, src, "th").Err? || engine(engine(text, src, "th").value.text, "th", dest).Err?
    ensures engine(text, src, "th").Err? ==> TwoHop(engine, text, src, dest) == Err(engine(text, src, "th").error)
  {
  }

  /** The settings a `TCTranslator` fixes at construction. */
  datatype Settings = Settings(
    domain: string, targetLang: string, srcLang: string,
    srcLangGoogle: string, targetLangGoogle: string, originalTargetLang: string)

  /** `TCTranslator._translate_async(text)` for a manager with `terms`. */
  function Controlled(terms: Dict<string, Term>, language: string, engine: Translate, s: Settings, text: string)
    : Result<TcResult, TcError>
  {
    if terms == [] then Err(Terminology(NoTerminology(language)))
    else
      var (pre, reps) := Preprocess(terms, text);
      match TwoHop(engine, pre, s.srcLangGoogle, s.targetLangGoogle)
      case Err(m) => Err(EngineFailed(m))
      case Ok((thai, final)) =>
        Ok(TcResult(PostprocessFold(reps, final.text), s.srcLang, s.targetLang, s.originalTargetLang,
                    s.domain, text, pre, final.text, thai.text, |reps|, s.srcLangGoogle, s.targetLangGoogle))
  }

  /** What a successful controlled translation reports: the inputs unchanged,
      the preprocessed text, the Thai text the first hop produced, the second
      hop's output on exactly that text, and the final text restored from it. */
  lemma ControlledReport(terms: Dict<string, Term>, language: string, engine: Translate, s: Settings, text: string)
    requires Controlled(terms, language, engine, s, text).Ok?
    ensures var r := Controlled(terms, language, engine, s, text).value;
            var (pre, reps) := Preprocess(terms, text);
            && r.original == text && r.domain == s.domain && r.dest == s.targetLang && r.src == s.srcLang
            && r.originalDest == s.originalTargetLang
            && r.preprocessed == pre && r.replacementsCount == |reps|
            && engine(pre, s.srcLangGoogle, "th") == Ok(Reply(r.intermediateThai, engine(pre, s.srcLangGoogle, "th").value.src))
            && engine(r.intermediateThai, "th", s.targetLangGoogle).Ok?
            && r.googleTranslation == engine(r.intermediateThai, "th", s.targetLangGoogle).value.text
            && r.text == PostprocessFold(reps, r.googleTranslation)
  {
  }

  /** The error cases: no terminology, or an engine failure in either hop. */
  lemma ControlledErrors(terms: Dict<string, Term>, language: string, engine: Translate, s: Settings, text: string)
    ensures terms == [] ==> Controlled(terms, language, engine, s, text) == Err(Terminology(NoTerminology(language)))
    ensures terms != [] ==>
      (Controlled(terms, language, engine, s, text).Err? <==>
       TwoHop(engine, Preprocess(terms, text).0, s.srcLangGoogle, s.targetLangGoogle).Err?)
  {
  }

  /** With an engine that gives back its input, a glossary of one term turns
      the text into whole-word replacement of the term by its translation. */
  lemma TransparentEngineSingleTerm(key: string, t: Term, language: string, engine: Translate, s: Settings, text: string)
    requires forall x, src, dest :: engine(x, src, dest) == Ok(Reply(x, src))
    requires '<' !in text
    ensures Controlled([(key, t)], language, engine, s, text).Ok?
    ensures Controlled([(key, t)], language, engine, s, text).value.text == WordSub(text, t.term, t.translation).0
  {
    assert Values([(key, t)]) == [t];
    assert [t][..0] == [];
    assert SortByLengthDesc([t]) == [t];
    SingleTermRoundTrip(t, text);
    var (pre, reps) := Preprocess([(key, t)], text);
    assert engine(pre, s.srcLangGoogle, Pivot) == Ok(Reply(pre, s.srcLangGoogle));
    assert engine(pre, Pivot, s.targetLangGoogle) == Ok(Reply(pre, Pivot));
  }

  /** `Translator._translate_async` without a domain: the same two hops on the
      text as given, and the second hop's text as the answer. */
  function Plain(engine: Translate, text: string, src: string, dest: string): (r: Result<PlainResult, TcError>)
    ensures r.Ok? ==> r.value.original == text && r.value.src == src && r.value.dest == dest
    ensures r.Ok? <==> TwoHop(engine, text, ConvertLangCode(src, true), ConvertLangCode(dest, true)).Ok?
    ensures r.Ok? ==>
      var (thai, final) := TwoHop(engine, text, ConvertLangCode(src, true), ConvertLangCode(dest, true)).value;
      r.value.text == final.text && r.value.intermediateThai == thai.text
  {
    var srcGoogle := ConvertLangCode(src, true);
    var destGoogle := ConvertLangCode(dest, true);
    match TwoHop(engine, text, srcGoogle, destGoogle)
    case Err(m) => Err(EngineFailed(m))
    case Ok((thai, final)) => Ok(PlainResult(final.text, src, dest, srcGoogle, destGoogle, text, thai.text))
  }

  // -----------------------------------------------------------------------
  // The translators

  class TCTranslator {
    const domain: string
    const targetLang: string
    const srcLang: string
    const terminologyManager: TerminologyManager
    const srcLangGoogle: string
    const targetLangGoogle: string
    const originalTargetLang: string
    const engine: Translate

    /** The fields as `__init__` sets them. */
    ghost predicate Valid()
      reads this, terminologyManager
    {
      && terminologyManager.Valid()
      && srcLangGoogle == ConvertLangCode(srcLang, true)
      && targetLangGoogle == terminologyManager.GetGoogleLangCode(targetLang)
    }

    /** The settings this translator was constructed with. */
    function Config(): Settings {
      Settings(domain, targetLang, srcLang, srcLangGoogle, targetLangGoogle, originalTargetLang)
    }

    constructor (domain: string, targetLang: string, srcLang: string, manager: TerminologyManager,
                 originalTargetLang: string, engine: Translate)
      requires manager.Valid()
      ensures Valid()
      ensures this.domain == domain && this.targetLang == targetLang && this.srcLang == srcLang
      ensures this.terminologyManager == manager && this.originalTargetLang == originalTargetLang
      ensures this.engine == engine
    {
      this.domain := domain;
      this.targetLang := targetLang;
      this.srcLang := srcLang;
      this.terminologyManager := manager;
      this.srcLangGoogle := ConvertLangCode(srcLang, true);
      this.targetLangGoogle := manager.GetGoogleLangCode(targetLang);
      this.originalTargetLang := originalTargetLang;
      this.engine := engine;
    }

    /** `TCTranslator(domain, target_lang, src_lang)`: fails unless some
        available pair accepts the request; `available` is what the
        terminology store reports. */
    static method Create(domain: string, targetLang: string, srcLang: string, manager: TerminologyManager,
                         available: seq<(string, string)>, engine: Translate)
      returns (r: Result<TCTranslator, TcError>)
      requires manager.Valid()
      ensures r.Err? <==> FirstMatch(available, domain, targetLang).None?
      ensures r.Err? ==> r.error == DomainLanguageNotFound(domain, targetLang, AvailableForDomain(available, domain))
      ensures r.Ok? ==> fresh(r.value) && r.value.Valid()
      ensures r.Ok? ==> r.value.Config() == Settings(domain, targetLang, srcLang,
        ConvertLangCode(srcLang, true), manager.GetGoogleLangCode(targetLang),
        FirstMatch(available, domain, targetLang).value)
      ensures r.Ok? ==> r.value.terminologyManager == manager && r.value.engine == engine
    {
      var original := ResolveTargetLanguage(available, domain, targetLang);
      if original.Err? {
        return Err(original.error);
      }
      var t := new TCTranslator(domain, targetLang, srcLang, manager, original.value, engine);
      return Ok(t);
    }

    /** What `_translate_async(text)` returns for this translator. */
    function Translation(text: string): Result<TcResult, TcError> {
      Controlled(terminologyManager.terms, terminologyManager.language, engine, Config(), text)
    }

    /** `_translate_async(text)`. */
    method TranslateAsync(text: string) returns (r: Result<TcResult, TcError>)
      ensures r == Translation(text)
    {
      var pre := terminologyManager.PreprocessText(text);
      if pre.Err? {
        return Err(Terminology(pre.error));
      }
      var (preprocessed, replacements) := pre.value;
      var thai := engine(preprocessed, srcLangGoogle, Pivot);
      if thai.Err? {
        return Err(EngineFailed(thai.error));
      }
      var google := engine(thai.value.text, Pivot, targetLangGoogle);
      if google.Err? {
        return Err(EngineFailed(google.error));
      }
      var finalText := terminologyManager.PostprocessText(google.value.text, replacements);
      return Ok(TcResult(finalText, srcLang, targetLang, originalTargetLang, domain, text, preprocessed,
                         google.value.text, thai.value.text, |replacements|, srcLangGoogle, targetLangGoogle));
    }

    /** `batch_translate(texts)`: one result per text, in order; the first
        failure aborts the batch.  `pauses` counts the 0.1 s waits, one after
        every translated text including the last. */
    method BatchTranslate(texts: seq<string>) returns (r: Result<seq<TcResult>, TcError>, pauses: nat)
      ensures r.Ok? <==> forall i :: 0 <= i < |texts| ==> Translation(texts[i]).Ok?
      ensures r.Ok? ==> |r.value| == |texts| && pauses == |texts|
      ensures r.Ok? ==> forall i :: 0 <= i < |texts| ==>
        Translation(texts[i]) == Ok(r.value[i])
      ensures r.Err? ==> pauses < |texts|
      ensures r.Err? ==> Translation(texts[pauses]) == Err(r.error)
      ensures r.Err? ==> forall i :: 0 <= i < pauses ==> Translation(texts[i]).Ok?
    {
      var results: seq<TcResult> := [];
      pauses := 0;
      for i := 0 to |texts|
        invariant |results| == i && pauses == i
        invariant forall j :: 0 <= j < i ==>
          Translation(texts[j]) == Ok(results[j])
      {
        var result := TranslateAsync(texts[i]);
        if result.Err? {
          assert !Translation(texts[i]).Ok?;
          return Err(result.error), pauses;
        }
        results := results + [result.value];
        pauses := pauses + 1;
      }
      r := Ok(results);
    }
  }

  class Translator {
    const terminologyManager: TerminologyManager
    const engine: Translate

    constructor (manager: TerminologyManager, engine: Translate)
      ensures terminologyManager == manager && this.engine == engine
    {
      terminologyManager := manager;
      this.engine := engine;
    }

    /** `_translate_async(text, src, dest, domain)`, with `""` for no domain;
        `available` is what the terminology store reports. */
    method TranslateAsync(text: string, src: string, dest: string, domain: string, available: seq<(string, string)>)
      returns (r: Result<Outcome, TcError>)
      requires terminologyManager.Valid()
      ensures domain == "" ==> r == match Plain(engine, text, src, dest)
        case Ok(p) => Ok(WithoutTerminology(p))
        case Err(e) => Err(e)
      ensures domain != "" ==> r == match FirstMatch(available, domain, dest)
        case None => Err(DomainLanguageNotFound(domain, dest, AvailableForDomain(available, domain)))
        case Some(l) =>
          match Controlled(terminologyManager.terms, terminologyManager.language, engine,
                           Settings(domain, dest, src, ConvertLangCode(src, true),
                                    terminologyManager.GetGoogleLangCode(dest), l), text)
          case Ok(c) => Ok(WithTerminology(c))
          case Err(e) => Err(e)
    {
      if domain != "" {
        var created := TCTranslator.Create(domain, dest, src, terminologyManager, available, engine);
        if created.Err? {
          return Err(created.error);
        }
        var tc := created.value;
        var c := tc.TranslateAsync(text);
        if c.Err? {
          return Err(c.error);
        }
        return Ok(WithTerminology(c.value));
      }
      var srcGoogle := ConvertLangCode(src, true);
      var destGoogle := ConvertLangCode(dest, true);
      var thai := engine(text, srcGoogle, Pivot);
      if thai.Err? {
        return Err(EngineFailed(thai.error));
      }
      var result := engine(thai.value.text, Pivot, destGoogle);
      if result.Err? {
        return Err(EngineFailed(result.error));
      }
      return Ok(WithoutTerminology(PlainResult(result.value.text, src, dest, srcGoogle, destGoogle, text, thai.value.text)));
    }
  }
}
