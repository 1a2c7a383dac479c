/** `nkrane_gt.translator.NkraneTranslator`: one request to Google's web
    translation endpoint between terminology preprocessing and
    postprocessing, and a batch mode that isolates failures.

    The response is a JSON value that the translator reads with Python's
    truthiness, `len`, indexing and iteration; `Json` keeps exactly the
    distinctions those operations make. */
module Nkrane {
  import opened Wrappers
  import opened OrderedDict
  import opened PyText

  // -----------------------------------------------------------------------
  // The response

  /** A decoded JSON value; a float is kept only as zero or non-zero, the
      one thing the parser asks of it.  The entries of an object have
      distinct keys, as `json.loads` produces them (a repeated key keeps only
      its last value); `Len` and iteration count entries on that basis. */
  datatype Json =
    | JNull
    | JBool(b: bool)
    | JInt(i: int)
    | JFloat(nonZero: bool)
    | JStr(s: string)
    | JList(items: seq<Json>)
    | JObject(entries: seq<(string, Json)>)

  /** The Python type name of a decoded value. */
  function TypeName(j: Json): string {
    match j
    case JNull => "NoneType"
    case JBool(_) => "bool"
    case JInt(_) => "int"
    case JFloat(_) => "float"
    case JStr(_) => "str"
    case JList(_) => "list"
    case JObject(_) => "dict"
  }

  /** `bool(j)`. */
  predicate Truthy(j: Json) {
    match j
    case JNull => false
    case JBool(b) => b
    case JInt(i) => i != 0
    case JFloat(nz) => nz
    case JStr(s) => s != ""
    case JList(xs) => xs != []
    case JObject(es) => es != []
  }

  /** `len(j)`; `None` where Python raises `TypeError`. */
  function Len(j: Json): (r: Option<nat>)
    ensures r.Some? ==> (Truthy(j) <==> r.value > 0)
  {
    match j
    case JStr(s) => Some(|s|)
    case JList(xs) => Some(|xs|)
    case JObject(es) => Some(|es|)
    case _ => None
  }

  /** What goes wrong while reading a response: one of Python's `TypeError`s,
      or the `KeyError` of `d[0]` on a dictionary. */
  datatype Fault =
    | NoLen(typeName: string)
    | NotIterable(typeName: string)
    | NotStr(index: nat, typeName: string)
    | MissingKey

  /** `str(e)` of the exception a fault raises. */
  function FaultText(f: Fault): string {
    match f
    case NoLen(t) => "object of type '" + t + "' has no len()"
    case NotIterable(t) => "'" + t + "' object is not iterable"
    case NotStr(i, t) => "sequence item " + NatToString(i) + ": expected str instance, " + t + " found"
    case MissingKey => "0"
  }

  /** `j[0]` on a value of positive length. */
  function First(j: Json): (r: Result<Json, Fault>)
    requires Len(j).Some? && Len(j).value > 0
    ensures r.Err? <==> j.JObject?
  {
    match j
    case JStr(s) => Ok(JStr([s[0]]))
    case JList(xs) => Ok(xs[0])
    case JObject(_) => Err(MissingKey)
  }

  /** `for item in j`: the characters of a string, the items of a list, the
      keys of a dictionary; `None` where Python raises `TypeError`. */
  function Iterate(j: Json): (r: Option<seq<Json>>)
    ensures r.Some? <==> Len(j).Some?
    ensures r.Some? ==> |r.value| == Len(j).value
  {
    match j
    case JStr(s) => Some(Chars(s))
    case JList(xs) => Some(xs)
    case JObject(es) => Some(KeysAsJson(es))
    case _ => None
  }

  /** The one-character strings of `s`. */
  function Chars(s: string): (r: seq<Json>)
    ensures |r| == |s|
    ensures forall k :: 0 <= k < |s| ==> r[k] == JStr([s[k]])
  {
    if s == [] then [] else [JStr([s[0]])] + Chars(s[1..])
  }

  /** The keys of a dictionary, as strings. */
  function KeysAsJson(es: seq<(string, Json)>): (r: seq<Json>)
    ensures |r| == |es|
    ensures forall k :: 0 <= k < |es| ==> r[k] == JStr(es[k].0)
  {
    if es == [] then [] else [JStr(es[0].0)] + KeysAsJson(es[1..])
  }

  /** The loop over `data[0]`: the first element of every truthy segment,
      in order. */
  function CollectParts(segments: seq<Json>): Result<seq<Json>, Fault> {
    if segments == [] then Ok([])
    else
      match CollectParts(segments[..|segments| - 1])
      case Err(f) => Err(f)
      case Ok(parts) => Step(parts, segments[|segments| - 1])
  }

  /** One turn of that loop. */
  function Step(parts: seq<Json>, item: Json): Result<seq<Json>, Fault> {
    if !Truthy(item) then Ok(parts)
    else match Len(item)
      case None => Err(NoLen(TypeName(item)))
      case Some(n) =>
        if n > 0 then
          match First(item)
          case Err(f) => Err(f)
          case Ok(x) => Ok(parts + [x])
        else Ok(parts)
  }

  /** `''.join(parts)`: fails at the first part that is not a string. */
  function Join(parts: seq<Json>): Result<string, Fault> {
    if parts == [] then Ok("")
    else
      match Join(parts[..|parts| - 1])
      case Err(f) => Err(f)
      case Ok(s) =>
        var last := parts[|parts| - 1];
        if last.JStr? then Ok(s + last.s) else Err(NotStr(|parts| - 1, TypeName(last)))
  }

  /** The parsing step of `_google_translate_sync`. */
  function Parse(data: Json): Result<string, Fault> {
    if !Truthy(data) then Ok("")
    else match Len(data)
      case None => Err(NoLen(TypeName(data)))
      case Some(n) =>
        if n == 0 then Ok("")
        else match First(data)
          case Err(f) => Err(f)
          case Ok(segments) =>
            match Iterate(segments)
            case None => Err(NotIterable(TypeName(segments)))
            case Some(items) =>
              match CollectParts(items)
              case Err(f) => Err(f)
              case Ok(parts) => Join(parts)
  }

  /** Empty or false-valued data parses as the empty text. */
  lemma ParseEmpty(data: Json)
    requires !Truthy(data)
    ensures Parse(data) == Ok("")
  {
  }

  /** A segment as Google sends it: empty, or a list starting with the
      segment's translated text. */
  predicate WellFormedSegment(j: Json) {
    !Truthy(j) || (j.JList? && j.items != [] && j.items[0].JStr?)
  }

  /** The translated texts of the non-empty segments, concatenated in order. */
  function SegmentsText(segments: seq<Json>): string
    requires forall k :: 0 <= k < |segments| ==> WellFormedSegment(segments[k])
  {
    if segments == [] then ""
    else
      var last := segments[|segments| - 1];
      assert WellFormedSegment(segments[|segments| - 1]);
      SegmentsText(segments[..|segments| - 1]) + (if Truthy(last) then last.items[0].s else "")
  }

  /** The string parts the loop collects from well-formed segments. */
  function TextParts(segments: seq<Json>): (parts: seq<Json>)
    requires forall k :: 0 <= k < |segments| ==> WellFormedSegment(segments[k])
    ensures forall k :: 0 <= k < |parts| ==> parts[k].JStr?
  {
    if segments == [] then []
    else
      var last := segments[|segments| - 1];
      assert WellFormedSegment(segments[|segments| - 1]);
      TextParts(segments[..|segments| - 1]) + (if Truthy(last) then [last.items[0]] else [])
  }

  lemma {:induction false} CollectWellFormed(segments: seq<Json>)
    requires forall k :: 0 <= k < |segments| ==> WellFormedSegment(segments[k])
    ensures CollectParts(segments) == Ok(TextParts(segments))
  {
    if segments != [] {
      var init := segments[..|segments| - 1];
      assert forall k :: 0 <= k < |init| ==> init[k] == segments[k];
      CollectWellFormed(init);
      StepWellFormed(TextParts(init), segments[|segments| - 1]);
    }
  }

  /** One turn on a well-formed segment adds its text, if it has one. */
  lemma StepWellFormed(parts: seq<Json>, item: Json)
    requires WellFormedSegment(item)
    ensures Step(parts, item) == Ok(parts + if Truthy(item) then [item.items[0]] else [])
  {
    if !Truthy(item) {
      assert parts + [] == parts;
    }
  }

  lemma {:induction false} JoinTextParts(segments: seq<Json>)
    requires forall k :: 0 <= k < |segments| ==> WellFormedSegment(segments[k])
    ensures Join(TextParts(segments)) == Ok(SegmentsText(segments))
  {
    if segments != [] {
      var init := segments[..|segments| - 1];
      var last := segments[|segments| - 1];
      assert forall k :: 0 <= k < |init| ==> init[k] == segments[k];
      JoinTextParts(init);
      if Truthy(last) {
        JoinSnoc(TextParts(init), last.items[0]);
      } else {
        assert TextParts(init) + [] == TextParts(init);
        assert SegmentsText(init) + "" == SegmentsText(init);
      }
    }
  }

  lemma JoinSnoc(parts: seq<Json>, x: Json)
    requires x.JStr?
    ensures Join(parts + [x]) == match Join(parts) case Ok(s) => Ok(s + x.s) case Err(f) => Err(f)
  {
    assert (parts + [x])[..|parts|] == parts;
  }

  /** A well-formed response `[[seg, seg, ...], ...]` parses as the
      concatenation of its segments' texts. */
  lemma ParseWellFormed(data: Json)
    requires data.JList? && data.items != [] && data.items[0].JList?
    requires forall k :: 0 <= k < |data.items[0].items| ==> WellFormedSegment(data.items[0].items[k])
    ensures Parse(data) == Ok(SegmentsText(data.items[0].items))
  {
    CollectWellFormed(data.items[0].items);
    JoinTextParts(data.items[0].items);
  }

  /** A failure in the loop is the parse's failure, whatever follows. */
  lemma {:induction false} CollectPartsErrPersists(segments: seq<Json>, i: nat)
    requires i <= |segments| && CollectParts(segments[..i]).Err?
    ensures CollectParts(segments) == CollectParts(segments[..i])
    decreases |segments|
  {
    if i == |segments| {
      assert segments[..i] == segments;
    } else {
      var init := segments[..|segments| - 1];
      assert init[..i] == segments[..i];
      CollectPartsErrPersists(init, i);
    }
  }

  /** The loop of `_google_translate_sync`, then the join. */
  method ParseResponse(data: Json) returns (r: Result<string, Fault>)
    ensures r == Parse(data)
  {
    var translatedParts: seq<Json> := [];
    if Truthy(data) {
      var n := Len(data);
      if n.None? {
        return Err(NoLen(TypeName(data)));
      }
      if n.value > 0 {
        var segments := First(data);
        if segments.Err? {
          return Err(segments.error);
        }
        var items := Iterate(segments.value);
        if items.None? {
          return Err(NotIterable(TypeName(segments.value)));
        }
        var segs := items.value;
        for i := 0 to |segs|
          invariant CollectParts(segs[..i]) == Ok(translatedParts)
        {
          assert segs[..i + 1][..i] == segs[..i];
          var item := segs[i];
          if Truthy(item) {
            var m := Len(item);
            if m.None? {
              CollectPartsErrPersists(segs, i + 1);
              return Err(NoLen(TypeName(item)));
            }
            if m.value > 0 {
              var x := First(item);
              if x.Err? {
                CollectPartsErrPersists(segs, i + 1);
                return Err(x.error);
              }
              translatedParts := translatedParts + [x.value];
            }
          }
        }
        assert segs[..|segs|] == segs;
      }
    }
    return Join(translatedParts);
  }

  // -----------------------------------------------------------------------
  // The request

  /** How the HTTP request ended: a timeout, any other request failure (a
      connection error, an error status, a body that is not JSON), or a
      decoded body. */
  datatype Transport = TimedOut | RequestFailed(detail: string) | Received(data: Json)

  /** The errors `_google_translate_sync` raises. */
  datatype GtError =
    | Timeout
    | ApiError(detail: string)
    | ParseFailed(fault: Fault)
    | KeyNotFound

  /** `str(e)` of each error. */
  function Message(e: GtError): string {
    match e
    case Timeout => "Google Translate request timed out after 30 seconds"
    case ApiError(d) => "Google Translate API error: " + d
    case ParseFailed(f) => "Failed to parse Google Translate response: " + FaultText(f)
    case KeyNotFound => FaultText(MissingKey)
  }

  /** `_google_translate_sync(text)` given how the request ends: a timeout, a
      request failure and a response that cannot be read are three different
      errors; a `KeyError` escapes unwrapped. */
  function GoogleTranslate(transport: Transport): (r: Result<string, GtError>)
    ensures transport.TimedOut? <==> r == Err(Timeout)
    ensures transport.RequestFailed? <==> r.Err? && r.error.ApiError?
    ensures transport.RequestFailed? ==> r == Err(ApiError(transport.detail))
    ensures r.Err? && r.error.ParseFailed? <==>
      transport.Received? && Parse(transport.data).Err? && Parse(transport.data).error != MissingKey
    ensures transport.Received? && Parse(transport.data).Ok? ==> r == Ok(Parse(transport.data).value)
    ensures transport.Received? && Parse(transport.data) == Err(MissingKey) ==> r == Err(KeyNotFound)
    ensures transport.Received? && Parse(transport.data).Err? && Parse(transport.data).error != MissingKey ==>
      r == Err(ParseFailed(Parse(transport.data).error))
  {
    match transport
    case TimedOut => Err(Timeout)
    case RequestFailed(d) => Err(ApiError(d))
    case Received(data) =>
      match Parse(data)
      case Ok(s) => Ok(s)
      case Err(MissingKey) => Err(KeyNotFound)
      case Err(f) => Err(ParseFailed(f))
  }

  /** The three error messages can never be confused, whatever the details. */
  lemma MessagesDistinct(d: string, f: Fault)
    ensures Message(Timeout) != Message(ApiError(d))
    ensures Message(Timeout) != Message(ParseFailed(f))
    ensures Message(ApiError(d)) != Message(ParseFailed(f))
  {
    var timeout := "Google Translate request timed out after 30 seconds";
    var api := "Google Translate API error: ";
    var parse := "Failed to parse Google Translate response: ";
    assert timeout[17] == 'r';
    assert (api + d)[17] == 'A';
    assert api[0] == 'G';
    assert parse[0] == 'F';
    assert timeout[0] == 'G';
    assert Message(ApiError(d)) == api + d;
    assert Message(ParseFailed(f)) == parse + FaultText(f);
  }

  // -----------------------------------------------------------------------
  // The translator

  /** What the terminology manager's `preprocess_text` returns. */
  datatype Preprocessed<V, C> = Preprocessed(text: string, replacements: Dict<string, V>, originalCases: C)

  /** The dictionary `translate` returns, without its elapsed time. */
  datatype NkResult = NkResult(
    text: string, src: string, dest: string, original: string, preprocessed: string,
    googleTranslation: string, replacementsCount: nat, srcGoogle: string, destGoogle: string,
    replacedTerms: seq<string>)

  /** An item of `batch_translate`'s result. */
  datatype BatchItem = Translated(result: NkResult) | Failed(text: string, error: string, original: string)

  class NkraneTranslator<V, C> {
    const targetLang: string
    const srcLang: string
    const useBuiltin: bool
    const srcLangGoogle: string
    const targetLangGoogle: string
    /** The terminology manager's `preprocess_text`; `Err` carries `str(e)`
        of an exception it raises. */
    const preprocess: string -> Result<Preprocessed<V, C>, string>
    /** The terminology manager's `postprocess_text`; `Err` as above. */
    const postprocess: (string, Dict<string, V>, C) -> Result<string, string>
    /** The GET request for source, target and text. */
    const request: (string, string, string) -> Transport

    /** `__init__`; `convert` is the package's `convert_lang_code(_, to_google=True)`. */
    constructor (targetLang: string, srcLang: string, useBuiltin: bool, convert: string -> string,
                 preprocess: string -> Result<Preprocessed<V, C>, string>,
                 postprocess: (string, Dict<string, V>, C) -> Result<string, string>,
                 request: (string, string, string) -> Transport)
      ensures this.targetLang == targetLang && this.srcLang == srcLang && this.useBuiltin == useBuiltin
      ensures srcLangGoogle == convert(srcLang) && targetLangGoogle == convert(targetLang)
      ensures this.preprocess == preprocess && this.postprocess == postprocess && this.request == request
    {
      this.targetLang := targetLang;
      this.srcLang := srcLang;
      this.useBuiltin := useBuiltin;
      srcLangGoogle := convert(srcLang);
      targetLangGoogle := convert(targetLang);
      this.preprocess := preprocess;
      this.postprocess := postprocess;
      this.request := request;
    }

    /** `_google_translate_sync(text)`. */
    method GoogleTranslateSync(text: string) returns (r: Result<string, GtError>)
      ensures r == GoogleTranslate(request(srcLangGoogle, targetLangGoogle, text))
    {
      var response := request(srcLangGoogle, targetLangGoogle, text);
      match response
      case TimedOut =>
        return Err(Timeout);
      case RequestFailed(d) =>
        return Err(ApiError(d));
      case Received(data) =>
        var parsed := ParseResponse(data);
        if parsed.Ok? {
          return Ok(parsed.value);
        } else if parsed.error == MissingKey {
          return Err(KeyNotFound);
        } else {
          return Err(ParseFailed(parsed.error));
        }
    }

    /** `translate(text)`; an error is `str(e)` of the exception re-raised
        from the `try`, whichever of the three steps raised it. */
    function Translation(text: string): Result<NkResult, string> {
      match preprocess(text)
      case Err(m) => Err(m)
      case Ok(pre) =>
        match GoogleTranslate(request(srcLangGoogle, targetLangGoogle, pre.text))
        case Err(e) => Err(Message(e))
        case Ok(translated) =>
          match postprocess(translated, pre.replacements, pre.originalCases)
          case Err(m) => Err(m)
          case Ok(finalText) =>
            Ok(NkResult(finalText, srcLang, targetLang, text, pre.text, translated, |pre.replacements|,
                        srcLangGoogle, targetLangGoogle, Keys(pre.replacements)))
    }

    /** The result of a translation: the first of preprocessing, the request
        and postprocessing to fail gives the error; otherwise the engine's
        answer on the preprocessed text, postprocessed with the same
        replacements, and the count and the list of replaced terms are those
        of the replacements, in their order. */
    lemma TranslationReport(text: string)
      ensures preprocess(text).Err? ==> Translation(text) == Err(preprocess(text).error)
      ensures preprocess(text).Ok? ==>
        var pre := preprocess(text).value;
        var answer := GoogleTranslate(request(srcLangGoogle, targetLangGoogle, pre.text));
        && (answer.Err? ==> Translation(text) == Err(Message(answer.error)))
        && (answer.Ok? ==>
              var post := postprocess(answer.value, pre.replacements, pre.originalCases);
              && (post.Err? ==> Translation(text) == Err(post.error))
              && (post.Ok? ==>
                    && Translation(text).Ok?
                    && var r := Translation(text).value;
                    && r.original == text && r.preprocessed == pre.text && r.googleTranslation == answer.value
                    && r.text == post.value
                    && r.replacementsCount == |pre.replacements|
                    && r.srcGoogle == srcLangGoogle && r.destGoogle == targetLangGoogle
                    && r.replacedTerms == Keys(pre.replacements)
                    && r.src == srcLang && r.dest == targetLang))
    {
    }

    /** `translate(text)`: preprocess, one request, postprocess; an
        exception from any of them is re-raised. */
    method Translate(text: string) returns (r: Result<NkResult, string>)
      ensures r == Translation(text)
    {
      var preprocessed := preprocess(text);
      if preprocessed.Err? {
        return Err(preprocessed.error);
      }
      var pre := preprocessed.value;
      var translatedWithPlaceholders := GoogleTranslateSync(pre.text);
      if translatedWithPlaceholders.Err? {
        return Err(Message(translatedWithPlaceholders.error));
      }
      var finalText := postprocess(translatedWithPlaceholders.value, pre.replacements, pre.originalCases);
      if finalText.Err? {
        return Err(finalText.error);
      }
      return Ok(NkResult(finalText.value, srcLang, targetLang, text, pre.text, translatedWithPlaceholders.value,
                         |pre.replacements|, srcLangGoogle, targetLangGoogle, Keys(pre.replacements)));
    }

    /** What `batch_translate` records for one text. */
    function Outcome(text: string): BatchItem {
      match Translation(text)
      case Ok(r) => Translated(r)
      case Err(m) => Failed("", m, text)
    }

    /** `batch_translate(texts)`: one item per text, in order, a failure
        recorded in place without stopping the batch.  `pauses` lists, in
        order, the positions after which the 0.5 s wait happens: every
        successful text but the last. */
    method BatchTranslate(texts: seq<string>) returns (results: seq<BatchItem>, pauses: seq<nat>)
      ensures |results| == |texts|
      ensures forall i :: 0 <= i < |texts| ==> results[i] == Outcome(texts[i])
      ensures forall i :: 0 <= i < |texts| ==> (i in pauses <==> i < |texts| - 1 && Translation(texts[i]).Ok?)
      ensures forall k :: 0 <= k < |pauses| ==> pauses[k] < |texts| - 1
      ensures forall a, b :: 0 <= a < b < |pauses| ==> pauses[a] < pauses[b]
    {
      results := [];
      pauses := [];
      for i := 0 to |texts|
        invariant |results| == i
        invariant forall j :: 0 <= j < i ==> results[j] == Outcome(texts[j])
        invariant forall j :: 0 <= j < |texts| ==> (j in pauses <==> j < i && j < |texts| - 1 && Translation(texts[j]).Ok?)
        invariant forall k :: 0 <= k < |pauses| ==> pauses[k] < i && pauses[k] < |texts| - 1
        invariant forall a, b :: 0 <= a < b < |pauses| ==> pauses[a] < pauses[b]
      {
        var result := Translate(texts[i]);
        if result.Ok? {
          results := results + [Translated(result.value)];
          if i < |texts| - 1 {
            pauses := pauses + [i];
          }
        } else {
          results := results + [Failed("", result.error, texts[i])];
        }
      }
    }
  }
}
