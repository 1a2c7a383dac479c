/** The terminology manager of `tc_translate`: a glossary of terms for one
    language, loaded from a file named `terminologies_<lang>.csv`, used to
    protect glossary terms from the translation engine.

    Before translation every whole-word, case-insensitive occurrence of a term
    is replaced by the placeholder `<id>`; after translation every placeholder
    is replaced by the term's fixed translation. */
module TerminologyManager {
  import opened Wrappers
  import opened OrderedDict
  import opened PyText
  import opened Sequences
  import opened LanguageCodes

  /** A glossary entry; `term` is the normalised (lower-case, stripped) key. */
  datatype Term = Term(id: int, term: string, translation: string, googleLangCode: string)

  /** One row of the terminology file: its `id`, `term` and `translation`
      columns, already read as an integer and two strings. */
  datatype Row = Row(id: int, term: string, translation: string)

  /** Why preprocessing refused to run. */
  datatype TerminologyError = NoTerminology(language: string)

  // -----------------------------------------------------------------------
  // Loading

  /** `basename.replace('terminologies_', '').replace('.csv', '')`. */
  function LanguageFromFileName(basename: string): string {
    ReplaceAll(ReplaceAll(basename, "terminologies_", ""), ".csv", "")
  }

  /** The file name convention `terminologies_<lang>.csv` gives back `<lang>`
      for any language code without `_` or `.`. */
  lemma FileNameGivesLanguage(lang: string)
    requires '_' !in lang && '.' !in lang
    ensures LanguageFromFileName("terminologies_" + lang + ".csv") == lang
  {
    var prefix := "terminologies_";
    var suffix := ".csv";
    assert prefix[13] == '_';
    assert '_' !in suffix;
    RemoveAffixes(prefix, lang, suffix, '_');
  }

  /** `str(row['term']).lower().strip()`: the key a term is stored under. */
  function NormalizeTerm(s: string): (r: string)
    ensures IsLowerCase(r)
    ensures r == [] || (!IsSpace(r[0]) && !IsSpace(r[|r| - 1]))
  {
    var l := Lower(s);
    var r := Strip(l);
    LowerIsLowerCase(s);
    LowerCaseSlice(l, StripStart(l), StripStart(l) + |r|);
    r
  }

  /** Normalising a normalised term changes nothing. */
  lemma NormalizeTermIdempotent(s: string)
    ensures NormalizeTerm(NormalizeTerm(s)) == NormalizeTerm(s)
  {
    var r := NormalizeTerm(s);
    LowerFixedPoint(r);
    StripStripped(r);
  }

  /** The key and value written for one row. */
  function RowEntry(row: Row, googleLangCode: string): (e: (string, Term))
    ensures e.0 == e.1.term && e.1.id == row.id && e.1.translation == row.translation
  {
    var key := NormalizeTerm(row.term);
    (key, Term(row.id, key, row.translation, googleLangCode))
  }

  /** The assignments `self.terms[term.term] = term`, one per row, in order. */
  function RowEntries(rows: seq<Row>, googleLangCode: string): (es: seq<(string, Term)>)
    ensures |es| == |rows|
    ensures forall i :: 0 <= i < |rows| ==> es[i] == RowEntry(rows[i], googleLangCode)
  {
    if rows == [] then []
    else
      var init := rows[..|rows| - 1];
      assert forall i :: 0 <= i < |init| ==> init[i] == rows[i];
      RowEntries(init, googleLangCode) + [RowEntry(rows[|rows| - 1], googleLangCode)]
  }

  /** Loading one more row is one more assignment. */
  lemma RowEntriesSnoc(rows: seq<Row>, i: nat, g: string)
    requires i < |rows|
    ensures RowEntries(rows[..i + 1], g) == RowEntries(rows[..i], g) + [RowEntry(rows[i], g)]
  {
    assert rows[..i + 1][..i] == rows[..i];
  }

  /** The terms dictionary after loading `rows`. */
  function LoadTerms(rows: seq<Row>, googleLangCode: string): Dict<string, Term> {
    FromPairs(RowEntries(rows, googleLangCode))
  }

  /** Every stored term sits under its own normalised text, carries the
      language's Google code and comes from some row. */
  lemma LoadedTermsWellFormed(rows: seq<Row>, g: string)
    ensures UniqueKeys(LoadTerms(rows, g))
    ensures forall e :: e in LoadTerms(rows, g) ==>
      e.0 == e.1.term && IsLowerCase(e.0) && e.1.googleLangCode == g &&
      exists i :: 0 <= i < |rows| && e.1 == RowEntry(rows[i], g).1
  {
    var es := RowEntries(rows, g);
    forall e | e in LoadTerms(rows, g)
      ensures e.0 == e.1.term && IsLowerCase(e.0) && e.1.googleLangCode == g
      ensures exists i :: 0 <= i < |rows| && e.1 == RowEntry(rows[i], g).1
    {
      assert e in es;
      var i :| 0 <= i < |es| && es[i] == e;
      assert e.1 == RowEntry(rows[i], g).1;
    }
  }

  /** A key is stored exactly when some row normalises to it. */
  lemma LoadedKeys(rows: seq<Row>, g: string, k: string)
    ensures k in Keys(LoadTerms(rows, g)) <==>
      exists i :: 0 <= i < |rows| && NormalizeTerm(rows[i].term) == k
  {
    var es := RowEntries(rows, g);
    KeysFromPairs(es, k);
    if exists i :: 0 <= i < |rows| && NormalizeTerm(rows[i].term) == k {
      var i :| 0 <= i < |rows| && NormalizeTerm(rows[i].term) == k;
      assert es[i].0 == k;
    }
  }

  /** Of several rows that normalise to the same key, the last one wins. */
  lemma LaterRowOverwrites(rows: seq<Row>, g: string, j: nat)
    requires j < |rows|
    requires forall i :: j < i < |rows| ==> NormalizeTerm(rows[i].term) != NormalizeTerm(rows[j].term)
    ensures Get(LoadTerms(rows, g), NormalizeTerm(rows[j].term)) == Some(RowEntry(rows[j], g).1)
  {
    var es := RowEntries(rows, g);
    GetFromPairsAt(es, j, es[j].0, es[j].1);
  }

  // -----------------------------------------------------------------------
  // Sorting: `sorted(terms.values(), key=lambda x: len(x.term), reverse=True)`

  /** Longest term first. */
  ghost predicate LongestFirst(ts: seq<Term>) {
    forall i, j :: 0 <= i < j < |ts| ==> |ts[i].term| >= |ts[j].term|
  }

  /** The terms of `ts` whose text has length `n`, in their order in `ts`. */
  function OfLength(ts: seq<Term>, n: nat): (r: seq<Term>)
    ensures forall t :: t in r ==> t in ts && |t.term| == n
  {
    if ts == [] then []
    else (if |ts[0].term| == n then [ts[0]] else []) + OfLength(ts[1..], n)
  }

  lemma {:induction false} OfLengthAppend(a: seq<Term>, b: seq<Term>, n: nat)
    ensures OfLength(a + b, n) == OfLength(a, n) + OfLength(b, n)
  {
    if a != [] {
      assert (a + b)[1..] == a[1..] + b;
      OfLengthAppend(a[1..], b, n);
      AppendAssoc(if |a[0].term| == n then [a[0]] else [], OfLength(a[1..], n), OfLength(b, n));
    } else {
      assert a + b == b;
    }
  }

  lemma OfLengthSingle(t: Term, n: nat)
    ensures OfLength([t], n) == if |t.term| == n then [t] else []
  {
    assert [t][1..] == [];
  }

  lemma {:induction false} OfLengthNone(ts: seq<Term>, n: nat)
    requires forall i :: 0 <= i < |ts| ==> |ts[i].term| != n
    ensures OfLength(ts, n) == []
  {
    if ts != [] {
      OfLengthNone(ts[1..], n);
    }
  }

  /** Places `t` after every term at least as long as it. */
  function InsertByLength(ts: seq<Term>, t: Term): (r: seq<Term>)
    ensures multiset(r) == multiset(ts) + multiset{t}
    ensures forall u :: u in r ==> u in ts || u == t
  {
    if ts == [] then [t]
    else if |ts[0].term| >= |t.term| then
      assert ts == [ts[0]] + ts[1..];
      [ts[0]] + InsertByLength(ts[1..], t)
    else
      [t] + ts
  }

  /** Inserting into a longest-first sequence keeps it longest first. */
  lemma {:induction false} InsertByLengthSorted(ts: seq<Term>, t: Term)
    requires LongestFirst(ts)
    ensures LongestFirst(InsertByLength(ts, t))
  {
    if ts != [] && |ts[0].term| >= |t.term| {
      var rest := InsertByLength(ts[1..], t);
      InsertByLengthSorted(ts[1..], t);
      var r := [ts[0]] + rest;
      forall j | 0 < j < |r| ensures |ts[0].term| >= |r[j].term| {
        assert r[j] in rest;
        if r[j] != t {
          var k := PositionOf(ts[1..], r[j]);
          assert ts[k + 1] == r[j];
        }
      }
      assert forall i, j :: 0 < i < j < |r| ==> r[i] == rest[i - 1] && r[j] == rest[j - 1];
    }
  }

  /** Inserting keeps the order among terms of each length, with `t` last
      among those of its own length. */
  lemma {:induction false} InsertByLengthStable(ts: seq<Term>, t: Term, n: nat)
    requires LongestFirst(ts)
    ensures OfLength(InsertByLength(ts, t), n) == OfLength(ts, n) + (if |t.term| == n then [t] else [])
  {
    if ts == [] {
      assert OfLength([t], n) == (if |t.term| == n then [t] else []) + OfLength([t][1..], n);
    } else if |ts[0].term| >= |t.term| {
      var head := if |ts[0].term| == n then [ts[0]] else [];
      var rest := InsertByLength(ts[1..], t);
      LongestFirstTail(ts);
      InsertByLengthStable(ts[1..], t, n);
      var tail := if |t.term| == n then [t] else [];
      var r := [ts[0]] + rest;
      assert InsertByLength(ts, t) == r;
      assert r[1..] == rest;
      assert OfLength(r, n) == head + (OfLength(ts[1..], n) + tail);
      assert OfLength(ts, n) == head + OfLength(ts[1..], n);
      AppendAssoc(head, OfLength(ts[1..], n), tail);
    } else {
      InsertBeforeAll(ts, t, n);
    }
  }

  /** A term longer than every term of `ts` goes first. */
  lemma InsertBeforeAll(ts: seq<Term>, t: Term, n: nat)
    requires LongestFirst(ts) && ts != [] && |ts[0].term| < |t.term|
    ensures OfLength([t] + ts, n) == OfLength(ts, n) + (if |t.term| == n then [t] else [])
  {
    assert ([t] + ts)[1..] == ts;
    if |t.term| == n {
      OfLengthNone(ts, n);
      assert OfLength([t] + ts, n) == [t] + OfLength(ts, n);
    }
  }

  lemma LongestFirstTail(ts: seq<Term>)
    requires ts != [] && LongestFirst(ts)
    ensures LongestFirst(ts[1..])
  {
    forall i, j | 0 <= i < j < |ts| - 1 ensures |ts[1..][i].term| >= |ts[1..][j].term| {
      assert ts[1..][i] == ts[i + 1] && ts[1..][j] == ts[j + 1];
    }
  }

  /** Python's stable sort by decreasing term length. */
  function SortByLengthDesc(ts: seq<Term>): seq<Term> {
    if ts == [] then []
    else InsertByLength(SortByLengthDesc(ts[..|ts| - 1]), ts[|ts| - 1])
  }

  /** The sort is a permutation, longest first. */
  lemma {:induction false} SortByLengthDescSorted(ts: seq<Term>)
    ensures multiset(SortByLengthDesc(ts)) == multiset(ts)
    ensures LongestFirst(SortByLengthDesc(ts))
  {
    if ts != [] {
      var init := ts[..|ts| - 1];
      assert ts == init + [ts[|ts| - 1]];
      SortByLengthDescSorted(init);
      InsertByLengthSorted(SortByLengthDesc(init), ts[|ts| - 1]);
    }
  }

  /** Terms of equal length keep their dictionary order. */
  lemma {:induction false} SortByLengthDescStable(ts: seq<Term>, n: nat)
    ensures OfLength(SortByLengthDesc(ts), n) == OfLength(ts, n)
  {
    if ts != [] {
      var init := ts[..|ts| - 1];
      var t := ts[|ts| - 1];
      var tail := if |t.term| == n then [t] else [];
      assert ts == init + [t];
      OfLengthAppend(init, [t], n);
      OfLengthSingle(t, n);
      var sortedInit := SortByLengthDesc(init);
      assert SortByLengthDesc(ts) == InsertByLength(sortedInit, t);
      SortByLengthDescSorted(init);
      SortByLengthDescStable(init, n);
      InsertByLengthStable(sortedInit, t, n);
      assert OfLength(SortByLengthDesc(ts), n) == OfLength(init, n) + tail;
    }
  }

  // -----------------------------------------------------------------------
  // Preprocessing and postprocessing

  /** `f"<{term_obj.id}>"`. */
  function Placeholder(id: int): (r: string)
    ensures |r| >= 3 && r[0] == '<' && r[|r| - 1] == '>'
  {
    "<" + IntToString(id) + ">"
  }

  /** Distinct ids give distinct placeholders. */
  lemma PlaceholderInjective(a: int, b: int)
    requires Placeholder(a) == Placeholder(b)
    ensures a == b
  {
    var pa := Placeholder(a);
    assert pa[1..|pa| - 1] == IntToString(a);
    assert Placeholder(b)[1..|pa| - 1] == IntToString(b);
    IntToStringInjective(a, b);
  }

  /** The loop of `preprocess_text` over `ts`, in order: each term's matches
      become its placeholder, and the placeholder is recorded (once, at its
      first match) when the term matched at least once. */
  function PreprocessFold(ts: seq<Term>, text: string): (string, Dict<string, Term>) {
    if ts == [] then (text, [])
    else
      var prev := PreprocessFold(ts[..|ts| - 1], text);
      var t := ts[|ts| - 1];
      var placeholder := Placeholder(t.id);
      var (next, count) := WordSub(prev.0, t.term, placeholder);
      (next, if count > 0 then Put(prev.1, placeholder, t) else prev.1)
  }

  /** One more term of the loop. */
  lemma PreprocessFoldSnoc(ts: seq<Term>, i: nat, text: string)
    requires i < |ts|
    ensures var prev := PreprocessFold(ts[..i], text);
      var placeholder := Placeholder(ts[i].id);
      var (next, count) := WordSub(prev.0, ts[i].term, placeholder);
      PreprocessFold(ts[..i + 1], text) == (next, if count > 0 then Put(prev.1, placeholder, ts[i]) else prev.1)
  {
    assert ts[..i + 1][..i] == ts[..i];
  }

  /** The replacements form a dictionary from each recorded term's
      placeholder to that term. */
  lemma {:induction false} ReplacementsWellFormed(ts: seq<Term>, text: string)
    ensures UniqueKeys(PreprocessFold(ts, text).1)
    ensures forall e :: e in PreprocessFold(ts, text).1 ==> e.1 in ts && e.0 == Placeholder(e.1.id)
  {
    if ts != [] {
      var init := ts[..|ts| - 1];
      ReplacementsWellFormed(init, text);
      assert forall u :: u in init ==> u in ts;
    }
  }

  /** What `preprocess_text` returns for a non-empty dictionary. */
  function Preprocess(terms: Dict<string, Term>, text: string): (string, Dict<string, Term>) {
    PreprocessFold(SortByLengthDesc(Values(terms)), text)
  }

  /** The loop of `postprocess_text`: every placeholder, in the dictionary's
      order, replaced by its term's translation. */
  function PostprocessFold(replacements: Dict<string, Term>, text: string): string {
    if replacements == [] then text
    else
      var (placeholder, t) := replacements[|replacements| - 1];
      ReplaceAll(PostprocessFold(replacements[..|replacements| - 1], text), placeholder, t.translation)
  }

  /** Text in which no term matches comes back unchanged, with no
      replacements. */
  lemma {:induction false} PreprocessNoMatch(ts: seq<Term>, text: string)
    requires forall t :: t in ts ==> !HasMatch(text, t.term)
    ensures PreprocessFold(ts, text) == (text, [])
  {
    if ts != [] {
      var init := ts[..|ts| - 1];
      assert forall u :: u in init ==> u in ts;
      PreprocessNoMatch(init, text);
    }
  }

  lemma PrefixOfInit(ts: seq<Term>, i: nat)
    requires i < |ts| - 1
    ensures ts[..|ts| - 1][i] == ts[i] && ts[..|ts| - 1][..i] == ts[..i]
  {
  }

  /** The `i`-th term has placeholder `k` and matched the text as it stood
      at its turn. */
  ghost predicate MatchedAtTurn(ts: seq<Term>, text: string, i: nat, k: string)
    requires i < |ts|
  {
    Placeholder(ts[i].id) == k && HasMatch(PreprocessFold(ts[..i], text).0, ts[i].term)
  }

  /** A placeholder is recorded exactly when some term with that placeholder
      matched the text as it stood at that term's turn. */
  lemma ReplacementsRecordMatches(ts: seq<Term>, text: string, k: string)
    ensures k in Keys(PreprocessFold(ts, text).1) <==>
      exists i :: 0 <= i < |ts| && MatchedAtTurn(ts, text, i, k)
  {
    if k in Keys(PreprocessFold(ts, text).1) {
      var i := RecordedAtTurn(ts, text, k);
    }
    if exists i :: 0 <= i < |ts| && MatchedAtTurn(ts, text, i, k) {
      var i :| 0 <= i < |ts| && MatchedAtTurn(ts, text, i, k);
      TurnIsRecorded(ts, text, k, i);
    }
  }

  /** A recorded placeholder was recorded at some term's turn. */
  lemma {:induction false} RecordedAtTurn(ts: seq<Term>, text: string, k: string) returns (i: nat)
    requires k in Keys(PreprocessFold(ts, text).1)
    ensures i < |ts| && MatchedAtTurn(ts, text, i, k)
  {
    if ts == [] {
      assert false;
    } else {
      var init := ts[..|ts| - 1];
      RecordStep(ts, text, k);
      if k in Keys(PreprocessFold(init, text).1) {
        i := RecordedAtTurn(init, text, k);
        TurnOfInit(ts, init, text, i, k);
      } else {
        i := |ts| - 1;
      }
    }
  }

  /** A term that matched at its turn has its placeholder recorded. */
  lemma {:induction false} TurnIsRecorded(ts: seq<Term>, text: string, k: string, i: nat)
    requires i < |ts| && MatchedAtTurn(ts, text, i, k)
    ensures k in Keys(PreprocessFold(ts, text).1)
  {
    RecordStep(ts, text, k);
    if i < |ts| - 1 {
      var init := ts[..|ts| - 1];
      TurnOfInit(ts, init, text, i, k);
      TurnIsRecorded(init, text, k, i);
    }
  }

  /** The last term adds its placeholder exactly when it matches. */
  lemma RecordStep(ts: seq<Term>, text: string, k: string)
    requires ts != []
    ensures k in Keys(PreprocessFold(ts, text).1) <==>
      k in Keys(PreprocessFold(ts[..|ts| - 1], text).1) || MatchedAtTurn(ts, text, |ts| - 1, k)
  {
    var init := ts[..|ts| - 1];
    var t := ts[|ts| - 1];
    var before := PreprocessFold(init, text);
    var ph := Placeholder(t.id);
    var (next, count) := WordSub(before.0, t.term, ph);
    assert PreprocessFold(ts, text).1 == if count > 0 then Put(before.1, ph, t) else before.1;
  }

  /** A turn before the last is the same turn of the prefix. */
  lemma TurnOfInit(ts: seq<Term>, init: seq<Term>, text: string, i: nat, k: string)
    requires ts != [] && init == ts[..|ts| - 1] && i < |init|
    ensures MatchedAtTurn(ts, text, i, k) <==> MatchedAtTurn(init, text, i, k)
  {
    PrefixOfInit(ts, i);
  }

  /** With no placeholder occurring in the text, postprocessing changes
      nothing. */
  lemma {:induction false} PostprocessNoPlaceholder(replacements: Dict<string, Term>, text: string)
    requires forall e :: e in replacements ==> |e.0| > 0 && !Occurs(text, e.0)
    ensures PostprocessFold(replacements, text) == text
  {
    if replacements != [] {
      var init := replacements[..|replacements| - 1];
      var (placeholder, t) := replacements[|replacements| - 1];
      assert forall e :: e in init ==> e in replacements;
      PostprocessNoPlaceholder(init, text);
      ReplaceAllAbsent(text, placeholder, t.translation);
    }
  }

  /** For a single term, and text without `<`, postprocessing the
      preprocessed text is whole-word replacement of the term by its
      translation. */
  lemma SingleTermRoundTrip(t: Term, text: string)
    requires '<' !in text
    ensures var (s, reps) := PreprocessFold([t], text);
            PostprocessFold(reps, s) == WordSub(text, t.term, t.translation).0
  {
    var ph := Placeholder(t.id);
    assert [t][..0] == [];
    var (s, n) := WordSub(text, t.term, ph);
    WordSubThenReplace(text, t.term, ph, t.translation, 0);
    if n > 0 {
      assert Put([], ph, t) == [(ph, t)];
      assert [(ph, t)][..0] == [];
    }
  }

  /** A term whose translation is its own text leaves lower-case text
      without `<` unchanged through both steps. */
  lemma IdentityTranslationRoundTrip(t: Term, text: string)
    requires '<' !in text && IsLowerCase(text) && IsLowerCase(t.term)
    requires t.translation == t.term
    ensures var (s, reps) := PreprocessFold([t], text);
            PostprocessFold(reps, s) == text
  {
    SingleTermRoundTrip(t, text);
    WordSubSelfOnLower(text, t.term, 0);
    assert text[0..] == text;
  }

  /** A term that begins with a letter never matches inside a placeholder,
      which holds only `<`, `>`, digits and a minus sign. */
  lemma PlaceholderHasNoTerm(id: int, w: string)
    requires w != [] && ('a' <= w[0] <= 'z' || 'A' <= w[0] <= 'Z')
    ensures !HasMatch(Placeholder(id), w)
  {
    var ph := Placeholder(id);
    assert ph == "<" + IntToString(id) + ">";
    forall j | 0 <= j < |ph| ensures !SameIgnoringCase(ph[j], w[0]) {
      if 0 < j < |ph| - 1 {
        assert ph[j] == IntToString(id)[j - 1];
      }
    }
  }

  /** A text that starts and ends with word characters is one whole-word
      match of itself. */
  lemma WholeTextMatch(s: string, ph: string)
    requires s != [] && IsWordChar(s[0]) && IsWordChar(s[|s| - 1])
    ensures WordSub(s, s, ph) == (ph, 1)
  {
    assert MatchesAt(s, s, 0);
    assert !MatchesAt(s, s, |s|);
    assert WordSubFrom(s, s, ph, |s|) == ("", 0);
    assert WordSubFrom(s, s, ph, 0) == (ph + "", 1);
    assert ph + "" == ph;
  }

  /** Why the terms are sorted longest first: with "bank" loaded before
      "north bank", the compound is still replaced as a whole, one placeholder
      is recorded, and the shorter term finds nothing left to split. */
  lemma LongestFirstKeepsCompound(terms: Dict<string, Term>, short: Term, long: Term)
    requires Values(terms) == [short, long]
    requires |short.term| < |long.term|
    requires IsWordChar(long.term[0]) && IsWordChar(long.term[|long.term| - 1])
    requires short.term != [] && ('a' <= short.term[0] <= 'z' || 'A' <= short.term[0] <= 'Z')
    ensures Preprocess(terms, long.term) == (Placeholder(long.id), [(Placeholder(long.id), long)])
  {
    var ph := Placeholder(long.id);
    assert [short, long][..1] == [short];
    assert SortByLengthDesc([short]) == [short];
    assert SortByLengthDesc([short, long]) == [long, short];
    WholeTextMatch(long.term, ph);
    assert [long][..0] == [];
    assert Put([], ph, long) == [(ph, long)];
    assert PreprocessFold([long], long.term) == (ph, [(ph, long)]);
    PlaceholderHasNoTerm(long.id, short.term);
    assert [long, short][..1] == [long];
  }

  /** The glossary of the example: "bank" first, then "north bank". */
  lemma NorthBankStaysWhole(terms: Dict<string, Term>, bank: Term, northBank: Term)
    requires Values(terms) == [bank, northBank]
    requires bank.term == "bank" && northBank.term == "north bank"
    ensures Preprocess(terms, "north bank") == (Placeholder(northBank.id), [(Placeholder(northBank.id), northBank)])
  {
    LongestFirstKeepsCompound(terms, bank, northBank);
  }

  // -----------------------------------------------------------------------
  // The manager

  class TerminologyManager {
    /** The language code taken from the file name. */
    const language: string
    /** `convert_lang_code(language, to_google=True)`. */
    const googleLangCode: string
    /** Normalised term text to term, in first-load order. */
    const terms: Dict<string, Term>

    /** The manager as `__init__` leaves it. */
    ghost predicate Valid()
      reads this
    {
      googleLangCode == ConvertLangCode(language, true) && UniqueKeys(terms)
    }

    /** `__init__` with the terminology file found: its name and its rows. */
    constructor (basename: string, rows: seq<Row>)
      ensures Valid()
      ensures language == LanguageFromFileName(basename)
      ensures googleLangCode == ConvertLangCode(language, true)
      ensures terms == LoadTerms(rows, googleLangCode)
    {
      var lang := LanguageFromFileName(basename);
      var g := ConvertLangCode(lang, true);
      var loaded: Dict<string, Term> := [];
      for i := 0 to |rows|
        invariant loaded == FromPairs(RowEntries(rows[..i], g))
      {
        var (key, term) := RowEntry(rows[i], g);
        RowEntriesSnoc(rows, i, g);
        FromPairsSnoc(RowEntries(rows[..i], g), key, term);
        loaded := Put(loaded, key, term);
      }
      assert rows[..|rows|] == rows;
      language := lang;
      googleLangCode := g;
      terms := loaded;
    }

    /** `get_google_lang_code(language)`, with `""` standing for no argument:
        always the Google form of the requested language, defaulting to the
        manager's own. */
    function GetGoogleLangCode(lang: string): (r: string)
      reads this
      requires Valid()
      ensures r == ConvertLangCode(if lang == "" then language else lang, true)
    {
      if lang != "" && lang != language then ConvertLangCode(lang, true) else googleLangCode
    }

    /** `preprocess_text(text)`. */
    method PreprocessText(text: string) returns (r: Result<(string, Dict<string, Term>), TerminologyError>)
      ensures terms == [] ==> r == Err(NoTerminology(language))
      ensures terms != [] ==> r == Ok(Preprocess(terms, text))
    {
      if terms == [] {
        return Err(NoTerminology(language));
      }
      var sorted := SortByLengthDesc(Values(terms));
      var preprocessed := text;
      var replacements: Dict<string, Term> := [];
      for i := 0 to |sorted|
        invariant (preprocessed, replacements) == PreprocessFold(sorted[..i], text)
      {
        var t := sorted[i];
        var placeholder := Placeholder(t.id);
        PreprocessFoldSnoc(sorted, i, text);
        var (next, count) := WordSub(preprocessed, t.term, placeholder);
        if count > 0 {
          replacements := Put(replacements, placeholder, t);
        }
        preprocessed := next;
      }
      assert sorted[..|sorted|] == sorted;
      return Ok((preprocessed, replacements));
    }

    /** `postprocess_text(text, replacements)`. */
    method PostprocessText(text: string, replacements: Dict<string, Term>) returns (r: string)
      ensures r == PostprocessFold(replacements, text)
    {
      r := text;
      for i := 0 to |replacements|
        invariant r == PostprocessFold(replacements[..i], text)
      {
        var (placeholder, t) := replacements[i];
        r := ReplaceAll(r, placeholder, t.translation);
        assert replacements[..i + 1][..i] == replacements[..i];
      }
      assert replacements[..|replacements|] == replacements;
    }
  }
}
