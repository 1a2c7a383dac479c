/** The Python string operations the translators rely on, on the ASCII range.

    - `Lower` is `str.lower`, `Strip` is `str.strip`;
    - `WordSub` is `re.subn(r'\b' + re.escape(w) + r'\b', ph, s, flags=re.IGNORECASE)`:
      whole-word, case-insensitive replacement of the literal `w`;
    - `ReplaceAll` is `s.replace(old, new)`;
    - `IntToString` is `str(i)` / `f"{i}"` for an integer. */
module PyText {
  import opened Sequences

  /** `c.lower()` on the ASCII range. */
  function LowerChar(c: char): char {
    if 'A' <= c <= 'Z' then (c as int - 'A' as int + 'a' as int) as char else c
  }

  /** `s.lower()`: every character lower-cased, nothing else changed. */
  function Lower(s: string): (r: string)
    ensures |r| == |s|
    ensures forall i :: 0 <= i < |s| ==> r[i] == LowerChar(s[i])
  {
    if s == [] then [] else [LowerChar(s[0])] + Lower(s[1..])
  }

  /** Lower-casing twice is lower-casing once. */
  lemma LowerIdempotent(s: string)
    ensures Lower(Lower(s)) == Lower(s)
  {
  }

  /** `c.isspace()` for the characters below U+0100. */
  predicate IsSpace(c: char) {
    c as int in {9, 10, 11, 12, 13, 28, 29, 30, 31, 32, 0x85, 0xA0}
  }

  /** The first position at or after `i` that does not hold white space. */
  function SkipSpace(s: string, i: nat): (j: nat)
    requires i <= |s|
    ensures i <= j <= |s|
    ensures j == |s| || !IsSpace(s[j])
    ensures forall k :: i <= k < j ==> IsSpace(s[k])
    decreases |s| - i
  {
    if i < |s| && IsSpace(s[i]) then SkipSpace(s, i + 1) else i
  }

  /** The end of `s[lo..j]` once its trailing white space is dropped. */
  function SkipSpaceBack(s: string, lo: nat, j: nat): (k: nat)
    requires lo <= j <= |s|
    ensures lo <= k <= j
    ensures k == lo || !IsSpace(s[k - 1])
    ensures forall m :: k <= m < j ==> IsSpace(s[m])
    decreases j
  {
    if j > lo && IsSpace(s[j - 1]) then SkipSpaceBack(s, lo, j - 1) else j
  }

  /** Where `s.strip()` starts in `s`. */
  function StripStart(s: string): nat {
    SkipSpace(s, 0)
  }

  /** `s.strip()`: a contiguous slice of `s` that neither starts nor ends with
      white space, with only white space cut away on either side. */
  function Strip(s: string): (r: string)
    ensures StripStart(s) + |r| <= |s| && r == s[StripStart(s)..StripStart(s) + |r|]
    ensures forall k :: 0 <= k < StripStart(s) ==> IsSpace(s[k])
    ensures forall k :: StripStart(s) + |r| <= k < |s| ==> IsSpace(s[k])
    ensures r == [] || (!IsSpace(r[0]) && !IsSpace(r[|r| - 1]))
  {
    var i := SkipSpace(s, 0);
    s[i..SkipSpaceBack(s, i, |s|)]
  }

  /** Text that neither starts nor ends with white space is already stripped. */
  lemma StripStripped(s: string)
    requires s == [] || (!IsSpace(s[0]) && !IsSpace(s[|s| - 1]))
    ensures Strip(s) == s
  {
    assert s[0..|s|] == s;
  }

  // ---------------------------------------------------------------------
  // Regular-expression word boundaries

  /** `\w` on the ASCII range: letters, digits and the underscore. */
  predicate IsWordChar(c: char) {
    'a' <= c <= 'z' || 'A' <= c <= 'Z' || '0' <= c <= '9' || c == '_'
  }

  /** Position `i` holds a word character (positions outside `s` do not). */
  predicate WordAt(s: string, i: int) {
    0 <= i < |s| && IsWordChar(s[i])
  }

  /** `\b` holds at position `i`: exactly one of its two sides is a word character. */
  predicate BoundaryAt(s: string, i: int) {
    WordAt(s, i - 1) != WordAt(s, i)
  }

  /** Two characters that `re.IGNORECASE` treats as equal. */
  predicate SameIgnoringCase(a: char, b: char) {
    LowerChar(a) == LowerChar(b)
  }

  /** The pattern `\b` + `re.escape(w)` + `\b` matches `s` at position `i`. */
  predicate MatchesAt(s: string, w: string, i: int) {
    && 0 <= i && i + |w| <= |s|
    && BoundaryAt(s, i) && BoundaryAt(s, i + |w|)
    && forall k :: 0 <= k < |w| ==> SameIgnoringCase(s[i + k], w[k])
  }

  /** Some match of the pattern starts at or after position `i`. */
  predicate HasMatchFrom(s: string, w: string, i: int) {
    exists j :: i <= j <= |s| && MatchesAt(s, w, j)
  }

  predicate HasMatch(s: string, w: string) {
    HasMatchFrom(s, w, 0)
  }

  /** `re.subn` scanning `s` from position `i`: the leftmost match is replaced
      by `ph` and the scan resumes after it; an empty match (only possible for
      an empty `w`) is replaced and the scan then steps over one character.
      Returns the new text of `s[i..]` and the number of replacements. */
  function WordSubFrom(s: string, w: string, ph: string, i: nat): (r: (string, nat))
    requires i <= |s|
    decreases |s| - i
  {
    if MatchesAt(s, w, i) then
      if |w| > 0 then
        var rest := WordSubFrom(s, w, ph, i + |w|);
        (ph + rest.0, rest.1 + 1)
      else if i < |s| then
        var rest := WordSubFrom(s, w, ph, i + 1);
        (ph + [s[i]] + rest.0, rest.1 + 1)
      else
        (ph, 1)
    else if i < |s| then
      var rest := WordSubFrom(s, w, ph, i + 1);
      ([s[i]] + rest.0, rest.1)
    else
      ("", 0)
  }

  /** `re.subn(r'\b' + re.escape(w) + r'\b', ph, s, flags=re.IGNORECASE)`. */
  function WordSub(s: string, w: string, ph: string): (r: (string, nat))
    ensures r.1 == 0 <==> !HasMatch(s, w)
    ensures r.1 == 0 ==> r.0 == s
  {
    WordSubFromCount(s, w, ph, 0);
    WordSubFrom(s, w, ph, 0)
  }

  /** The scan from `i` replaces nothing exactly when no match starts at or
      after `i`, and then it copies `s[i..]` unchanged. */
  lemma {:induction false} WordSubFromCount(s: string, w: string, ph: string, i: nat)
    requires i <= |s|
    ensures var r := WordSubFrom(s, w, ph, i);
      && (r.1 == 0 <==> !HasMatchFrom(s, w, i))
      && (r.1 == 0 ==> r.0 == s[i..])
    decreases |s| - i
  {
    if MatchesAt(s, w, i) {
      assert HasMatchFrom(s, w, i);
    } else if i < |s| {
      WordSubFromCount(s, w, ph, i + 1);
      if HasMatchFrom(s, w, i) {
        var j :| i <= j <= |s| && MatchesAt(s, w, j);
        assert i + 1 <= j <= |s| && MatchesAt(s, w, j);
      }
      if HasMatchFrom(s, w, i + 1) {
        var j :| i + 1 <= j <= |s| && MatchesAt(s, w, j);
        assert i <= j <= |s| && MatchesAt(s, w, j);
      }
      assert s[i..] == [s[i]] + s[i + 1..];
    } else {
      assert !HasMatchFrom(s, w, i) by {
        forall j | i <= j <= |s| ensures !MatchesAt(s, w, j) {
          assert j == i;
        }
      }
    }
  }

  /** Each of the `n` replacements swaps `|w|` characters for `|ph|`. */
  lemma {:induction false} WordSubFromLength(s: string, w: string, ph: string, i: nat)
    requires i <= |s| && |w| > 0
    ensures var r := WordSubFrom(s, w, ph, i); |r.0| == |s| - i + r.1 * (|ph| - |w|)
    decreases |s| - i
  {
    if MatchesAt(s, w, i) {
      var rest := WordSubFrom(s, w, ph, i + |w|);
      WordSubFromLength(s, w, ph, i + |w|);
      assert WordSubFrom(s, w, ph, i) == (ph + rest.0, rest.1 + 1);
      OneMoreTimes(rest.1, |ph| - |w|);
    } else if i < |s| {
      var rest := WordSubFrom(s, w, ph, i + 1);
      WordSubFromLength(s, w, ph, i + 1);
      assert WordSubFrom(s, w, ph, i) == ([s[i]] + rest.0, rest.1);
    }
  }

  lemma OneMoreTimes(n: int, d: int)
    ensures (n + 1) * d == n * d + d
  {
  }

  // ---------------------------------------------------------------------
  // str.replace

  /** `p` occurs in `s` at position `i`. */
  predicate OccursAt(s: string, p: string, i: int) {
    0 <= i && i + |p| <= |s| && s[i..i + |p|] == p
  }

  /** `p in s` for strings. */
  predicate Occurs(s: string, p: string) {
    exists i | 0 <= i <= |s| :: OccursAt(s, p, i)
  }

  /** `s.replace("", rep)`: `rep` before every character and at the end. */
  function Interleave(s: string, rep: string): string {
    if s == [] then rep else rep + [s[0]] + Interleave(s[1..], rep)
  }

  /** `s.replace(pat, rep)`: every occurrence of `pat`, found left to right
      without overlap, becomes `rep`. */
  function ReplaceAll(s: string, pat: string, rep: string): string
    decreases |s|
  {
    if |pat| == 0 then Interleave(s, rep)
    else if |s| < |pat| then s
    else if s[..|pat|] == pat then rep + ReplaceAll(s[|pat|..], pat, rep)
    else [s[0]] + ReplaceAll(s[1..], pat, rep)
  }

  /** Text in which `pat` does not occur comes back unchanged. */
  lemma {:induction false} ReplaceAllAbsent(s: string, pat: string, rep: string)
    requires |pat| > 0 && !Occurs(s, pat)
    ensures ReplaceAll(s, pat, rep) == s
    decreases |s|
  {
    if |s| >= |pat| {
      assert !OccursAt(s, pat, 0);
      forall i | OccursAt(s[1..], pat, i) ensures OccursAt(s, pat, i + 1) {
        assert s[i + 1..i + 1 + |pat|] == s[1..][i..i + |pat|];
      }
      ReplaceAllAbsent(s[1..], pat, rep);
    }
  }

  /** A replacement text that starts with `ph` contributes `rep` first. */
  lemma ReplaceAllLeading(ph: string, x: string, rep: string)
    requires |ph| > 0
    ensures ReplaceAll(ph + x, ph, rep) == rep + ReplaceAll(x, ph, rep)
  {
    assert (ph + x)[..|ph|] == ph;
    assert (ph + x)[|ph|..] == x;
  }

  /** A leading character that cannot start `ph` is copied as it is. */
  lemma ReplaceAllSkip(c: char, x: string, ph: string, rep: string)
    requires |ph| > 0 && c != ph[0]
    ensures ReplaceAll([c] + x, ph, rep) == [c] + ReplaceAll(x, ph, rep)
  {
    assert ([c] + x)[1..] == x;
    if |x| + 1 >= |ph| {
      assert ([c] + x)[..|ph|][0] == c;
    }
  }

  /** A text that lacks a character of `pat` contains no occurrence of it. */
  lemma ReplaceAllMissingChar(s: string, pat: string, rep: string, c: char)
    requires c in pat && c !in s
    ensures ReplaceAll(s, pat, rep) == s
  {
    forall i | 0 <= i <= |s| ensures !OccursAt(s, pat, i) {
      if i + |pat| <= |s| {
      var j :| 0 <= j < |pat| && pat[j] == c;
        assert s[i..i + |pat|][j] == s[i + j] != c;
      }
    }
    ReplaceAllAbsent(s, pat, rep);
  }

  /** A text ending in `pat`, with `pat`'s first character nowhere before it,
      has exactly that one occurrence replaced. */
  lemma {:induction false} ReplaceAllTrailing(x: string, pat: string, rep: string)
    requires |pat| > 0 && pat[0] !in x
    ensures ReplaceAll(x + pat, pat, rep) == x + rep
    decreases |x|
  {
    if x == [] {
      assert x + pat == pat + [];
      ReplaceAllLeading(pat, [], rep);
    } else {
      assert x + pat == [x[0]] + (x[1..] + pat);
      ReplaceAllSkip(x[0], x[1..] + pat, pat, rep);
      ReplaceAllTrailing(x[1..], pat, rep);
      assert x == [x[0]] + x[1..];
      AppendAssoc([x[0]], x[1..], rep);
    }
  }

  /** Removing a prefix `p` and then a suffix `q` from `p + x + q` gives back
      `x`, when some character of `p` occurs neither in `x` nor in `q` and the
      first character of `q` does not occur in `x`. */
  lemma RemoveAffixes(p: string, x: string, q: string, c: char)
    requires |p| > 0 && |q| > 0
    requires c in p && c !in x && c !in q && q[0] !in x
    ensures ReplaceAll(ReplaceAll(p + x + q, p, ""), q, "") == x
  {
    var rest := x + q;
    assert p + x + q == p + rest;
    ReplaceAllLeading(p, rest, "");
    assert "" + ReplaceAll(rest, p, "") == ReplaceAll(rest, p, "");
    assert c !in rest by {
      forall k | 0 <= k < |rest| ensures rest[k] != c {
        if k >= |x| {
          assert rest[k] == q[k - |x|];
        }
      }
    }
    ReplaceAllMissingChar(rest, p, "", c);
    ReplaceAllTrailing(x, q, "");
    assert x + "" == x;
  }

  /** Replacing whole words by a marker `ph` and then the marker by `rep` is
      the same as replacing the words by `rep` directly, provided the marker's
      first character never occurs in the original text. */
  lemma {:induction false} WordSubThenReplace(s: string, w: string, ph: string, rep: string, i: nat)
    requires i <= |s| && |ph| > 0
    requires forall k :: 0 <= k < |s| ==> s[k] != ph[0]
    ensures ReplaceAll(WordSubFrom(s, w, ph, i).0, ph, rep) == WordSubFrom(s, w, rep, i).0
    decreases |s| - i
  {
    if MatchesAt(s, w, i) {
      if |w| > 0 {
        WordSubThenReplace(s, w, ph, rep, i + |w|);
        ReplaceAllLeading(ph, WordSubFrom(s, w, ph, i + |w|).0, rep);
      } else if i < |s| {
        var rest := WordSubFrom(s, w, ph, i + 1).0;
        WordSubThenReplace(s, w, ph, rep, i + 1);
        AppendAssoc(ph, [s[i]], rest);
        ReplaceAllLeading(ph, [s[i]] + rest, rep);
        ReplaceAllSkip(s[i], rest, ph, rep);
        AppendAssoc(rep, [s[i]], WordSubFrom(s, w, rep, i + 1).0);
      } else {
        ReplaceAllLeading(ph, "", rep);
        assert ph + "" == ph;
      }
    } else if i < |s| {
      WordSubThenReplace(s, w, ph, rep, i + 1);
      ReplaceAllSkip(s[i], WordSubFrom(s, w, ph, i + 1).0, ph, rep);
    }
  }

  /** No character of `s` changes under `str.lower`. */
  predicate IsLowerCase(s: string) {
    forall k :: 0 <= k < |s| ==> LowerChar(s[k]) == s[k]
  }

  /** The result of `str.lower` is lower case. */
  lemma LowerIsLowerCase(s: string)
    ensures IsLowerCase(Lower(s))
  {
    LowerIdempotent(s);
    LowerFixedPoint(Lower(s));
  }

  /** A slice of lower-case text is lower case. */
  lemma LowerCaseSlice(s: string, i: nat, j: nat)
    requires IsLowerCase(s) && i <= j <= |s|
    ensures IsLowerCase(s[i..j])
  {
    assert forall k :: 0 <= k < j - i ==> s[i..j][k] == s[i + k];
  }

  /** `s.lower() == s` exactly when `s` is already lower case. */
  lemma LowerFixedPoint(s: string)
    ensures Lower(s) == s <==> IsLowerCase(s)
  {
    if IsLowerCase(s) {
      assert forall k :: 0 <= k < |s| ==> Lower(s)[k] == s[k];
    }
  }

  /** In lower-case text, replacing a lower-case word by itself changes nothing. */
  lemma WordSubSelfOnLower(s: string, w: string, i: nat)
    requires i <= |s| && IsLowerCase(s) && IsLowerCase(w)
    ensures WordSubFrom(s, w, w, i).0 == s[i..]
  {
    forall j | MatchesAt(s, w, j) ensures s[j..j + |w|] == w {
      MatchOnLowerIsExact(s, w, j);
    }
    WordSubSelf(s, w, i);
  }

  /** Every match of `w` in `s` is `w` itself, letter for letter. */
  ghost predicate ExactMatches(s: string, w: string) {
    forall j :: MatchesAt(s, w, j) ==> s[j..j + |w|] == w
  }

  /** Where every match is exact, replacing `w` by itself changes nothing. */
  lemma {:induction false} WordSubSelf(s: string, w: string, i: nat)
    requires i <= |s| && ExactMatches(s, w)
    ensures WordSubFrom(s, w, w, i).0 == s[i..]
    decreases |s| - i
  {
    if MatchesAt(s, w, i) && |w| > 0 {
      WordSubSelf(s, w, i + |w|);
      assert ExactMatches(s, w);
      assert i + |w| <= |s|;
      assert WordSubFrom(s, w, w, i + |w|).0 == s[i + |w|..];
      WordSubSelfMatch(s, w, i);
    } else if i < |s| {
      WordSubSelf(s, w, i + 1);
      WordSubSelfStep(s, w, i);
    } else {
      WordSubSelfEnd(s, w, i);
    }
  }

  /** An exact match is replaced by itself. */
  lemma WordSubSelfMatch(s: string, w: string, i: nat)
    requires ExactMatches(s, w) && i + |w| <= |s| && |w| > 0
    requires WordSubFrom(s, w, w, i + |w|).0 == s[i + |w|..]
    ensures MatchesAt(s, w, i) ==> WordSubFrom(s, w, w, i).0 == s[i..]
  {
    if MatchesAt(s, w, i) {
      assert s[i..i + |w|] == w;
      var rest := WordSubFrom(s, w, w, i + |w|);
      assert WordSubFrom(s, w, w, i).0 == w + rest.0;
      assert s[i..] == s[i..i + |w|] + s[i + |w|..];
    }
  }

  /** At the end of the text there is nothing left to copy. */
  lemma WordSubSelfEnd(s: string, w: string, i: nat)
    requires i == |s|
    ensures WordSubFrom(s, w, w, i).0 == s[i..]
  {
    assert s[i..] == [];
    if MatchesAt(s, w, i) {
      assert w == [];
      assert WordSubFrom(s, w, w, i) == (w, 1);
    } else {
      assert WordSubFrom(s, w, w, i) == ("", 0);
    }
  }

  /** One step of the scan that copies (or, for an empty word, re-inserts
      nothing before) the character at `i`. */
  lemma WordSubSelfStep(s: string, w: string, i: nat)
    requires i < |s| && !(MatchesAt(s, w, i) && |w| > 0)
    requires WordSubFrom(s, w, w, i + 1).0 == s[i + 1..]
    ensures WordSubFrom(s, w, w, i).0 == s[i..]
  {
    assert s[i..] == [s[i]] + s[i + 1..];
    if MatchesAt(s, w, i) {
      assert w + [s[i]] == [s[i]];
    }
  }

  /** On lower-case text a case-insensitive match of a lower-case word is exact. */
  lemma MatchOnLowerIsExact(s: string, w: string, i: nat)
    requires IsLowerCase(s) && IsLowerCase(w) && MatchesAt(s, w, i)
    ensures s[i..i + |w|] == w
  {
    forall k | 0 <= k < |w| ensures s[i + k] == w[k] {
      assert SameIgnoringCase(s[i + k], w[k]);
    }
  }

  // ---------------------------------------------------------------------
  // Decimal formatting of integers

  function DigitChar(d: nat): char
    requires d < 10
  {
    ('0' as int + d) as char
  }

  /** `str(n)` for a natural number: at least one digit, no sign. */
  function NatToString(n: nat): (r: string)
    ensures |r| > 0
    ensures n >= 10 ==> |r| >= 2
    ensures forall k :: 0 <= k < |r| ==> '0' <= r[k] <= '9'
  {
    if n < 10 then [DigitChar(n)] else NatToString(n / 10) + [DigitChar(n % 10)]
  }

  /** `str(i)` for an integer: a minus sign for negative numbers, then the digits. */
  function IntToString(i: int): (r: string)
    ensures |r| > 0
    ensures forall k :: 0 <= k < |r| ==> '0' <= r[k] <= '9' || (k == 0 && r[k] == '-')
  {
    if i < 0 then "-" + NatToString(-i) else NatToString(i)
  }

  /** Different natural numbers print differently. */
  lemma {:induction false} NatToStringInjective(a: nat, b: nat)
    requires NatToString(a) == NatToString(b)
    ensures a == b
  {
    if a >= 10 && b >= 10 {
      var sa, sb := NatToString(a / 10), NatToString(b / 10);
      assert sa + [DigitChar(a % 10)] == sb + [DigitChar(b % 10)];
      assert |sa| == |sb|;
      assert sa == (sa + [DigitChar(a % 10)])[..|sa|];
      assert sb == (sb + [DigitChar(b % 10)])[..|sb|];
      NatToStringInjective(a / 10, b / 10);
      assert DigitChar(a % 10) == (sa + [DigitChar(a % 10)])[|sa|];
    }
  }

  /** Different integers print differently. */
  lemma IntToStringInjective(a: int, b: int)
    requires IntToString(a) == IntToString(b)
    ensures a == b
  {
    assert IntToString(a)[0] == '-' <==> a < 0;
    assert IntToString(b)[0] == '-' <==> b < 0;
    if a < 0 {
      assert NatToString(-a) == IntToString(a)[1..];
      assert NatToString(-b) == IntToString(b)[1..];
      NatToStringInjective(-a, -b);
    } else {
      NatToStringInjective(a, b);
    }
  }

}
