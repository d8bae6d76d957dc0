/**
 * The three field extractors of utils.py, each a `re.search` of a case-insensitive
 * pattern over the model's free-text reply:
 *
 *   name:  (?i)name[:\s]*([A-Za-z\s]+)
 *   email: (?i)email[:\s]*([\w\.-]+@[\w\.-]+)
 *   phone: (?i)phone[:\s]*([\(\+\)\d\s-]+)
 *
 * Each pattern is written out as an explicit scanner. `MatchAt` is the anchored
 * match with the backtracking order of Python's engine (greedy `[:\s]*`, then the
 * greedy group), `Search` tries positions left to right as `re.search` does,
 * and `Extract` strips the captured group. The contracts relate every scanner to a
 * declarative reading of its pattern (`Fits`, `EmailFits`).
 */
module CandidateFields {
  import opened Wrappers
  import opened PyStr

  /** The character classes the three patterns use. */
  datatype CharClass = Separator | NameChars | EmailChars | PhoneChars {
    predicate Has(c: char) {
      match this
      case Separator => c == ':' || IsSpace(c)
      case NameChars => IsAsciiLetter(c) || IsSpace(c)
      case EmailChars => IsWordChar(c) || c == '.' || c == '-'
      case PhoneChars => c == '(' || c == '+' || c == ')' || IsDigit(c) || IsSpace(c) || c == '-'
    }
  }

  datatype Pattern = NamePattern | EmailPattern | PhonePattern {
    function Keyword(): string {
      match this
      case NamePattern => "name"
      case EmailPattern => "email"
      case PhonePattern => "phone"
    }
  }

  /** The captured group `s[start..end]`. */
  datatype Span = Span(start: nat, end: nat)

  /** A successful search: the leftmost position `at` and the group captured there. */
  datatype Hit = Hit(at: nat, group: Span)

  /** The keyword occurs at `i`, compared case-insensitively. */
  predicate KeywordAt(s: string, i: nat, kw: string) {
    i + |kw| <= |s| && forall k :: 0 <= k < |kw| ==> Lower(s[i + k]) == kw[k]
  }

  predicate AllIn(s: string, lo: nat, hi: nat, cls: CharClass)
    requires lo <= hi <= |s|
  {
    forall k :: lo <= k < hi ==> cls.Has(s[k])
  }

  /** The end of the longest run of `cls` characters that starts at `p`. */
  function RunEnd(s: string, p: nat, cls: CharClass): (q: nat)
    requires p <= |s|
    ensures p <= q <= |s|
    ensures AllIn(s, p, q, cls)
    ensures q == |s| || !cls.Has(s[q])
    decreases |s| - p
  {
    if p < |s| && cls.Has(s[p]) then RunEnd(s, p + 1, cls) else p
  }

  /** The largest `p` in `lo..hi` at which a `cls` character stands. */
  function LastStart(s: string, lo: nat, hi: nat, cls: CharClass): (r: Option<nat>)
    requires lo <= hi <= |s|
    ensures r.Some? ==> lo <= r.value <= hi && r.value < |s| && cls.Has(s[r.value])
    ensures forall p :: lo <= p <= hi && p < |s| && cls.Has(s[p]) ==> r.Some? && p <= r.value
    decreases hi - lo
  {
    if hi < |s| && cls.Has(s[hi]) then Some(hi)
    else if hi == lo then None
    else LastStart(s, lo, hi - 1, cls)
  }

  /**
   * The declarative reading of `kw[:\s]*(C+)` anchored at `i`: the keyword, then
   * separators up to `p`, then a non-empty run of `cls` characters `s[p..q]`.
   */
  ghost predicate Fits(s: string, i: nat, kw: string, cls: CharClass, p: nat, q: nat) {
    && KeywordAt(s, i, kw)
    && i + |kw| <= p < q <= |s|
    && AllIn(s, i + |kw|, p, Separator)
    && AllIn(s, p, q, cls)
  }

  /**
   * `kw[:\s]*(C+)` anchored at `i`, as Python's backtracking engine matches it:
   * the star first takes every separator, then gives them back one at a time until
   * the group can start; the group then takes as much as it can.
   */
  function ClassMatchAt(s: string, i: nat, kw: string, cls: CharClass): (r: Option<Span>)
    requires i <= |s|
    ensures r.Some? ==> i + |kw| <= r.value.start < r.value.end <= |s|
  {
    if !KeywordAt(s, i, kw) then None
    else
      var sepEnd := RunEnd(s, i + |kw|, Separator);
      match LastStart(s, i + |kw|, sepEnd, cls)
      case None => None
      case Some(p) => Some(Span(p, RunEnd(s, p, cls)))
  }

  /** A split of the pattern never puts the group's start past the separator run. */
  lemma FitsWithinSeparators(s: string, i: nat, kw: string, cls: CharClass, p: nat, q: nat)
    requires Fits(s, i, kw, cls, p, q)
    ensures p <= RunEnd(s, i + |kw|, Separator) && cls.Has(s[p])
  {
    var sepEnd := RunEnd(s, i + |kw|, Separator);
  }

  /**
   * The scanner finds a match exactly when the pattern can match at `i`, and the
   * match it finds is the one Python's engine prefers: the largest start `p` of the
   * group and, for it, the largest end `q`.
   */
  lemma ClassMatchAtIsLeftmostLongest(s: string, i: nat, kw: string, cls: CharClass)
    requires i <= |s|
    ensures ClassMatchAt(s, i, kw, cls).None? <==> forall p: nat, q: nat :: !Fits(s, i, kw, cls, p, q)
    ensures ClassMatchAt(s, i, kw, cls).Some? ==>
              var g := ClassMatchAt(s, i, kw, cls).value;
              && Fits(s, i, kw, cls, g.start, g.end)
              && forall p: nat, q: nat :: Fits(s, i, kw, cls, p, q) ==>
                   p < g.start || (p == g.start && q <= g.end)
  {
    if KeywordAt(s, i, kw) {
      var sepEnd := RunEnd(s, i + |kw|, Separator);
      forall p: nat, q: nat | Fits(s, i, kw, cls, p, q)
        ensures LastStart(s, i + |kw|, sepEnd, cls).Some?
        ensures p <= LastStart(s, i + |kw|, sepEnd, cls).value
      {
        FitsWithinSeparators(s, i, kw, cls, p, q);
      }
      match LastStart(s, i + |kw|, sepEnd, cls)
      case None =>
      case Some(p) =>
        var q := RunEnd(s, p, cls);
        assert Fits(s, i, kw, cls, p, q);
        forall q': nat | Fits(s, i, kw, cls, p, q') ensures q' <= q {
        }
    }
  }

  /**
   * The declarative reading of `email[:\s]*([\w.-]+@[\w.-]+)` anchored at `i`: the
   * group `s[p..q]` is a non-empty local part `s[p..a]`, the `@` at `a`, and a
   * non-empty domain `s[a + 1..q]`.
   */
  ghost predicate EmailFits(s: string, i: nat, p: nat, a: nat, q: nat) {
    && KeywordAt(s, i, "email")
    && i + 5 <= p < a && a + 1 < q <= |s|
    && AllIn(s, i + 5, p, Separator)
    && AllIn(s, p, a, EmailChars)
    && s[a] == '@'
    && AllIn(s, a + 1, q, EmailChars)
  }

  /**
   * The email pattern anchored at `i`. No separator is an email character and `@`
   * is not one either, so the star and the first run cannot usefully give anything
   * back: only the domain run can end at more than one place, and it is greedy.
   */
  function EmailMatchAt(s: string, i: nat): (r: Option<Span>)
    requires i <= |s|
    ensures r.Some? ==> i + 5 <= r.value.start < r.value.end <= |s|
  {
    if !KeywordAt(s, i, "email") then None
    else
      var p := RunEnd(s, i + 5, Separator);
      var a := RunEnd(s, p, EmailChars);
      if a == p || a == |s| || s[a] != '@' then None
      else
        var q := RunEnd(s, a + 1, EmailChars);
        if q == a + 1 then None else Some(Span(p, q))
  }

  /** In any split of the email pattern the group starts after the separators and the `@` ends the first run. */
  lemma EmailFitsForced(s: string, i: nat, p: nat, a: nat, q: nat)
    requires EmailFits(s, i, p, a, q)
    ensures p == RunEnd(s, i + 5, Separator) && a == RunEnd(s, p, EmailChars)
  {
    var sepEnd := RunEnd(s, i + 5, Separator);
    var e := RunEnd(s, p, EmailChars);
  }

  /** The email scanner finds a match exactly when the pattern can match at `i`, with the longest domain. */
  lemma EmailMatchAtIsLongest(s: string, i: nat)
    requires i <= |s|
    ensures EmailMatchAt(s, i).None? <==> forall p: nat, a: nat, q: nat :: !EmailFits(s, i, p, a, q)
    ensures EmailMatchAt(s, i).Some? ==>
              var g := EmailMatchAt(s, i).value;
              && EmailFits(s, i, g.start, RunEnd(s, g.start, EmailChars), g.end)
              && forall p: nat, a: nat, q: nat :: EmailFits(s, i, p, a, q) ==> p == g.start && q <= g.end
  {
    forall p: nat, a: nat, q: nat | EmailFits(s, i, p, a, q)
      ensures EmailMatchAt(s, i).Some? && p == EmailMatchAt(s, i).value.start && q <= EmailMatchAt(s, i).value.end
    {
      EmailFitsForced(s, i, p, a, q);
      var d := RunEnd(s, a + 1, EmailChars);
    }
    if EmailMatchAt(s, i).Some? {
      var g := EmailMatchAt(s, i).value;
      assert EmailFits(s, i, g.start, RunEnd(s, g.start, EmailChars), g.end);
    }
  }

  function MatchAt(pat: Pattern, s: string, i: nat): (r: Option<Span>)
    requires i <= |s|
    ensures r.Some? ==> i + |pat.Keyword()| <= r.value.start < r.value.end <= |s|
  {
    match pat
    case NamePattern => ClassMatchAt(s, i, "name", NameChars)
    case EmailPattern => EmailMatchAt(s, i)
    case PhonePattern => ClassMatchAt(s, i, "phone", PhoneChars)
  }

  /** The anchored match at every position `0..|s|`, the positions `re.search` tries. */
  function Attempts(pat: Pattern, s: string): (ms: seq<Option<Span>>)
    ensures |ms| == |s| + 1
    ensures forall j :: 0 <= j <= |s| ==> ms[j] == MatchAt(pat, s, j)
  {
    seq(|s| + 1, j requires 0 <= j <= |s| => MatchAt(pat, s, j))
  }

  /** `re.search` from position `i`: the first position whose anchored match succeeds. */
  function FirstMatch(ms: seq<Option<Span>>, i: nat): (r: Option<Hit>)
    requires i <= |ms|
    ensures r.None? <==> forall j :: i <= j < |ms| ==> ms[j].None?
    ensures r.Some? ==> i <= r.value.at < |ms| && ms[r.value.at] == Some(r.value.group)
    ensures r.Some? ==> forall j :: i <= j < r.value.at ==> ms[j].None?
    decreases |ms| - i
  {
    if i == |ms| then None
    else if ms[i].Some? then Some(Hit(i, ms[i].value))
    else FirstMatch(ms, i + 1)
  }

  function Search(pat: Pattern, s: string): (r: Option<Hit>)
  {
    FirstMatch(Attempts(pat, s), 0)
  }

  /** `m.group(1).strip() if m else None` for `m = re.search(pattern, raw)`. */
  function Extract(pat: Pattern, raw: string): (r: Option<string>)
  {
    match Search(pat, raw)
    case None => None
    case Some(h) => Some(Strip(raw[h.group.start..h.group.end]))
  }

  /** The character class of the group of the name and phone patterns. */
  function GroupClass(pat: Pattern): CharClass
    requires pat != EmailPattern
  {
    if pat == NamePattern then NameChars else PhoneChars
  }

  /** The group captured by a successful search is a `Fits` split at the hit position. */
  lemma SearchHitFits(pat: Pattern, raw: string)
    requires pat != EmailPattern && Search(pat, raw).Some?
    ensures var h := Search(pat, raw).value;
            Fits(raw, h.at, pat.Keyword(), GroupClass(pat), h.group.start, h.group.end)
  {
    var h := Search(pat, raw).value;
    ClassMatchAtIsLeftmostLongest(raw, h.at, pat.Keyword(), GroupClass(pat));
  }

  /**
   * `re.search` semantics for the name and phone patterns: there is no match
   * exactly when no position admits a split of the pattern; otherwise the hit is
   * the leftmost position that admits one, and the group is the split Python's
   * backtracking prefers there.
   */
  lemma {:induction false} SearchIsLeftmost(pat: Pattern, raw: string)
    requires pat != EmailPattern
    ensures Search(pat, raw).None? <==>
              forall i: nat, p: nat, q: nat :: !Fits(raw, i, pat.Keyword(), GroupClass(pat), p, q)
    ensures Search(pat, raw).Some? ==>
              var h := Search(pat, raw).value;
              && Fits(raw, h.at, pat.Keyword(), GroupClass(pat), h.group.start, h.group.end)
              && (forall i: nat, p: nat, q: nat :: i < h.at ==> !Fits(raw, i, pat.Keyword(), GroupClass(pat), p, q))
              && (forall p: nat, q: nat :: Fits(raw, h.at, pat.Keyword(), GroupClass(pat), p, q) ==>
                    p < h.group.start || (p == h.group.start && q <= h.group.end))
  {
    var kw, cls := pat.Keyword(), GroupClass(pat);
    var ms := Attempts(pat, raw);
    forall i: nat, p: nat, q: nat | Fits(raw, i, kw, cls, p, q)
      ensures i <= |raw| && ms[i].Some?
    {
      ClassMatchAtIsLeftmostLongest(raw, i, kw, cls);
    }
    var r := Search(pat, raw);
    if r.None? {
      forall i: nat, p: nat, q: nat ensures !Fits(raw, i, kw, cls, p, q) {
        if i <= |raw| { ClassMatchAtIsLeftmostLongest(raw, i, kw, cls); }
      }
    } else {
      ClassMatchAtIsLeftmostLongest(raw, r.value.at, kw, cls);
    }
  }

  /** The email counterpart of `SearchIsLeftmost`. */
  lemma {:induction false} EmailSearchIsLeftmost(raw: string)
    ensures Search(EmailPattern, raw).None? <==>
              forall i: nat, p: nat, a: nat, q: nat :: !EmailFits(raw, i, p, a, q)
    ensures Search(EmailPattern, raw).Some? ==>
              var h := Search(EmailPattern, raw).value;
              && EmailFits(raw, h.at, h.group.start, RunEnd(raw, h.group.start, EmailChars), h.group.end)
              && (forall i: nat, p: nat, a: nat, q: nat :: i < h.at ==> !EmailFits(raw, i, p, a, q))
              && (forall p: nat, a: nat, q: nat :: EmailFits(raw, h.at, p, a, q) ==>
                    p == h.group.start && q <= h.group.end)
  {
    var ms := Attempts(EmailPattern, raw);
    forall i: nat, p: nat, a: nat, q: nat | EmailFits(raw, i, p, a, q)
      ensures i <= |raw| && ms[i].Some?
    {
      EmailMatchAtIsLongest(raw, i);
    }
    var r := Search(EmailPattern, raw);
    if r.None? {
      forall i: nat, p: nat, a: nat, q: nat ensures !EmailFits(raw, i, p, a, q) {
        if i <= |raw| { EmailMatchAtIsLongest(raw, i); }
      }
    } else {
      EmailMatchAtIsLongest(raw, r.value.at);
    }
  }

  /** The stripped group of the name and phone patterns holds only characters of the group's class. */
  lemma ExtractedInClass(pat: Pattern, raw: string)
    requires pat != EmailPattern && Extract(pat, raw).Some?
    ensures forall k :: 0 <= k < |Extract(pat, raw).value| ==> GroupClass(pat).Has(Extract(pat, raw).value[k])
  {
    SearchHitFits(pat, raw);
    var g := Search(pat, raw).value.group;
    var t := raw[g.start..g.end];
    var v := Extract(pat, raw).value;
    assert v == Strip(t);
    forall k | 0 <= k < |v| ensures GroupClass(pat).Has(v[k]) {
      StripChars(t, k);
    }
  }

  /** extract_info_details_name: letters and whitespace, stripped, so it starts and ends with a letter. */
  function ExtractName(raw: string): (r: Option<string>)
    ensures r.Some? ==> forall k :: 0 <= k < |r.value| ==> NameChars.Has(r.value[k])
    ensures r.Some? ==> r.value == [] || (IsAsciiLetter(r.value[0]) && IsAsciiLetter(r.value[|r.value| - 1]))
  {
    var r := Extract(NamePattern, raw);
    if r.Some? then
      ExtractedInClass(NamePattern, raw);
      r
    else r
  }

  /** Local part, `@`, domain: both parts non-empty and made of word characters, `.` and `-`. */
  predicate IsEmailShaped(e: string) {
    exists a: nat :: 0 < a < |e| - 1 && e[a] == '@'
      && (forall k :: 0 <= k < a ==> EmailChars.Has(e[k]))
      && (forall k :: a < k < |e| ==> EmailChars.Has(e[k]))
  }

  /** The group of an email split is email-shaped and holds no whitespace, so stripping keeps it whole. */
  lemma EmailGroupShaped(raw: string, i: nat, p: nat, a: nat, q: nat)
    requires EmailFits(raw, i, p, a, q)
    ensures IsEmailShaped(raw[p..q])
    ensures Strip(raw[p..q]) == raw[p..q]
  {
    var t := raw[p..q];
    assert t[a - p] == '@';
    assert forall k :: 0 <= k < |t| ==> t[k] == raw[p + k];
    StripTrimmed(t);
  }

  /** extract_info_details_email: the result, when there is one, is an email-shaped token. */
  function ExtractEmail(raw: string): (r: Option<string>)
    ensures r.Some? ==> IsEmailShaped(r.value)
  {
    var r := Extract(EmailPattern, raw);
    if r.Some? then
      var h := Search(EmailPattern, raw).value;
      EmailMatchAtIsLongest(raw, h.at);
      EmailGroupShaped(raw, h.at, h.group.start, RunEnd(raw, h.group.start, EmailChars), h.group.end);
      r
    else r
  }

  /** extract_info_details_phone: phone characters only, stripped (possibly empty). */
  function ExtractPhone(raw: string): (r: Option<string>)
    ensures r.Some? ==> forall k :: 0 <= k < |r.value| ==> PhoneChars.Has(r.value[k])
    ensures r.Some? ==> r.value == [] || (!IsSpace(r.value[0]) && !IsSpace(r.value[|r.value| - 1]))
  {
    var r := Extract(PhonePattern, raw);
    if r.Some? then
      ExtractedInClass(PhonePattern, raw);
      r
    else r
  }

  /** A run that is all `cls` and stops at a non-`cls` character (or the end) is the run `RunEnd` finds. */
  lemma {:induction false} RunEndIs(s: string, p: nat, q: nat, cls: CharClass)
    requires p <= q <= |s| && AllIn(s, p, q, cls) && (q == |s| || !cls.Has(s[q]))
    ensures RunEnd(s, p, cls) == q
    decreases q - p
  {
    if p < q {
      RunEndIs(s, p + 1, q, cls);
    }
  }

  /** The email pattern matches at `i` when the keyword, the separators and both runs around the `@` are where given. */
  lemma EmailMatchAtIs(s: string, i: nat, p: nat, a: nat, q: nat)
    requires i + 5 <= p < a < |s| && a + 1 < q <= |s| && KeywordAt(s, i, "email")
    requires RunEnd(s, i + 5, Separator) == p && RunEnd(s, p, EmailChars) == a
    requires s[a] == '@' && RunEnd(s, a + 1, EmailChars) == q
    ensures MatchAt(EmailPattern, s, i) == Some(Span(p, q))
  {
  }

  /** The search stops at the first position where the anchored match succeeds. */
  lemma {:induction false} FirstMatchIs(ms: seq<Option<Span>>, i: nat, j: nat)
    requires i <= j < |ms| && ms[j].Some?
    requires forall k :: i <= k < j ==> ms[k].None?
    ensures FirstMatch(ms, i) == Some(Hit(j, ms[j].value))
    decreases j - i
  {
    if i < j {
      FirstMatchIs(ms, i + 1, j);
    }
  }

  /** A position where the first two keyword letters do not both occur holds no keyword. */
  lemma NoKeywordIn(s: string, kw: string, lo: nat, hi: nat)
    requires |kw| >= 2 && hi <= |s|
    requires forall k :: lo <= k < hi ==> k + 1 >= |s| || Lower(s[k]) != kw[0] || Lower(s[k + 1]) != kw[1]
    ensures forall k :: lo <= k < hi ==> !KeywordAt(s, k, kw)
  {
    forall k | lo <= k < hi ensures !KeywordAt(s, k, kw) {
      if k + |kw| <= |s| {
        assert Lower(s[k + 0]) != kw[0] || Lower(s[k + 1]) != kw[1];
      }
    }
  }

  /** Positions without the keyword are skipped, so the search hits the first position that matches. */
  lemma SearchHitsAt(pat: Pattern, s: string, j: nat)
    requires j <= |s| && MatchAt(pat, s, j).Some?
    requires forall k :: 0 <= k < j ==> !KeywordAt(s, k, pat.Keyword())
    ensures Search(pat, s) == Some(Hit(j, MatchAt(pat, s, j).value))
  {
    var ms := Attempts(pat, s);
    forall k | 0 <= k < j ensures ms[k].None? {
      assert !KeywordAt(s, k, pat.Keyword());
    }
    FirstMatchIs(ms, 0, j);
  }

  /** With no keyword before `j` and a match at `j`, the extracted value is the stripped group found at `j`. */
  lemma ExtractHitsAt(pat: Pattern, s: string, j: nat, g: Span)
    requires j <= |s| && MatchAt(pat, s, j) == Some(g)
    requires forall k :: 0 <= k < j ==> !KeywordAt(s, k, pat.Keyword())
    ensures g.start <= g.end <= |s|
    ensures Extract(pat, s) == Some(Strip(s[g.start..g.end]))
  {
    SearchHitsAt(pat, s, j);
  }
}
