/**
 * The identifier extractor of the splitting service: the pattern
 * `\b\d(?:\s*[-]?\s*\d){12}\b`, scanned left to right as `re.finditer` does,
 * the normalisation that strips spaces and dashes, and the payee/payer
 * choice made by `extract_thai_id`.
 */
module ThaiId {
  import opened Wrappers
  import opened RegexClasses
  import opened Finditer

  /** The payee label "ผู้ถูกหักภาษี" searched for with `str.find`. */
  const Keyword: string :=
    "\U{0E1C}\U{0E39}\U{0E49}\U{0E16}\U{0E39}\U{0E01}\U{0E2B}\U{0E31}\U{0E01}\U{0E20}\U{0E32}\U{0E29}\U{0E35}"

  /** One entry of `valid_ids`: where the match started and its normalised digits. */
  datatype Candidate = Candidate(start: nat, id: string)

  // ---------------------------------------------------------------------------
  // Normalisation: re.sub(r"[\s-]", "", raw)
  // ---------------------------------------------------------------------------

  function Strip(s: string): (r: string)
    ensures |r| <= |s|
  {
    if s == [] then [] else (if IsSeparator(s[0]) then [] else [s[0]]) + Strip(s[1..])
  }

  lemma {:induction false} StripConcat(a: string, b: string)
    ensures Strip(a + b) == Strip(a) + Strip(b)
  {
    if a == [] {
      assert a + b == b;
    } else {
      assert (a + b)[0] == a[0];
      assert (a + b)[1..] == a[1..] + b;
      StripConcat(a[1..], b);
    }
  }

  lemma {:induction false} StripSeparators(s: string)
    requires forall i :: 0 <= i < |s| ==> IsSeparator(s[i])
    ensures Strip(s) == []
  {
    if s != [] {
      StripSeparators(s[1..]);
    }
  }

  /** Normalising an already normalised string changes nothing. */
  lemma {:induction false} StripIdempotent(s: string)
    ensures Strip(Strip(s)) == Strip(s)
  {
    StripLeavesNoSeparator(s);
    StripKeepsClean(Strip(s));
  }

  lemma {:induction false} StripLeavesNoSeparator(s: string)
    ensures forall i :: 0 <= i < |Strip(s)| ==> !IsSeparator(Strip(s)[i])
  {
    if s != [] {
      StripLeavesNoSeparator(s[1..]);
    }
  }

  lemma {:induction false} StripKeepsClean(s: string)
    requires forall i :: 0 <= i < |s| ==> !IsSeparator(s[i])
    ensures Strip(s) == s
  {
    if s != [] {
      StripKeepsClean(s[1..]);
    }
  }

  // ---------------------------------------------------------------------------
  // The pattern at one position. A separator `\s*-?\s*` never contains a
  // digit, so the pattern has at most one way to match from a given start.
  // ---------------------------------------------------------------------------

  /** End of the run of `\s` beginning at `q`. */
  function SkipSpaces(t: string, q: nat): (j: nat)
    requires q <= |t|
    ensures q <= j <= |t|
    decreases |t| - q
  {
    if q < |t| && IsSpace(t[q]) then SkipSpaces(t, q + 1) else q
  }

  /** End of the longest separator `\s*-?\s*` beginning at `q`. */
  function GapEnd(t: string, q: nat): (g: nat)
    requires q <= |t|
    ensures q <= g <= |t|
  {
    var j := SkipSpaces(t, q);
    if j < |t| && t[j] == '-' then SkipSpaces(t, j + 1) else j
  }

  lemma {:induction false} SkippedAreSpaces(t: string, q: nat)
    requires q <= |t|
    ensures forall i :: q <= i < SkipSpaces(t, q) ==> IsSpace(t[i])
    decreases |t| - q
  {
    if q < |t| && IsSpace(t[q]) {
      SkippedAreSpaces(t, q + 1);
    }
  }

  /** A separator holds only spaces and dashes, so it never holds a digit. */
  lemma GapIsSeparators(t: string, q: nat)
    requires q <= |t|
    ensures forall i :: q <= i < GapEnd(t, q) ==> IsSeparator(t[i])
  {
    var j := SkipSpaces(t, q);
    SkippedAreSpaces(t, q);
    if j < |t| && t[j] == '-' {
      SkippedAreSpaces(t, j + 1);
    }
  }

  /** `(?:\s*[-]?\s*\d){k}` at `q`: the end of the match, if there is one. */
  function DigitsFrom(t: string, q: nat, k: nat): (e: Option<nat>)
    requires q <= |t|
    ensures e.Some? ==> q + k <= e.value <= |t|
    decreases k
  {
    if k == 0 then Some(q)
    else
      var g := GapEnd(t, q);
      if g < |t| && IsDigit(t[g]) then DigitsFrom(t, g + 1, k - 1) else None
  }

  /** End of the whole pattern `\b\d(?:\s*[-]?\s*\d){12}\b` anchored at `p`, if it matches. */
  function MatchEnd(t: string, p: nat): (e: Option<nat>)
    ensures e.Some? ==> p + 13 <= e.value <= |t|
  {
    if p < |t| && IsDigit(t[p]) && (p == 0 || !IsWord(t[p - 1])) then
      var d := DigitsFrom(t, p + 1, 12);
      if d.Some? && (d.value == |t| || !IsWord(t[d.value])) then d else None
    else None
  }

  /** The match object the pattern yields at `p`, if any. */
  function MatchAt(t: string, p: nat): (r: Option<Match>)
    ensures r.Some? <==> MatchEnd(t, p).Some?
    ensures r.Some? ==> r.value.start == p && r.value.End() == MatchEnd(t, p).value
    ensures r.Some? ==> r.value.raw == t[p..r.value.End()]
  {
    var e := MatchEnd(t, p);
    if e.Some? then Some(Match(p, t[p..e.value])) else None
  }

  lemma StripCons(c: char, s: string)
    requires !IsSeparator(c)
    ensures Strip([c] + s) == [c] + Strip(s)
  {
    assert ([c] + s)[1..] == s;
  }

  /** A separator followed by a digit normalises to that digit. */
  lemma StripGapDigit(gap: string, d: char, tail: string)
    requires forall i :: 0 <= i < |gap| ==> IsSeparator(gap[i])
    requires IsDigit(d)
    ensures Strip(gap + ([d] + tail)) == [d] + Strip(tail)
  {
    StripSeparators(gap);
    StripConcat(gap, [d] + tail);
    StripCons(d, tail);
  }

  lemma AllDigitsCons(d: char, s: string)
    requires IsDigit(d) && AllDigits(s)
    ensures AllDigits([d] + s)
  {
  }

  lemma SliceSplit(t: string, q: nat, g: nat, e: nat)
    requires q <= g < e <= |t|
    ensures t[q..e] == t[q..g] + ([t[g]] + t[g + 1..e])
  {
  }

  lemma {:induction false} DigitsFromStrip(t: string, q: nat, k: nat)
    requires q <= |t| && DigitsFrom(t, q, k).Some?
    ensures |Strip(t[q..DigitsFrom(t, q, k).value])| == k
    ensures AllDigits(Strip(t[q..DigitsFrom(t, q, k).value]))
    decreases k
  {
    if k == 0 {
      assert t[q..DigitsFrom(t, q, k).value] == [];
    } else {
      var g := GapEnd(t, q);
      var e := DigitsFrom(t, g + 1, k - 1).value;
      assert DigitsFrom(t, q, k).value == e;
      DigitsFromStrip(t, g + 1, k - 1);
      var tail := t[g + 1..e];
      SliceSplit(t, q, g, e);
      GapSliceSeparators(t, q);
      StripGapDigit(t[q..g], t[g], tail);
      assert Strip(t[q..e]) == [t[g]] + Strip(tail);
      AllDigitsCons(t[g], Strip(tail));
    }
  }

  lemma GapSliceSeparators(t: string, q: nat)
    requires q <= |t|
    ensures forall i :: 0 <= i < |t[q..GapEnd(t, q)]| ==> IsSeparator(t[q..GapEnd(t, q)][i])
  {
    GapIsSeparators(t, q);
    var gap := t[q..GapEnd(t, q)];
    forall i | 0 <= i < |gap| ensures IsSeparator(gap[i]) {
      assert gap[i] == t[q + i];
    }
  }

  lemma SliceCons(t: string, p: nat, e: nat)
    requires p < e <= |t|
    ensures t[p..e] == [t[p]] + t[p + 1..e]
  {
  }

  lemma DigitIsNotSeparator(c: char)
    requires IsDigit(c)
    ensures !IsSeparator(c) && IsWord(c)
  {
  }

  /** What a match at `p` is made of: a digit at `p`, twelve more after separators, and both `\b` tests passed. */
  lemma MatchAtShape(t: string, p: nat)
    requires MatchAt(t, p).Some?
    ensures p < |t| && IsDigit(t[p])
    ensures DigitsFrom(t, p + 1, 12) == Some(MatchAt(t, p).value.End())
    ensures MatchAt(t, p).value.raw == t[p..MatchAt(t, p).value.End()]
    ensures p == 0 || !IsWord(t[p - 1])
    ensures MatchAt(t, p).value.End() == |t| || !IsWord(t[MatchAt(t, p).value.End()])
  {
  }

  /** Every match normalises to exactly 13 digits. */
  lemma MatchNormalises(t: string, p: nat)
    requires MatchAt(t, p).Some?
    ensures |Strip(MatchAt(t, p).value.raw)| == 13
    ensures AllDigits(Strip(MatchAt(t, p).value.raw))
  {
    MatchAtShape(t, p);
    var e := MatchAt(t, p).value.End();
    DigitsFromStrip(t, p + 1, 12);
    SliceCons(t, p, e);
    DigitIsNotSeparator(t[p]);
    StripCons(t[p], t[p + 1..e]);
    AllDigitsCons(t[p], Strip(t[p + 1..e]));
  }

  lemma {:induction false} DigitsFromInRun(t: string, q: nat, k: nat)
    requires q + k <= |t|
    requires forall i :: q <= i < q + k ==> IsDigit(t[i])
    ensures DigitsFrom(t, q, k) == Some(q + k)
    decreases k
  {
    if k > 0 {
      assert GapEnd(t, q) == q;
      DigitsFromInRun(t, q + 1, k - 1);
    }
  }

  /** `\b` fails before a digit that follows a word character. */
  lemma NoMatchAfterWordChar(t: string, q: nat)
    requires 0 < q <= |t| && IsWord(t[q - 1])
    ensures MatchAt(t, q).None?
  {
  }

  /** A run of 14 digits from `a`: the 13-digit pattern at `a` ends inside the run, where `\b` fails. */
  lemma NoMatchAtLongRun(t: string, a: nat)
    requires a + 14 <= |t|
    requires forall i :: a <= i < a + 14 ==> IsDigit(t[i])
    ensures MatchAt(t, a).None?
  {
    DigitsFromInRun(t, a + 1, 12);
    DigitIsNotSeparator(t[a + 13]);
    MatchEndRejectsWordAfter(t, a, a + 13);
  }

  /** `\b` fails at the end of the digits when a word character follows. */
  lemma MatchEndRejectsWordAfter(t: string, p: nat, e: nat)
    requires p < e < |t| && DigitsFrom(t, p + 1, 12) == Some(e) && IsWord(t[e])
    ensures MatchEnd(t, p).None?
  {
  }

  /** No match is anchored at a position inside a run of 14 or more adjacent digits. */
  lemma NoMatchInsideLongRun(t: string, a: nat, b: nat)
    requires a + 14 <= b <= |t|
    requires forall i :: a <= i < b ==> IsDigit(t[i])
    ensures forall q: nat :: a <= q < b ==> MatchAt(t, q).None?
  {
    NoMatchAtLongRun(t, a);
    forall q: nat | a < q < b ensures MatchAt(t, q).None? {
      NoMatchAfterWordChar(t, q);
    }
  }

  /** A gap `\s*-?\s*` starting at or before a digit stops at or before it. */
  lemma GapStopsAtDigit(t: string, q: nat, a: nat)
    requires q <= a < |t| && IsDigit(t[a])
    ensures GapEnd(t, q) <= a
  {
    GapIsSeparators(t, q);
    DigitIsNotSeparator(t[a]);
  }

  /**
   * Digits read from `q <= a` land at most `k` positions past a digit at `a`
   * when the `k - 1` characters after it are digits too.
   */
  lemma {:induction false} DigitsFromEntersRun(t: string, q: nat, k: nat, a: nat, c: nat)
    requires q <= a < |t| && IsDigit(t[a]) && c == a + 1
    requires forall j: nat :: j < k ==> DigitsFrom(t, c, j) == Some(c + j)
    requires DigitsFrom(t, q, k).Some?
    ensures DigitsFrom(t, q, k).value <= a + k
    decreases k
  {
    if k > 0 {
      var g := GapEnd(t, q);
      GapStopsAtDigit(t, q, a);
      assert DigitsFrom(t, q, k) == DigitsFrom(t, g + 1, k - 1);
      if g < a {
        DigitsFromEntersRun(t, g + 1, k - 1, a, c);
      } else {
        assert DigitsFrom(t, c, k - 1) == Some(c + k - 1);
      }
    }
  }

  /** Every character of a digit run is a digit. */
  lemma RunDigit(t: string, a: nat, b: nat, i: nat)
    requires a <= b <= |t| && AllDigits(t[a..b])
    ensures a <= i < b ==> IsDigit(t[i])
  {
    if a <= i < b {
      assert t[a..b][i - a] == t[i];
    }
  }

  /**
   * A match anchored before a run of 14 or more digits ends before the run:
   * it cannot reach into it. The run is given as a slice, which keeps its
   * digits out of the way while the match is unfolded.
   */
  lemma MatchBeforeLongRunEndsBefore(t: string, p: nat, a: nat, b: nat)
    requires p < a && a + 14 <= b <= |t| && AllDigits(t[a..b])
    requires MatchAt(t, p).Some?
    ensures MatchAt(t, p).value.End() < a
  {
    MatchAtEnd(t, p);
    DigitsEndBeforeRun(t, p + 1, 12, MatchAt(t, p).value.End(), a, b);
  }

  /** Where a match ends: after its last digit, at the end of the text or before a non-word character. */
  lemma MatchAtEnd(t: string, p: nat)
    requires MatchAt(t, p).Some?
    ensures p < |t| && DigitsFrom(t, p + 1, 12) == Some(MatchAt(t, p).value.End())
    ensures MatchAt(t, p).value.End() == |t| || !IsWord(t[MatchAt(t, p).value.End()])
  {
  }

  /** `k` gap-separated digits read from `q <= a` that stop before a non-word character stop before a run of more than `k + 1` digits at `a`. */
  lemma DigitsEndBeforeRun(t: string, q: nat, k: nat, e: nat, a: nat, b: nat)
    requires q <= a && a + k + 1 < b <= |t| && AllDigits(t[a..b])
    requires DigitsFrom(t, q, k) == Some(e)
    requires e == |t| || !IsWord(t[e])
    ensures e < a
  {
    var c := a + 1;
    forall j: nat | j < k ensures DigitsFrom(t, c, j) == Some(c + j) {
      forall i | c <= i < c + j ensures IsDigit(t[i]) {
        RunDigit(t, a, b, i);
      }
      DigitsFromInRun(t, c, j);
    }
    RunDigit(t, a, b, a);
    DigitsFromEntersRun(t, q, k, a, c);
    RunDigit(t, a, b, e);
    DigitIsWord(t[e]);
  }

  lemma DigitIsWord(c: char)
    ensures IsDigit(c) ==> IsWord(c)
  {
  }

  // ---------------------------------------------------------------------------
  // re.finditer over the identifier pattern
  // ---------------------------------------------------------------------------

  lemma MatchAtAnchored(t: string)
    ensures Anchored(|t|, (q: nat) => MatchAt(t, q))
  {
  }

  /** `re.finditer(THAI_ID_REGEX, t)` */
  function FindAll(t: string): seq<Match> {
    MatchAtAnchored(t);
    ScanFrom(|t|, (q: nat) => MatchAt(t, q), 0)
  }

  /** The matches of a text are exactly the leftmost, non-overlapping ones, in order. */
  lemma FindAllIsLeftmostScan(t: string)
    ensures IsLeftmostScan(|t|, (q: nat) => MatchAt(t, q), 0, FindAll(t))
    ensures Ordered(FindAll(t))
  {
    MatchAtAnchored(t);
    ScanFromIsLeftmostScan(|t|, (q: nat) => MatchAt(t, q), 0);
    ScanFromOrdered(|t|, (q: nat) => MatchAt(t, q), 0);
  }

  lemma FindAllAreMatches(t: string)
    ensures forall i :: 0 <= i < |FindAll(t)| ==> MatchAt(t, FindAll(t)[i].start) == Some(FindAll(t)[i])
  {
    FindAllIsLeftmostScan(t);
    var at := (q: nat) => MatchAt(t, q);
    forall i | 0 <= i < |FindAll(t)| ensures MatchAt(t, FindAll(t)[i].start) == Some(FindAll(t)[i]) {
      assert at(FindAll(t)[i].start) == Some(FindAll(t)[i]);
    }
  }

  /**
   * A run of 14 or more adjacent digits yields no match of the scan: every
   * match ends before the run or starts after it.
   */
  lemma NoMatchInLongRun(t: string, a: nat, b: nat)
    requires a + 14 <= b <= |t|
    requires forall i :: a <= i < b ==> IsDigit(t[i])
    ensures forall i :: 0 <= i < |FindAll(t)| ==> FindAll(t)[i].End() < a || b <= FindAll(t)[i].start
  {
    NoMatchInsideLongRun(t, a, b);
    FindAllAreMatches(t);
    assert AllDigits(t[a..b]);
    forall i | 0 <= i < |FindAll(t)| && FindAll(t)[i].start < a ensures FindAll(t)[i].End() < a {
      MatchBeforeLongRunEndsBefore(t, FindAll(t)[i].start, a, b);
    }
  }

  // ---------------------------------------------------------------------------
  // valid_ids and the choice of the payee identifier
  // ---------------------------------------------------------------------------

  /** The loop that normalises each match and keeps the ones of length 13. */
  function KeepThirteen(ms: seq<Match>): (cs: seq<Candidate>)
    ensures forall i :: 0 <= i < |cs| ==> |cs[i].id| == 13
    decreases |ms|
  {
    if ms == [] then []
    else
      var last := ms[|ms| - 1];
      var clean := Strip(last.raw);
      KeepThirteen(ms[..|ms| - 1]) + (if |clean| == 13 then [Candidate(last.start, clean)] else [])
  }

  function ValidIds(t: string): seq<Candidate> {
    KeepThirteen(FindAll(t))
  }

  lemma {:induction false} KeepThirteenKeepsAll(ms: seq<Match>)
    requires forall i :: 0 <= i < |ms| ==> |Strip(ms[i].raw)| == 13
    ensures |KeepThirteen(ms)| == |ms|
    ensures forall i :: 0 <= i < |ms| ==> KeepThirteen(ms)[i] == Candidate(ms[i].start, Strip(ms[i].raw))
    decreases |ms|
  {
    if ms != [] {
      KeepThirteenKeepsAll(ms[..|ms| - 1]);
    }
  }

  /** The length filter never rejects a match: valid_ids is every match, normalised. */
  lemma ValidIdsAreAllMatches(t: string)
    ensures |ValidIds(t)| == |FindAll(t)|
    ensures forall i :: 0 <= i < |FindAll(t)| ==>
      && ValidIds(t)[i] == Candidate(FindAll(t)[i].start, Strip(FindAll(t)[i].raw))
      && AllDigits(ValidIds(t)[i].id)
  {
    var ms := FindAll(t);
    FindAllAreMatches(t);
    forall i | 0 <= i < |ms| ensures |Strip(ms[i].raw)| == 13 && AllDigits(Strip(ms[i].raw)) {
      MatchNormalises(t, ms[i].start);
    }
    KeepThirteenKeepsAll(ms);
  }

  predicate OccursAt(t: string, w: string, k: int) {
    0 <= k && k + |w| <= |t| && t[k..k + |w|] == w
  }

  /** `str.find` from `from`: the first occurrence of `w`, if any. */
  function IndexOf(t: string, w: string, from: nat): (r: Option<nat>)
    ensures r.Some? ==> from <= r.value && OccursAt(t, w, r.value)
    ensures r.Some? ==> forall j :: from <= j < r.value ==> !OccursAt(t, w, j)
    ensures r.None? ==> forall j :: from <= j ==> !OccursAt(t, w, j)
    decreases |t| - from
  {
    if from + |w| > |t| then None
    else if t[from..from + |w|] == w then Some(from)
    else IndexOf(t, w, from + 1)
  }

  /** Index of the first candidate from `from` on that starts strictly after `k`. */
  function FirstAfter(cs: seq<Candidate>, k: int, from: nat): (r: Option<nat>)
    requires from <= |cs|
    ensures r.Some? ==> from <= r.value < |cs| && cs[r.value].start > k
    ensures r.Some? ==> forall j :: from <= j < r.value ==> cs[j].start <= k
    ensures r.None? ==> forall j :: from <= j < |cs| ==> cs[j].start <= k
    decreases |cs| - from
  {
    if from == |cs| then None
    else if cs[from].start > k then Some(from)
    else FirstAfter(cs, k, from + 1)
  }

  /** What `extract_thai_id` returns for a page's text. */
  function ThaiIdOf(text: Option<string>): (r: Option<string>)
    ensures r.Some? ==> |r.value| == 13
  {
    if text.None? || text.value == [] then None
    else
      var t := text.value;
      var ids := ValidIds(t);
      if ids == [] then None
      else
        var chosen := match IndexOf(t, Keyword, 0)
          case Some(k) => FirstAfter(ids, k, 0)
          case None => None;
        if chosen.Some? then Some(ids[chosen.value].id)
        else if |ids| >= 2 then Some(ids[1].id)
        else Some(ids[0].id)
  }

  /** `extract_thai_id`: collect valid_ids, then look for the payee after the keyword. */
  method ExtractThaiId(text: Option<string>) returns (r: Option<string>)
    ensures r == ThaiIdOf(text)
  {
    if text.None? || text.value == [] {
      return None;
    }
    var t := text.value;
    var matches := FindAll(t);
    var validIds: seq<Candidate> := [];
    var i := 0;
    while i < |matches|
      invariant 0 <= i <= |matches|
      invariant validIds == KeepThirteen(matches[..i])
    {
      var cleanId := Strip(matches[i].raw);
      if |cleanId| == 13 {
        validIds := validIds + [Candidate(matches[i].start, cleanId)];
      }
      assert matches[..i + 1][..i] == matches[..i];
      i := i + 1;
    }
    assert matches[..i] == matches;
    if validIds == [] {
      return None;
    }
    var idx := IndexOf(t, Keyword, 0);
    if idx.Some? {
      var j := 0;
      while j < |validIds|
        invariant 0 <= j <= |validIds|
        invariant forall j' :: 0 <= j' < j ==> validIds[j'].start <= idx.value
      {
        if validIds[j].start > idx.value {
          return Some(validIds[j].id);
        }
        j := j + 1;
      }
    }
    if |validIds| >= 2 {
      return Some(validIds[1].id);
    }
    return Some(validIds[0].id);
  }

  // ---------------------------------------------------------------------------
  // Properties of the choice
  // ---------------------------------------------------------------------------

  /** A chosen identifier is the normalised text of one of the matches: 13 digits. */
  lemma ThaiIdIsAMatch(text: Option<string>)
    ensures ThaiIdOf(text).Some? ==> text.Some?
    ensures ThaiIdOf(text).Some? ==> AllDigits(ThaiIdOf(text).value) && |ThaiIdOf(text).value| == 13
    ensures ThaiIdOf(text).Some? ==>
      exists i :: 0 <= i < |FindAll(text.value)| && ThaiIdOf(text).value == Strip(FindAll(text.value)[i].raw)
  {
    if ThaiIdOf(text).Some? {
      var t := text.value;
      ValidIdsAreAllMatches(t);
      var ids := ValidIds(t);
      var id := ThaiIdOf(text).value;
      assert exists i :: 0 <= i < |ids| && ids[i].id == id;
    }
  }

  /** There is an identifier exactly when the text holds at least one match. */
  lemma NoIdIffNoMatch(text: Option<string>)
    ensures ThaiIdOf(text).None? <==> (text.None? || FindAll(text.value) == [])
  {
    if text.Some? {
      ValidIdsAreAllMatches(text.value);
      if text.value == [] {
        assert FindAll(text.value) == [];
      }
    }
  }

  /** With the keyword present, the first match starting after its first occurrence wins. */
  lemma PayeeAfterKeyword(t: string, k: nat, i: nat)
    requires OccursAt(t, Keyword, k) && forall j :: 0 <= j < k ==> !OccursAt(t, Keyword, j)
    requires i < |FindAll(t)| && FindAll(t)[i].start > k
    requires forall j :: 0 <= j < i ==> FindAll(t)[j].start <= k
    ensures ThaiIdOf(Some(t)) == Some(Strip(FindAll(t)[i].raw))
  {
    ValidIdsAreAllMatches(t);
    var idx := IndexOf(t, Keyword, 0);
    assert idx == Some(k);
    var ids := ValidIds(t);
    var chosen := FirstAfter(ids, k, 0);
    assert ids[i].start > k;
    assert chosen == Some(i);
  }

  /**
   * With the keyword absent, or no match starting after it: the second match
   * if there are two or more, else the only one, else nothing.
   */
  lemma FallbackWithoutPayee(t: string)
    requires forall k, i :: 0 <= i < |FindAll(t)| && OccursAt(t, Keyword, k) ==> FindAll(t)[i].start <= k
    ensures |FindAll(t)| >= 2 ==> ThaiIdOf(Some(t)) == Some(Strip(FindAll(t)[1].raw))
    ensures |FindAll(t)| == 1 ==> ThaiIdOf(Some(t)) == Some(Strip(FindAll(t)[0].raw))
    ensures FindAll(t) == [] ==> ThaiIdOf(Some(t)).None?
  {
    ValidIdsAreAllMatches(t);
    if t == [] {
      assert FindAll(t) == [];
    }
    var idx := IndexOf(t, Keyword, 0);
    if idx.Some? {
      assert FirstAfter(ValidIds(t), idx.value, 0).None?;
    }
  }
}
