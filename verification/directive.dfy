/**
 The image-count directive of a chat prompt: a hand-written matcher for the
 regular expression `--number_of_images\s*=\s*(\d+)`, Python's `re.search`
 (leftmost match) and `re.sub(..., "", ...)` (delete every match, scanning left
 to right) over it, and the prompt parser that both bots run.
 */
module Directive {
  import opened Wrappers
  import opened Strings

  const Flag: string := "--number_of_images"

  /**
   One occurrence of the directive: the whitespace runs on either side of `=`
   and the digit run captured by `(\d+)`.
   */
  datatype Occurrence = Occurrence(before: string, after: string, digits: string)
  {
    /** The characters the occurrence spans. */
    function Spelling(): string {
      Flag + before + "=" + after + digits
    }

    predicate WellFormed() {
      AllSpace(before) && AllSpace(after) && |digits| > 0 && AllDigits(digits)
    }

    /** `int(match.group(1))`. */
    function Value(): nat
      requires WellFormed()
    {
      DigitsValue(digits)
    }
  }

  /** `o` is spelled out in `s` starting at `i`. */
  predicate SpelledAt(s: string, i: nat, o: Occurrence) {
    i + |o.Spelling()| <= |s| && s[i..i + |o.Spelling()|] == o.Spelling()
  }

  /** The greedy `\d+` stopped at the end of `s` or at a non-digit. */
  predicate DigitsMaximal(s: string, i: nat, o: Occurrence) {
    i + |o.Spelling()| == |s| || (i + |o.Spelling()| < |s| && !IsDigit(s[i + |o.Spelling()|]))
  }

  /** The first index at or after `i` that does not hold whitespace. */
  function SkipSpaces(s: string, i: nat): (j: nat)
    requires i <= |s|
    ensures i <= j <= |s| && forall p :: i <= p < j ==> IsSpace(s[p])
    ensures j == |s| || !IsSpace(s[j])
    decreases |s| - i
  {
    if i < |s| && IsSpace(s[i]) then
      SkipSpaces(s, i + 1)
    else
      i
  }

  /** The first index at or after `i` that does not hold a digit. */
  function SkipDigits(s: string, i: nat): (j: nat)
    requires i <= |s|
    ensures i <= j <= |s| && forall p :: i <= p < j ==> IsDigit(s[p])
    ensures j == |s| || !IsDigit(s[j])
    decreases |s| - i
  {
    if i < |s| && IsDigit(s[i]) then
      SkipDigits(s, i + 1)
    else
      i
  }

  /**
   The regular expression anchored at `i`. Because whitespace, `=` and digits
   are disjoint classes, greedy matching never backtracks: the match is the
   flag, maximal whitespace, `=`, maximal whitespace, maximal digits (at least one).
   */
  function MatchAt(s: string, i: nat): (r: Option<Occurrence>)
    requires i <= |s|
    ensures r.Some? ==> r.value.WellFormed() && SpelledAt(s, i, r.value) && DigitsMaximal(s, i, r.value)
  {
    var f := i + |Flag|;
    if f <= |s| && s[i..f] == Flag then
      var j := SkipSpaces(s, f);
      if j < |s| && s[j] == '=' then
        var k := SkipSpaces(s, j + 1);
        var e := SkipDigits(s, k);
        if k < e then
          ScannedOccurrence(s, i, j, k, e);
          Some(Occurrence(s[f..j], s[j + 1..k], s[k..e]))
        else
          None
      else
        None
    else
      None
  }

  /** The runs `MatchAt` scans over form a well-formed occurrence spelled out at `i`, with a maximal digit run. */
  lemma ScannedOccurrence(s: string, i: nat, j: nat, k: nat, e: nat)
    requires i + |Flag| <= j && j + 1 <= k < e <= |s|
    requires s[i..i + |Flag|] == Flag && s[j] == '='
    requires forall p :: i + |Flag| <= p < j ==> IsSpace(s[p])
    requires forall p :: j + 1 <= p < k ==> IsSpace(s[p])
    requires forall p :: k <= p < e ==> IsDigit(s[p])
    requires e == |s| || !IsDigit(s[e])
    ensures var o := Occurrence(s[i + |Flag|..j], s[j + 1..k], s[k..e]);
            o.WellFormed() && SpelledAt(s, i, o) && DigitsMaximal(s, i, o)
  {
    SliceSpelling(s, i, j, k, e);
    SpacesSlice(s, i + |Flag|, j);
    SpacesSlice(s, j + 1, k);
    DigitsSlice(s, k, e);
  }

  /** The slice `s[i..e]` cut at the flag's end, at `=` and at the digits is an occurrence's spelling. */
  lemma SliceSpelling(s: string, i: nat, j: nat, k: nat, e: nat)
    requires i + |Flag| <= j && j + 1 <= k <= e <= |s|
    requires s[i..i + |Flag|] == Flag && s[j] == '='
    ensures s[i..e] == Occurrence(s[i + |Flag|..j], s[j + 1..k], s[k..e]).Spelling()
  {
    var f := i + |Flag|;
    assert s[i..j] == s[i..f] + s[f..j];
    assert s[i..j + 1] == s[i..j] + [s[j]];
    assert s[i..k] == s[i..j + 1] + s[j + 1..k];
    assert s[i..e] == s[i..k] + s[k..e];
  }

  /** `SkipSpaces` stops exactly at the first non-whitespace character. */
  lemma {:induction false} SkipSpacesAt(s: string, i: nat, j: nat)
    requires i <= j <= |s| && (forall p :: i <= p < j ==> IsSpace(s[p])) && (j == |s| || !IsSpace(s[j]))
    ensures SkipSpaces(s, i) == j
    decreases j - i
  {
    if i < j {
      SkipSpacesAt(s, i + 1, j);
    }
  }

  lemma SpacesSlice(s: string, a: nat, b: nat)
    requires a <= b <= |s| && forall p :: a <= p < b ==> IsSpace(s[p])
    ensures AllSpace(s[a..b])
  {
  }

  lemma DigitsSlice(s: string, a: nat, b: nat)
    requires a <= b <= |s| && forall p :: a <= p < b ==> IsDigit(s[p])
    ensures AllDigits(s[a..b])
  {
  }

  /** `SkipDigits` runs at least over a run of digits starting at `i`. */
  lemma {:induction false} SkipDigitsCovers(s: string, i: nat, j: nat)
    requires i <= j <= |s| && forall p :: i <= p < j ==> IsDigit(s[p])
    ensures j <= SkipDigits(s, i)
    decreases j - i
  {
    if i < j {
      SkipDigitsCovers(s, i + 1, j);
    }
  }

  /** Neither `=` nor a digit is whitespace, so both end a run of `\s*`. */
  lemma ScanStops(c: char)
    requires c == '=' || IsDigit(c)
    ensures !IsSpace(c)
  {
  }

  /** Over runs laid out like an occurrence, the scans of `MatchAt` stop where the runs end. */
  lemma ScanOver(s: string, f: nat, j: nat, k: nat, e: nat)
    requires f <= j && j + 1 <= k < e <= |s| && s[j] == '='
    requires forall p :: f <= p < j ==> IsSpace(s[p])
    requires forall p :: j + 1 <= p < k ==> IsSpace(s[p])
    requires forall p :: k <= p < e ==> IsDigit(s[p])
    ensures SkipSpaces(s, f) == j && SkipSpaces(s, j + 1) == k && e <= SkipDigits(s, k)
  {
    ScanStops(s[j]);
    ScanStops(s[k]);
    SkipSpacesAt(s, f, j);
    SkipSpacesAt(s, j + 1, k);
    SkipDigitsCovers(s, k, e);
  }

  /** Where each part of a spelled-out occurrence sits in `s`. */
  lemma SpellingParts(s: string, i: nat, o: Occurrence)
    requires SpelledAt(s, i, o)
    ensures |o.Spelling()| == |Flag| + |o.before| + 1 + |o.after| + |o.digits| && i + |o.Spelling()| <= |s|
    ensures s[i..i + |Flag|] == Flag
    ensures s[i + |Flag|..i + |Flag| + |o.before|] == o.before
    ensures s[i + |Flag| + |o.before|] == '='
    ensures s[i + |Flag| + |o.before| + 1..i + |Flag| + |o.before| + 1 + |o.after|] == o.after
    ensures s[i + |Flag| + |o.before| + 1 + |o.after|..i + |o.Spelling()|] == o.digits
  {
    hide MatchAt, Occurrence.Spelling;
    SpellingLayout(o);
    var sp := o.Spelling();
    var f := |Flag|;
    var j := f + |o.before|;
    var k := j + 1 + |o.after|;
    SpelledSlice(s, i, sp, 0, f);
    SpelledSlice(s, i, sp, f, j);
    SpelledSlice(s, i, sp, j, j + 1);
    SpelledSlice(s, i, sp, j + 1, k);
    SpelledSlice(s, i, sp, k, |sp|);
    assert s[i + j..i + j + 1][0] == s[i + j];
  }

  /** A slice of a string spelled out at `i` sits at the shifted positions of `s`. */
  lemma SpelledSlice(s: string, i: nat, w: string, a: nat, b: nat)
    requires a <= b <= |w| && i + |w| <= |s| && s[i..i + |w|] == w
    ensures s[i + a..i + b] == w[a..b]
  {
    forall t | 0 <= t < b - a
      ensures s[i + a..i + b][t] == w[a..b][t]
    {
      assert s[i..i + |w|][a + t] == w[a + t];
    }
  }

  /** The parts of an occurrence's spelling, by position. */
  lemma SpellingLayout(o: Occurrence)
    ensures var sp := o.Spelling();
            var f := |Flag|;
            var j := f + |o.before|;
            var k := j + 1 + |o.after|;
            && |sp| == k + |o.digits|
            && sp[..f] == Flag && sp[f..j] == o.before && sp[j..j + 1] == "="
            && sp[j + 1..k] == o.after && sp[k..] == o.digits
  {
    var f := |Flag|;
    var j := f + |o.before|;
    var k := j + 1 + |o.after|;
    var p1 := Flag + o.before;
    var p2 := p1 + "=";
    var p3 := p2 + o.after;
    assert o.Spelling() == p3 + o.digits;
    assert p3[..j + 1] == p2 && p2[..j] == p1;
    assert p3[j + 1..] == o.after;
  }

  /** The match `MatchAt` builds once its scanning positions are known. */
  lemma MatchAtParts(s: string, i: nat, j: nat, k: nat, e: nat)
    requires i + |Flag| <= j < |s| && s[i..i + |Flag|] == Flag && SkipSpaces(s, i + |Flag|) == j
    requires s[j] == '=' && SkipSpaces(s, j + 1) == k && SkipDigits(s, k) == e && k < e
    ensures MatchAt(s, i) == Some(Occurrence(s[i + |Flag|..j], s[j + 1..k], s[k..e]))
  {
    hide SkipSpaces, SkipDigits, IsSpace, IsDigit, SpelledAt, DigitsMaximal, Occurrence.WellFormed, Occurrence.Spelling;
  }

  /**
   Completeness of the matcher: wherever a well-formed occurrence is spelled
   out, `MatchAt` finds an occurrence with the same whitespace runs and a digit
   run at least as long.
   */
  lemma {:induction false} MatchAtFinds(s: string, i: nat, o: Occurrence)
    requires o.WellFormed() && SpelledAt(s, i, o)
    ensures MatchAt(s, i).Some?
    ensures MatchAt(s, i).value.before == o.before && MatchAt(s, i).value.after == o.after
    ensures |o.digits| <= |MatchAt(s, i).value.digits|
    ensures o.digits == MatchAt(s, i).value.digits[..|o.digits|]
  {
    hide MatchAt, SkipSpaces, SkipDigits, IsSpace, IsDigit, Occurrence.WellFormed, SpelledAt, Occurrence.Spelling;
    SpelledScan(s, i, o);
    SpelledSlices(s, i, o);
    var j := i + |Flag| + |o.before|;
    var k := j + 1 + |o.after|;
    var e := k + |o.digits|;
    var e' := SkipDigits(s, k);
    MatchAtParts(s, i, j, k, e');
    assert s[k..e'][..|o.digits|] == s[k..e];
  }

  /** How the scan of `MatchAt` runs over an occurrence spelled out at `i`. */
  lemma SpelledScan(s: string, i: nat, o: Occurrence)
    requires o.WellFormed() && SpelledAt(s, i, o)
    ensures var f := i + |Flag|;
            var j := f + |o.before|;
            var k := j + 1 + |o.after|;
            var e := k + |o.digits|;
            && k < e <= |s| && s[i..f] == Flag && s[j] == '='
            && SkipSpaces(s, f) == j && SkipSpaces(s, j + 1) == k && e <= SkipDigits(s, k)
  {
    hide SpelledAt, Occurrence.Spelling, Occurrence.WellFormed, IsSpace, IsDigit, SkipSpaces, SkipDigits;
    SpelledRuns(s, i, o);
    var f := i + |Flag|;
    var j := f + |o.before|;
    var k := j + 1 + |o.after|;
    var e := k + |o.digits|;
    ScanOver(s, f, j, k, e);
  }

  /** The slices of `s` that an occurrence spelled out at `i` covers. */
  lemma SpelledSlices(s: string, i: nat, o: Occurrence)
    requires SpelledAt(s, i, o)
    ensures var f := i + |Flag|;
            var j := f + |o.before|;
            var k := j + 1 + |o.after|;
            var e := k + |o.digits|;
            && e <= |s| && s[f..j] == o.before && s[j + 1..k] == o.after && s[k..e] == o.digits
  {
    SpellingParts(s, i, o);
  }

  /** The runs of a well-formed occurrence spelled out at `i`, position by position. */
  lemma SpelledRuns(s: string, i: nat, o: Occurrence)
    requires o.WellFormed() && SpelledAt(s, i, o)
    ensures var f := i + |Flag|;
            var j := f + |o.before|;
            var k := j + 1 + |o.after|;
            var e := k + |o.digits|;
            && k < e <= |s| && s[i..f] == Flag && s[j] == '='
            && (forall p :: f <= p < j ==> IsSpace(s[p]))
            && (forall p :: j + 1 <= p < k ==> IsSpace(s[p]))
            && (forall p :: k <= p < e ==> IsDigit(s[p]))
  {
    SpellingParts(s, i, o);
    hide SpelledAt, Occurrence.Spelling;
    var f := i + |Flag|;
    var j := f + |o.before|;
    var k := j + 1 + |o.after|;
    var e := k + |o.digits|;
    SpaceRun(s, f, j, o.before);
    SpaceRun(s, j + 1, k, o.after);
    DigitRun(s, k, e, o.digits);
  }

  /** A digit string spelled out at `a` is a run of digits of `s`. */
  lemma DigitRun(s: string, a: nat, b: nat, w: string)
    requires a <= b <= |s| && s[a..b] == w && AllDigits(w)
    ensures forall p :: a <= p < b ==> IsDigit(s[p])
  {
    forall p | a <= p < b
      ensures IsDigit(s[p])
    {
      assert s[p] == w[p - a];
    }
  }

  /** A whitespace string spelled out at `a` is a run of whitespace characters of `s`. */
  lemma SpaceRun(s: string, a: nat, b: nat, w: string)
    requires a <= b <= |s| && s[a..b] == w && AllSpace(w)
    ensures forall p :: a <= p < b ==> IsSpace(s[p])
  {
    forall p | a <= p < b
      ensures IsSpace(s[p])
    {
      assert s[p] == w[p - a];
    }
  }

  /**
   The matcher, exactly: `MatchAt(s, i)` returns `o` if and only if `o` is a
   well-formed occurrence spelled out at `i` whose digit run cannot be extended.
   */
  lemma {:induction false} MatchAtExactly(s: string, i: nat, o: Occurrence)
    requires i <= |s|
    ensures MatchAt(s, i) == Some(o) <==> o.WellFormed() && SpelledAt(s, i, o) && DigitsMaximal(s, i, o)
  {
    hide MatchAt;
    if o.WellFormed() && SpelledAt(s, i, o) && DigitsMaximal(s, i, o) {
      MatchAtFinds(s, i, o);
      var m := MatchAt(s, i).value;
      assert m.digits == o.digits;
    }
  }

  /** A position where the flag is not spelled out starts no match. */
  lemma NoMatchWithoutFlag(s: string, i: nat, k: nat)
    requires k < |Flag| && i + k < |s| && s[i + k] != Flag[k]
    ensures MatchAt(s, i).None?
  {
    hide MatchAt;
  }

  /** Where a match starts in `s`, and what it matched. */
  datatype Found = Found(start: nat, occurrence: Occurrence)

  /** `re.search` from position `i`: the leftmost match at or after `i`. */
  function SearchFrom(s: string, i: nat): (r: Option<Found>)
    requires i <= |s|
    ensures r.Some? ==> i <= r.value.start <= |s| && MatchAt(s, r.value.start) == Some(r.value.occurrence)
    ensures r.Some? ==> forall j :: i <= j < r.value.start ==> MatchAt(s, j).None?
    ensures r.None? ==> forall j :: i <= j <= |s| ==> MatchAt(s, j).None?
    decreases |s| - i
  {
    var m := MatchAt(s, i);
    if m.Some? then
      Some(Found(i, m.value))
    else if i == |s| then
      None
    else
      var r := SearchFrom(s, i + 1);
      assert r.None? ==> forall j :: i <= j <= |s| ==> MatchAt(s, j).None? by {
        if r.None? {
          forall j | i <= j <= |s|
            ensures MatchAt(s, j).None?
          {
            if j == i { assert MatchAt(s, j) == m; }
          }
        }
      }
      r
  }

  /** Conversely, a match with none before it is the one `re.search` returns. */
  lemma {:induction false} SearchFromLeftmost(s: string, i: nat, start: nat, o: Occurrence)
    requires i <= start <= |s| && MatchAt(s, start) == Some(o)
    requires forall j :: i <= j < start ==> MatchAt(s, j).None?
    ensures SearchFrom(s, i) == Some(Found(start, o))
    decreases start - i
  {
    hide MatchAt;
    if i < start {
      assert MatchAt(s, i).None?;
      SearchFromLeftmost(s, i + 1, start, o);
    }
  }

  /** When no position from `i` on starts a match, `re.search` finds nothing. */
  lemma {:induction false} SearchFromNone(s: string, i: nat)
    requires i <= |s|
    requires forall j :: i <= j <= |s| ==> MatchAt(s, j).None?
    ensures SearchFrom(s, i).None?
    decreases |s| - i
  {
    hide MatchAt;
    assert MatchAt(s, i).None?;
    if i < |s| {
      SearchFromNone(s, i + 1);
    }
  }

  /** `re.search(pattern, s)`. */
  function Search(s: string): Option<Found> {
    SearchFrom(s, 0)
  }

  /** `re.sub(pattern, "", s[i..])` when the scan starts at `i`. */
  function RemoveFrom(s: string, i: nat): (r: string)
    requires i <= |s|
    ensures |r| <= |s| - i
    decreases |s| - i
  {
    if i == |s| then
      []
    else
      match MatchAt(s, i)
      case Some(o) => RemoveFrom(s, i + |o.Spelling()|)
      case None => [s[i]] + RemoveFrom(s, i + 1)
  }

  /** `re.sub(pattern, "", s)`: every match found scanning left to right is deleted. */
  function RemoveAll(s: string): string {
    RemoveFrom(s, 0)
  }

  /** Text before the next match is copied unchanged. */
  lemma {:induction false} RemoveFromCopies(s: string, i: nat, j: nat)
    requires i <= j <= |s|
    requires forall p :: i <= p < j ==> MatchAt(s, p).None?
    ensures RemoveFrom(s, i) == s[i..j] + RemoveFrom(s, j)
    decreases j - i
  {
    hide MatchAt, RemoveFrom;
    if i < j {
      RemoveFromSkips(s, i);
      RemoveFromCopies(s, i + 1, j);
      var rest := RemoveFrom(s, j);
      calc {
        RemoveFrom(s, i);
        [s[i]] + (s[i + 1..j] + rest);
        { assert [s[i]] + s[i + 1..j] == s[i..j]; }
        s[i..j] + rest;
      }
    } else {
      assert s[i..j] == [];
    }
  }

  /** One step of `re.sub` where no occurrence starts: the character is copied. */
  lemma RemoveFromSkips(s: string, i: nat)
    requires i < |s| && MatchAt(s, i).None?
    ensures RemoveFrom(s, i) == [s[i]] + RemoveFrom(s, i + 1)
  {
    hide MatchAt;
  }

  /** A match is deleted whole and the scan resumes right after it. */
  lemma RemoveFromMatch(s: string, i: nat, o: Occurrence)
    requires i < |s| && MatchAt(s, i) == Some(o)
    ensures RemoveFrom(s, i) == RemoveFrom(s, i + |o.Spelling()|)
  {
    hide MatchAt, Occurrence.Spelling, Occurrence.WellFormed, DigitsMaximal;
    var m := MatchAt(s, i);
    assert m.Some? && m.value == o;
  }

  /** Without a match, `re.sub` returns its input unchanged. */
  lemma RemoveAllWithoutMatch(s: string)
    requires Search(s).None?
    ensures RemoveAll(s) == s
  {
    hide MatchAt;
    RemoveFromCopies(s, 0, |s|);
  }

  /** With a match, `re.sub` deletes at least the whole first match. */
  lemma RemoveAllShrinks(s: string)
    requires Search(s).Some?
    ensures |RemoveAll(s)| + |Search(s).value.occurrence.Spelling()| <= |s|
  {
    hide MatchAt;
    var f := Search(s).value;
    RemoveFromCopies(s, 0, f.start);
  }

  /** What the parser hands on: the prompt for generation and the image count. */
  datatype Parsed = Parsed(prompt: string, count: nat)

  /** The requested number of images, forced into the range 1..4. */
  function Clamp(n: nat): (c: nat)
    ensures 1 <= c <= 4
    ensures 1 <= n <= 4 ==> c == n
    ensures n == 0 ==> c == 1
    ensures n > 4 ==> c == 4
  {
    if n <= 0 then 1 else if n > 4 then 4 else n
  }

  /**
   The parsing both bots perform on a non-empty last message: the count comes
   from the leftmost directive, clamped; when there is a directive every match
   is deleted and the rest stripped; without one the message passes through
   untouched (not stripped) with count 1.
   */
  function Parse(message: string): (p: Parsed)
    ensures 1 <= p.count <= 4
    ensures Search(message).None? ==> p == Parsed(message, 1)
    ensures Search(message).Some? ==> |p.prompt| < |message|
  {
    match Search(message)
    case None => Parsed(message, 1)
    case Some(f) =>
      RemoveAllShrinks(message);
      Parsed(Strip(RemoveAll(message)), Clamp(f.occurrence.Value()))
  }

  /**
   CPython's default `sys.get_int_max_str_digits()` (Python 3.11 and later):
   `int()` refuses a decimal string with more digits than this.
   */
  const IntMaxStrDigits: nat := 4300

  /** The text of the `ValueError` that `int()` raises for a run of `n` digits (CPython 3.12 wording). */
  function IntLimitMessage(n: nat): string {
    "Exceeds the limit (" + DecimalString(IntMaxStrDigits) + " digits) for integer string conversion: value has "
    + DecimalString(n) + " digits; use sys.set_int_max_str_digits() to increase the limit"
  }

  /**
   The error `int(match.group(1))` raises before any cleaning: the leftmost
   directive's digit run is longer than `int()` accepts. Without a directive,
   or with a short enough run, the count is read and nothing is raised.
   */
  function CountError(message: string): (e: Option<string>)
    ensures e.Some? <==> Search(message).Some? && |Search(message).value.occurrence.digits| > IntMaxStrDigits
    ensures e.Some? ==> e.value == IntLimitMessage(|Search(message).value.occurrence.digits|)
  {
    match Search(message)
    case None => None
    case Some(f) =>
      if |f.occurrence.digits| > IntMaxStrDigits then Some(IntLimitMessage(|f.occurrence.digits|)) else None
  }

  /**
   The count is taken from the leftmost match alone: any match at `start` with
   no match before it decides the count, whatever follows.
   */
  lemma CountFromFirstDirective(message: string, start: nat, o: Occurrence)
    requires start <= |message| && MatchAt(message, start) == Some(o)
    requires forall j :: 0 <= j < start ==> MatchAt(message, j).None?
    ensures Parse(message).count == Clamp(o.Value())
    ensures Parse(message).prompt == Strip(RemoveAll(message))
  {
    hide MatchAt;
    SearchFromLeftmost(message, 0, start, o);
  }

  /** When the cleaned text holds no directive, parsing it again changes nothing. */
  lemma ParseIdempotentWhenClean(message: string)
    requires Search(Parse(message).prompt).None?
    ensures Parse(Parse(message).prompt) == Parsed(Parse(message).prompt, 1)
  {
    hide MatchAt;
  }

  /** The flag's only dashes are its first two characters. */
  lemma FlagDashes()
    ensures Flag[0] == '-' && Flag[1] == '-'
    ensures forall q :: 2 <= q < |Flag| ==> Flag[q] != '-'
  {
    assert Flag == "--" + "number_of_images";
    forall q | 2 <= q < |Flag|
      ensures Flag[q] != '-'
    {
      assert Flag[q] == "number_of_images"[q - 2];
    }
  }

  /** No match starts strictly inside a spelled-out flag. */
  lemma NoMatchInsideFlag(s: string, i: nat, q: nat)
    requires i + |Flag| <= |s| && s[i..i + |Flag|] == Flag && 0 < q < |Flag|
    ensures MatchAt(s, i + q).None?
  {
    hide MatchAt;
    FlagDashes();
    if q == 1 {
      assert s[i + 2] == s[i..i + |Flag|][2];
      NoMatchWithoutFlag(s, i + 1, 1);
    } else {
      assert s[i + q] == s[i..i + |Flag|][q];
      NoMatchWithoutFlag(s, i + q, 0);
    }
  }

  /** No match starts at a flag whose following spaces end in something other than `=`. */
  lemma NoMatchWithoutEquals(s: string, i: nat, j: nat)
    requires i + |Flag| <= j < |s| && s[i..i + |Flag|] == Flag
    requires forall p :: i + |Flag| <= p < j ==> IsSpace(s[p])
    requires !IsSpace(s[j]) && s[j] != '='
    ensures MatchAt(s, i).None?
  {
    SkipSpacesAt(s, i + |Flag|, j);
  }

  /** A message whose directive sits inside the spelling of another one. */
  const SplicedMessage: string := Flag + " " + Occurrence("", "", "1").Spelling() + " =5"

  /** What `re.sub` and `strip()` leave of `SplicedMessage`: again a directive. */
  const SplicedPrompt: string := Occurrence("  ", "", "5").Spelling()

  /** No match starts before the inner directive of the spliced message. */
  lemma SplicedNoEarlyMatch(s: string)
    requires s == SplicedMessage
    ensures forall p :: 0 <= p < |Flag| + 1 ==> MatchAt(s, p).None?
  {
    hide MatchAt;
    var f := |Flag|;
    assert s[..f] == Flag;
    assert s[f] == ' ' && s[f + 1] == '-';
    NoMatchWithoutEquals(s, 0, f + 1);
    forall p | 0 < p < f
      ensures MatchAt(s, p).None?
    {
      NoMatchInsideFlag(s, 0, p);
    }
    FlagDashes();
    NoMatchWithoutFlag(s, f, 0);
  }

  lemma SplicedSearch(s: string)
    requires s == SplicedMessage
    ensures Search(s) == Some(Found(|Flag| + 1, Occurrence("", "", "1")))
  {
    hide MatchAt;
    var o := Occurrence("", "", "1");
    var i := |Flag| + 1;
    SplicedNoEarlyMatch(s);
    assert s[i..i + |o.Spelling()|] == o.Spelling();
    assert s[i + |o.Spelling()|] == ' ';
    MatchAtExactly(s, i, o);
    SearchFromLeftmost(s, 0, i, o);
  }

  lemma SplicedPromptShape()
    ensures SplicedPrompt == Flag + "  =5"
  {
  }

  /** The tail ` =5` holds no match and is copied unchanged. */
  lemma SplicedTail(s: string, e: nat)
    requires e + 3 == |s| && s[e..] == " =5"
    ensures RemoveFrom(s, e) == " =5"
  {
    hide MatchAt;
    assert s[e] == s[e..][0] && s[e + 1] == s[e..][1] && s[e + 2] == s[e..][2];
    FlagDashes();
    NoMatchWithoutFlag(s, e, 0);
    NoMatchWithoutFlag(s, e + 1, 0);
    NoMatchWithoutFlag(s, e + 2, 0);
    RemoveFromCopies(s, e, |s|);
  }

  lemma SplicedRemoveAll(s: string)
    requires s == SplicedMessage
    ensures RemoveAll(s) == SplicedPrompt
  {
    hide MatchAt;
    var o := Occurrence("", "", "1");
    var i := |Flag| + 1;
    var e := i + |o.Spelling()|;
    SplicedSearch(s);
    RemoveFromCopies(s, 0, i);
    RemoveFromMatch(s, i, o);
    assert s[e..] == " =5";
    SplicedTail(s, e);
    assert s[..i] == Flag + " ";
    SplicedPromptShape();
  }

  lemma SplicedSecondSearch(t: string)
    requires t == SplicedPrompt
    ensures Search(t) == Some(Found(0, Occurrence("  ", "", "5")))
  {
    hide MatchAt;
    var o := Occurrence("  ", "", "5");
    assert o.WellFormed();
    assert t[0..|t|] == t;
    assert SpelledAt(t, 0, o) && DigitsMaximal(t, 0, o);
    MatchAtExactly(t, 0, o);
  }

  /**
   As written, deleting the matches can splice a new directive together: the
   message asks for one image, yet its cleaned prompt still holds a directive,
   and parsing that prompt again asks for four images and leaves nothing.
   */
  lemma ParseNotIdempotent(s: string)
    requires s == SplicedMessage
    ensures Parse(s) == Parsed(SplicedPrompt, 1)
    ensures Search(Parse(s).prompt).Some?
    ensures Parse(Parse(s).prompt) == Parsed("", 4)
  {
    hide MatchAt, SearchFrom, RemoveFrom, Strip, LeadingSpaces, TrailingSpaces;
    SplicedSearch(s);
    SplicedRemoveAll(s);
    var t := SplicedPrompt;
    assert t[0] == '-' && t[|t| - 1] == '5';
    StripTrimmed(t);
    SplicedReparse(t);
  }

  /** The spliced prompt is all directive: parsing it asks for five images, clamped to four, and leaves nothing. */
  lemma SplicedReparse(t: string)
    requires t == SplicedPrompt
    ensures Search(t).Some?
    ensures Parse(t) == Parsed("", 4)
  {
    hide MatchAt, SearchFrom, Strip, DigitsValue;
    var o := Occurrence("  ", "", "5");
    SplicedSecondSearch(t);
    RemoveFromMatch(t, 0, o);
    assert |o.Spelling()| == |t|;
    assert RemoveAll(t) == [];
    StripEmpty();
    DigitsValueSingle('5');
  }

  /** An occurrence spelled out inside an infix of `t` is spelled out in `t`. */
  lemma SpelledInInfix(t: string, a: nat, b: nat, j: nat, o: Occurrence)
    requires a <= b <= |t| && SpelledAt(t[a..b], j, o)
    ensures SpelledAt(t, a + j, o)
  {
    var n := |o.Spelling()|;
    var u := t[a..b];
    assert j + n <= |u| == b - a;
    assert u[j..j + n] == o.Spelling();
    forall k | 0 <= k < n
      ensures t[a + j..a + j + n][k] == o.Spelling()[k]
    {
      assert u[j..j + n][k] == u[j + k] == t[a + j + k];
    }
  }

  /** A match inside an infix of `t` is a match of `t` itself. */
  lemma MatchInInfix(t: string, a: nat, b: nat, j: nat)
    requires a <= b <= |t| && j <= b - a
    ensures MatchAt(t[a..b], j).Some? ==> MatchAt(t, a + j).Some?
  {
    hide MatchAt;
    var r := MatchAt(t[a..b], j);
    if r.Some? {
      InfixFinds(t, a, b, j, r.value);
    }
  }
  lemma InfixFinds(t: string, a: nat, b: nat, j: nat, o: Occurrence)
    requires a <= b <= |t| && o.WellFormed() && SpelledAt(t[a..b], j, o)
    ensures a + j <= |t| && MatchAt(t, a + j).Some?
  {
    hide MatchAt;
    SpelledInInfix(t, a, b, j, o);
    MatchAtFinds(t, a + j, o);
  }

  /** A directive-free string has no directive inside any of its slices. */
  lemma InfixKeepsNoDirective(t: string, a: nat, b: nat)
    requires a <= b <= |t| && Search(t).None?
    ensures Search(t[a..b]).None?
  {
    hide MatchAt;
    var u := t[a..b];
    forall j | 0 <= j <= |u|
      ensures MatchAt(u, j).None?
    {
      MatchInInfix(t, a, b, j);
    }
    SearchFromNone(u, 0);
  }

  /** Stripping whitespace cannot create a directive. */
  lemma StripKeepsNoDirective(t: string)
    requires Search(t).None?
    ensures Search(Strip(t)).None?
  {
    hide MatchAt, Search, SearchFrom, Strip, LeadingSpaces;
    var u := Strip(t);
    var a := LeadingSpaces(t);
    InfixKeepsNoDirective(t, a, a + |u|);
  }

  /**
   The deletion the parser evidently intends: repeat `re.sub` until no
   directive is left, so that no directive can be spliced together.
   */
  function RemoveAllRepeatedly(s: string): (r: string)
    ensures Search(r).None?
    ensures |r| <= |s|
    decreases |s|
  {
    match Search(s)
    case None => s
    case Some(_) =>
      RemoveAllShrinks(s);
      RemoveAllRepeatedly(RemoveAll(s))
  }

  /**
   The corrected parser: the same count, but the cleaned prompt is free of
   directives, so parsing it again changes nothing.
   */
  function ParseCorrected(message: string): (p: Parsed)
    ensures 1 <= p.count <= 4
    ensures Search(message).None? ==> p == Parsed(message, 1)
    ensures Search(p.prompt).None?
  {
    match Search(message)
    case None => Parsed(message, 1)
    case Some(f) =>
      var r := RemoveAllRepeatedly(message);
      StripKeepsNoDirective(r);
      Parsed(Strip(r), Clamp(f.occurrence.Value()))
  }

  /** The correction changes only the prompt: the count is the one the code as written reads. */
  lemma ParseCorrectedCount(message: string)
    ensures ParseCorrected(message).count == Parse(message).count
  {
    hide RemoveAllRepeatedly, RemoveFrom, Strip, MatchAt;
  }

  /** The corrected parser is idempotent, and the as-written parser accepts its output unchanged. */
  lemma ParseCorrectedIdempotent(message: string)
    ensures ParseCorrected(ParseCorrected(message).prompt) == Parsed(ParseCorrected(message).prompt, 1)
    ensures Parse(ParseCorrected(message).prompt) == Parsed(ParseCorrected(message).prompt, 1)
  {
    hide MatchAt;
  }

  /** Whenever `re.sub` leaves no directive behind, the corrected parser agrees with the code as written. */
  lemma ParseCorrectedAgrees(message: string)
    requires Search(RemoveAll(message)).None?
    ensures ParseCorrected(message) == Parse(message)
  {
    hide MatchAt;
    if Search(message).Some? {
      assert RemoveAllRepeatedly(message) == RemoveAll(message);
    }
  }
}
