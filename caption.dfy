/**
  Reading a day table's caption (capacity.py, lines 28-59): the date found by the
  pattern `(\d{1,2})\.\s*(\d{1,2})\.\s*(\d{4})`, reformatted as `DD.MM.YYYY`, and the
  weekday found by the pattern `–\s*(\w+)`, translated from Czech to English.

  Each pattern is modelled twice: as the relation "the pattern matches at position i"
  (the ghost predicates below) and as the deterministic scanner the extractor uses;
  lemmas show the scanner finds exactly the match Python's `re.search` reports.
 */
module Caption {

  import opened Wrappers
  import opened Text

  /** The three groups of the date pattern: day, month and year, as written. */
  datatype DateGroups = DateGroups(day: string, month: string, year: string)

  predicate WellFormed(g: DateGroups) {
    1 <= |g.day| <= 2 && AllDigits(g.day)
    && 1 <= |g.month| <= 2 && AllDigits(g.month)
    && |g.year| == 4 && AllDigits(g.year)
  }

  /**
    Where a match of the date pattern puts its groups: the day group starts at
    `start`, the month group at `monthAt`, the four-digit year group at `yearAt`.
   */
  datatype DateMatch = DateMatch(start: nat, dayLen: nat, monthAt: nat, monthLen: nat, yearAt: nat)

  /** The groups of a match lie inside the text, in order, and hold the right digits. */
  predicate GroupsInside(s: string, m: DateMatch) {
    1 <= m.dayLen <= 2 && 1 <= m.monthLen <= 2
    && m.start + m.dayLen < m.monthAt && m.monthAt + m.monthLen < m.yearAt && m.yearAt + 4 <= |s|
    && DigitsIn(s, m.start, m.start + m.dayLen) && DigitsIn(s, m.monthAt, m.monthAt + m.monthLen)
    && DigitsIn(s, m.yearAt, m.yearAt + 4)
  }

  /** `match.groups()`: the text of the three groups. */
  function Groups(s: string, m: DateMatch): (g: DateGroups)
    requires GroupsInside(s, m)
    ensures WellFormed(g)
  {
    DateGroups(s[m.start..m.start + m.dayLen], s[m.monthAt..m.monthAt + m.monthLen], s[m.yearAt..m.yearAt + 4])
  }

  /**
    `\d{1,2}\.` tried at `i`: the number of digits before the dot. A greedy `\d{1,2}`
    is the only choice that can succeed, since a shorter one leaves a digit where the
    dot is required.
   */
  function NumberDotAt(s: string, i: nat): (n: Option<nat>)
    requires i <= |s|
    ensures n.Some? ==> 1 <= n.value <= 2 && i + n.value < |s|
                        && DigitsIn(s, i, i + n.value) && s[i + n.value] == '.'
  {
    if i + 1 < |s| && IsDigit(s[i]) && s[i + 1] == '.' then Some(1)
    else if i + 2 < |s| && IsDigit(s[i]) && IsDigit(s[i + 1]) && s[i + 2] == '.' then Some(2)
    else None
  }

  /**
    The date pattern `(\d{1,2})\.\s*(\d{1,2})\.\s*(\d{4})` matches at `i` with a day of
    `dl` digits, `w1` blanks after the first dot, a month of `ml` digits and `w2`
    blanks after the second dot.
   */
  ghost predicate DatePatternAt(s: string, i: nat, dl: nat, w1: nat, ml: nat, w2: nat) {
    var p := i + dl;
    var q := p + 1 + w1;
    var r := q + ml;
    var t := r + 1 + w2;
    1 <= dl <= 2 && 1 <= ml <= 2 && t + 4 <= |s|
    && DigitsIn(s, i, p) && s[p] == '.' && SpacesIn(s, p + 1, q)
    && DigitsIn(s, q, r) && s[r] == '.' && SpacesIn(s, r + 1, t)
    && DigitsIn(s, t, t + 4)
  }

  /** Where a match of the date pattern with those lengths puts its groups. */
  function PatternMatch(i: nat, dl: nat, w1: nat, ml: nat, w2: nat): DateMatch {
    var q := i + dl + 1 + w1;
    DateMatch(i, dl, q, ml, q + ml + 1 + w2)
  }

  /** The date pattern tried at position `i` alone. */
  function DateAt(s: string, i: nat): (r: Option<DateMatch>)
    requires i <= |s|
    ensures r.Some? ==> r.value.start == i && GroupsInside(s, r.value)
  {
    match NumberDotAt(s, i)
    case None => None
    case Some(dl) =>
      var q := i + dl + 1 + SpacesFrom(s, i + dl + 1);
      match NumberDotAt(s, q)
      case None => None
      case Some(ml) =>
        var t := q + ml + 1 + SpacesFrom(s, q + ml + 1);
        if t + 4 <= |s| && DigitsIn(s, t, t + 4) then Some(DateMatch(i, dl, q, ml, t)) else None
  }

  /**
    Every match of the date pattern at `i` is the one the scanner finds: the pattern
    admits at most one match per position (a shorter `\d{1,2}` or `\s*` would leave a
    digit or a blank where a dot or a digit is required).
   */
  lemma DateAtComplete(s: string, i: nat, dl: nat, w1: nat, ml: nat, w2: nat)
    requires DatePatternAt(s, i, dl, w1, ml, w2)
    ensures DateAt(s, i) == Some(PatternMatch(i, dl, w1, ml, w2))
  {
    var q := i + dl + 1 + w1;
    var t := q + ml + 1 + w2;
    NumberDotAtExact(s, i, dl);
    BlanksBeforeDigit(s, i + dl + 1, w1);
    NumberDotAtExact(s, q, ml);
    BlanksBeforeDigit(s, q + ml + 1, w2);
    DateAtFound(s, i, dl, ml);
  }

  /** The scanner at `i` once both numbers have been found: the year must follow the blanks. */
  lemma DateAtFound(s: string, i: nat, dl: nat, ml: nat)
    requires i <= |s| && NumberDotAt(s, i) == Some(dl)
    requires var q := i + dl + 1 + SpacesFrom(s, i + dl + 1); NumberDotAt(s, q) == Some(ml)
    ensures var q := i + dl + 1 + SpacesFrom(s, i + dl + 1);
            var t := q + ml + 1 + SpacesFrom(s, q + ml + 1);
            DateAt(s, i) == if t + 4 <= |s| && DigitsIn(s, t, t + 4) then Some(DateMatch(i, dl, q, ml, t)) else None
  {
  }

  /** `\d{1,2}\.` finds exactly the digits in front of the dot. */
  lemma NumberDotAtExact(s: string, i: nat, n: nat)
    requires 1 <= n <= 2 && i + n < |s| && DigitsIn(s, i, i + n) && s[i + n] == '.'
    ensures NumberDotAt(s, i) == Some(n)
  {
    assert IsDigit(s[i]);
    if n == 2 {
      assert IsDigit(s[i + 1]);
    }
  }

  /** A greedy `\s*` in front of a digit takes exactly the blanks up to it. */
  lemma BlanksBeforeDigit(s: string, i: nat, w: nat)
    requires SpacesIn(s, i, i + w) && i + w < |s| && IsDigit(s[i + w])
    ensures SpacesFrom(s, i) == w
  {
    DigitIsNotSpace(s[i + w]);
    SpacesFromExact(s, i, w);
  }

  /** Whatever the scanner finds at `i` is a match of the date pattern there. */
  lemma DateAtSound(s: string, i: nat)
    requires i <= |s| && DateAt(s, i).Some?
    ensures exists dl, w1, ml, w2 :: DatePatternAt(s, i, dl, w1, ml, w2)
                                   && DateAt(s, i).value == PatternMatch(i, dl, w1, ml, w2)
  {
    var dl := NumberDotAt(s, i).value;
    var w1 := SpacesFrom(s, i + dl + 1);
    var ml := NumberDotAt(s, i + dl + 1 + w1).value;
    var w2 := SpacesFrom(s, i + dl + 1 + w1 + ml + 1);
    SpacesFromRun(s, i + dl + 1);
    SpacesFromRun(s, i + dl + 1 + w1 + ml + 1);
    assert DatePatternAt(s, i, dl, w1, ml, w2);
  }

  /** `re.search` with the date pattern from `from` on: the leftmost position where it matches. */
  function SearchDate(s: string, from: nat): (pos: Option<nat>)
    requires from <= |s|
    ensures pos.Some? ==> from <= pos.value <= |s| && DateAt(s, pos.value).Some?
    decreases |s| - from
  {
    if DateAt(s, from).Some? then Some(from)
    else if from == |s| then None
    else SearchDate(s, from + 1)
  }

  /**
    `SearchDate` reports the leftmost position from `from` on where the date pattern
    matches, and reports nothing only when it matches nowhere.
   */
  lemma {:induction false} SearchDateLeftmost(s: string, from: nat)
    requires from <= |s|
    ensures var pos := SearchDate(s, from);
            && (pos.Some? ==> forall j :: from <= j < pos.value ==> DateAt(s, j).None?)
            && (pos.None? ==> forall j :: from <= j <= |s| ==> DateAt(s, j).None?)
    decreases |s| - from
  {
    if DateAt(s, from).None? && from < |s| {
      SearchDateLeftmost(s, from + 1);
    }
  }

  /** `f"{int(day):02d}.{int(month):02d}.{year}"`. */
  function FormatDate(g: DateGroups): (r: string)
    requires WellFormed(g)
  {
    assert Pow10(2) == 100;
    ZeroPad2(ParseNat(g.day)) + "." + ZeroPad2(ParseNat(g.month)) + "." + g.year
  }

  /**
    The date field is `DD.MM.YYYY`: day and month each left-padded with a zero to two
    digits, then the year exactly as captured.
   */
  lemma FormatDateShape(g: DateGroups)
    requires WellFormed(g)
    ensures var r := FormatDate(g);
            |r| == 10 && r[2] == '.' && r[5] == '.'
            && r[..2] == (if |g.day| == 1 then ['0'] + g.day else g.day)
            && r[3..5] == (if |g.month| == 1 then ['0'] + g.month else g.month)
            && r[6..] == g.year
  {
    ZeroPad2OfDigits(g.day);
    ZeroPad2OfDigits(g.month);
    DottedParts(ZeroPad2(ParseNat(g.day)), ZeroPad2(ParseNat(g.month)), g.year);
  }

  /** Where the pieces of `a.b.c` sit when `a` and `b` have two characters each. */
  lemma DottedParts(a: string, b: string, c: string)
    requires |a| == 2 && |b| == 2
    ensures var r := a + "." + b + "." + c;
            |r| == 6 + |c| && r[2] == '.' && r[5] == '.' && r[..2] == a && r[3..5] == b && r[6..] == c
  {
    var r := a + "." + b + "." + c;
    assert r[..2] == a;
    assert r[3..5] == b;
    assert r[6..] == c;
  }

  const EnDash: char := '\U{2013}'

  /**
    The weekday pattern matches at `i`, with `w` blanks after the dash and the group
    `\w+` taking `n` word characters.
   */
  ghost predicate WeekdayPatternAt(s: string, i: nat, w: nat, n: nat) {
    var j := i + 1 + w;
    i < |s| && s[i] == EnDash && SpacesIn(s, i + 1, j) && 1 <= n && WordCharsIn(s, j, j + n)
  }

  /** Where a match of the weekday pattern puts its group `(\w+)`. */
  datatype WordMatch = WordMatch(groupAt: nat, groupLen: nat)

  /** `match.group(1)` of a weekday match. */
  function WordGroup(s: string, m: WordMatch): string
    requires m.groupAt + m.groupLen <= |s|
  {
    s[m.groupAt..m.groupAt + m.groupLen]
  }

  /** The weekday pattern tried at position `i` alone, with a greedy `\w+`. */
  function WeekdayAt(s: string, i: nat): (r: Option<WordMatch>)
    requires i <= |s|
    ensures r.Some? ==> i < r.value.groupAt && 1 <= r.value.groupLen && r.value.groupAt + r.value.groupLen <= |s|
  {
    if i < |s| && s[i] == EnDash then
      var j := i + 1 + SpacesFrom(s, i + 1);
      var n := WordCharsFrom(s, j);
      if n > 0 then Some(WordMatch(j, n)) else None
    else None
  }

  /**
    If the weekday pattern matches at `i` at all, the scanner finds a match whose
    group starts at the same place and is at least as long, and that group cannot be
    extended: it is the greedy match `re.search` reports.
   */
  lemma WeekdayAtComplete(s: string, i: nat, w: nat, n: nat)
    requires WeekdayPatternAt(s, i, w, n)
    ensures WeekdayAt(s, i).Some?
    ensures var m := WeekdayAt(s, i).value;
            m.groupAt == i + 1 + w && n <= m.groupLen && WeekdayPatternAt(s, i, w, m.groupLen)
            && (m.groupAt + m.groupLen == |s| || !IsWordChar(s[m.groupAt + m.groupLen]))
  {
    var j := i + 1 + w;
    assert SpacesFrom(s, i + 1) == w by {
      WordCharIsNotSpace(s[j]);
      SpacesFromExact(s, i + 1, w);
    }
    WordCharsFromRun(s, j);
    WordCharsFromLongest(s, j, n);
  }

  /** Whatever the scanner finds at `i` is a match of the weekday pattern there. */
  lemma WeekdayAtSound(s: string, i: nat)
    requires i <= |s| && WeekdayAt(s, i).Some?
    ensures exists w, n :: WeekdayPatternAt(s, i, w, n) && WeekdayAt(s, i).value == WordMatch(i + 1 + w, n)
  {
    var w := SpacesFrom(s, i + 1);
    var n := WordCharsFrom(s, i + 1 + w);
    SpacesFromRun(s, i + 1);
    WordCharsFromRun(s, i + 1 + w);
    assert WeekdayPatternAt(s, i, w, n);
  }

  /** `re.search` with the weekday pattern from `from` on: the leftmost position where it matches. */
  function SearchWeekday(s: string, from: nat): (pos: Option<nat>)
    requires from <= |s|
    ensures pos.Some? ==> from <= pos.value <= |s| && WeekdayAt(s, pos.value).Some?
    decreases |s| - from
  {
    if WeekdayAt(s, from).Some? then Some(from)
    else if from == |s| then None
    else SearchWeekday(s, from + 1)
  }

  /**
    `SearchWeekday` reports the leftmost position from `from` on where the weekday
    pattern matches, and reports nothing only when it matches nowhere.
   */
  lemma {:induction false} SearchWeekdayLeftmost(s: string, from: nat)
    requires from <= |s|
    ensures var pos := SearchWeekday(s, from);
            && (pos.Some? ==> forall j :: from <= j < pos.value ==> WeekdayAt(s, j).None?)
            && (pos.None? ==> forall j :: from <= j <= |s| ==> WeekdayAt(s, j).None?)
    decreases |s| - from
  {
    if WeekdayAt(s, from).None? && from < |s| {
      SearchWeekdayLeftmost(s, from + 1);
    }
  }

  /** `day_translations`: the Czech weekday names and their English names. */
  const DayTranslations: map<string, string> := map[
    "Pond\U{11B}l\U{ED}" := "Monday",
    "\U{DA}ter\U{FD}" := "Tuesday",
    "St\U{159}eda" := "Wednesday",
    "\U{10C}tvrtek" := "Thursday",
    "P\U{E1}tek" := "Friday",
    "Sobota" := "Saturday",
    "Ned\U{11B}le" := "Sunday"
  ]

  /** `day_translations.get(token, token)`. */
  function Translate(token: string): string {
    if token in DayTranslations then DayTranslations[token] else token
  }

  /** The weekend test on the translated name (capacity.py, line 74). */
  predicate IsWeekend(dayOfWeek: string) {
    dayOfWeek == "Saturday" || dayOfWeek == "Sunday"
  }

  /**
    The seven Czech names become their English names; every other token, the
    English names and the empty string included, is kept as it is.
   */
  lemma TranslateTable(token: string)
    ensures Translate("Pond\U{11B}l\U{ED}") == "Monday" && Translate("\U{DA}ter\U{FD}") == "Tuesday"
    ensures Translate("St\U{159}eda") == "Wednesday" && Translate("\U{10C}tvrtek") == "Thursday"
    ensures Translate("P\U{E1}tek") == "Friday" && Translate("Sobota") == "Saturday"
    ensures Translate("Ned\U{11B}le") == "Sunday"
    ensures token !in DayTranslations ==> Translate(token) == token
    ensures Translate("") == ""
  {
  }

  /**
    A day counts as a weekend day exactly when its token is "Sobota" or "Neděle", or
    already reads "Saturday" or "Sunday" (such a token passes through untranslated).
   */
  lemma WeekendIff(token: string)
    ensures IsWeekend(Translate(token)) <==>
            token == "Sobota" || token == "Ned\U{11B}le" || token == "Saturday" || token == "Sunday"
  {
    if token in DayTranslations {
      assert token in {"Pond\U{11B}l\U{ED}", "\U{DA}ter\U{FD}", "St\U{159}eda", "\U{10C}tvrtek",
                       "P\U{E1}tek", "Sobota", "Ned\U{11B}le"};
    }
  }
}
