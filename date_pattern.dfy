/** The creation-date pattern of `sp_to_ascii.py` written out by hand instead
    of through a regular-expression engine, Python's `re.search` over it, and
    the reformatting of a matched date.

    The pattern has two alternatives:
      word form   `[A-Za-z]{3} [A-Za-z]{3} \d{1,2} \d{2}:\d{2}:\d{2} \d{4}`
      slash form  `\d{1,2}/\d{1,2}/\d{4} \d{1,2}:\d{2}:\d{2} [AP]M`
    The first starts with a letter and the second with a digit, so at most
    one applies at a given offset. Every `\d{1,2}` is followed by a literal
    that is not a digit, so the greedy choice (two digits, else one) is the
    only one that can succeed and backtracking never picks differently: each
    alternative matches at most one text at each offset. The texts searched
    are ASCII, where `\d` is exactly `0-9`. */
module DatePattern {
  import opened Base
  import opened PyText

  predicate IsLetter(c: char) { 'A' <= c <= 'Z' || 'a' <= c <= 'z' }

  /** Three letters from offset `p` on (`[A-Za-z]{3}`). */
  predicate LettersAt(s: string, p: nat)
  {
    p + 3 <= |s| && IsLetter(s[p]) && IsLetter(s[p + 1]) && IsLetter(s[p + 2])
  }

  /** `n` digits from offset `p` on, for the runs of one to four digits the
      pattern uses. */
  predicate DigitsAt(s: string, p: nat, n: nat)
    requires 1 <= n <= 4
  {
    p + n <= |s| && IsDigit(s[p]) && (n < 2 || IsDigit(s[p + 1]))
    && (n < 3 || IsDigit(s[p + 2])) && (n < 4 || IsDigit(s[p + 3]))
  }

  predicate CharAt(s: string, p: nat, c: char) { p < |s| && s[p] == c }

  /** `\d{1,2}` then the non-digit `sep`, at offset `p`: the number of digits
      taken. */
  function DigitsThen(s: string, p: nat, sep: char): (d: Option<nat>)
    requires !IsDigit(sep)
    ensures d.Some? ==> (d.value == 1 || d.value == 2) && DigitsAt(s, p, d.value) && CharAt(s, p + d.value, sep)
    ensures d.None? ==> !(DigitsAt(s, p, 1) && CharAt(s, p + 1, sep)) && !(DigitsAt(s, p, 2) && CharAt(s, p + 2, sep))
  {
    if DigitsAt(s, p, 2) && CharAt(s, p + 2, sep) then Some(2)
    else if DigitsAt(s, p, 1) && CharAt(s, p + 1, sep) then Some(1)
    else None
  }

  /** `HH:MM:SS` from offset `t` on, the hour being exactly two digits. */
  predicate ClockAt(s: string, t: nat)
  {
    DigitsAt(s, t, 2) && CharAt(s, t + 2, ':') && DigitsAt(s, t + 3, 2) && CharAt(s, t + 5, ':') && DigitsAt(s, t + 6, 2)
  }

  /** Length of the word-form match at offset `p`, e.g. `Tue Jan 5 13:07:42 2021`. */
  function WordForm(s: string, p: nat): (n: Option<nat>)
    ensures n.Some? ==> p + n.value <= |s| && (n.value == 23 || n.value == 24)
  {
    if LettersAt(s, p) && CharAt(s, p + 3, ' ') && LettersAt(s, p + 4) && CharAt(s, p + 7, ' ') then
      match DigitsThen(s, p + 8, ' ')
      case None => None
      case Some(d) =>
        var t := p + 9 + d;
        if ClockAt(s, t) && CharAt(s, t + 8, ' ') && DigitsAt(s, t + 9, 4) then Some(22 + d) else None
    else None
  }

  /** Length of the slash-form match at offset `p`, e.g. `1/5/2021 1:07:42 PM`. */
  function SlashForm(s: string, p: nat): (n: Option<nat>)
    ensures n.Some? ==> p + n.value <= |s| && n.value >= 18
  {
    match DigitsThen(s, p, '/')
    case None => None
    case Some(d1) =>
      var p1 := p + d1 + 1;
      match DigitsThen(s, p1, '/')
      case None => None
      case Some(d2) =>
        var p2 := p1 + d2 + 1;
        if !(DigitsAt(s, p2, 4) && CharAt(s, p2 + 4, ' ')) then None
        else
          var p3 := p2 + 5;
          match DigitsThen(s, p3, ':')
          case None => None
          case Some(d3) =>
            var p4 := p3 + d3 + 1;
            if DigitsAt(s, p4, 2) && CharAt(s, p4 + 2, ':') && DigitsAt(s, p4 + 3, 2) && CharAt(s, p4 + 5, ' ')
               && (CharAt(s, p4 + 6, 'A') || CharAt(s, p4 + 6, 'P')) && CharAt(s, p4 + 7, 'M')
            then Some(p4 + 8 - p)
            else None
  }

  /** Length of the pattern's match at offset `p`: the word form is tried first. */
  function MatchAt(s: string, p: nat): (n: Option<nat>)
    ensures n.Some? ==> p + n.value <= |s| && n.value >= 18
  {
    if WordForm(s, p).Some? then WordForm(s, p) else SlashForm(s, p)
  }

  /** A match: its offset and its length (`match.start()` and the length
      of `match.group(0)`). */
  datatype Match = Match(start: nat, len: nat)

  /** The first entry of `ms` from `from` on that holds a match. */
  function FirstMatch(ms: seq<Option<nat>>, from: nat): (m: Option<Match>)
    ensures m.Some? ==> from <= m.value.start < |ms| && ms[m.value.start] == Some(m.value.len)
    decreases |ms| - from
  {
    if from >= |ms| then None
    else match ms[from]
      case Some(n) => Some(Match(from, n))
      case None => FirstMatch(ms, from + 1)
  }

  lemma {:induction false} FirstMatchLeftmost(ms: seq<Option<nat>>, from: nat)
    ensures FirstMatch(ms, from).Some? ==> forall p :: from <= p < FirstMatch(ms, from).value.start ==> ms[p].None?
    ensures FirstMatch(ms, from).None? ==> forall p :: from <= p < |ms| ==> ms[p].None?
    decreases |ms| - from
  {
    if from < |ms| && ms[from].None? {
      FirstMatchLeftmost(ms, from + 1);
    }
  }

  /** The match length at each offset of `s`, the end included. */
  function Matches(s: string): (ms: seq<Option<nat>>)
    ensures |ms| == |s| + 1 && forall p :: 0 <= p <= |s| ==> ms[p] == MatchAt(s, p)
  {
    seq(|s| + 1, (p: int) requires 0 <= p => MatchAt(s, p))
  }

  /** `re.search(pattern, s)`, looking at offsets from `from` on: the leftmost
      offset where the pattern matches, with the length of that match. */
  function Search(s: string, from: nat): (m: Option<Match>)
    ensures m.Some? ==> from <= m.value.start <= |s|
  {
    FirstMatch(Matches(s), from)
  }

  /** No match starts past the end. */
  lemma NoMatchPastEnd(s: string, p: nat)
    requires p > |s|
    ensures MatchAt(s, p).None?
  {
  }

  /** The match found is a match of the pattern, inside the text. */
  lemma SearchFinds(s: string, from: nat)
    ensures Search(s, from).Some? ==>
      var m := Search(s, from).value;
      MatchAt(s, m.start) == Some(m.len) && m.start + m.len <= |s| && m.len >= 18
  {
    if Search(s, from).Some? {
      assert Matches(s)[Search(s, from).value.start] == MatchAt(s, Search(s, from).value.start);
    }
  }

  /** The match found is the leftmost one; no match means none anywhere. */
  lemma SearchFindsLeftmost(s: string, from: nat)
    ensures Search(s, from).Some? ==> forall p :: from <= p < Search(s, from).value.start ==> MatchAt(s, p).None?
    ensures Search(s, from).None? ==> forall p :: from <= p ==> MatchAt(s, p).None?
  {
    var ms := Matches(s);
    FirstMatchLeftmost(ms, from);
    forall p | from <= p && (Search(s, from).Some? ==> p < Search(s, from).value.start)
      ensures MatchAt(s, p).None?
    {
      if p <= |s| {
        assert ms[p] == MatchAt(s, p);
      } else {
        NoMatchPastEnd(s, p);
      }
    }
  }

  /** The month-abbreviation table with its `'01'` default. */
  function MonthNumber(month: string): (mm: string)
    ensures |mm| == 2 && AllDigits(mm) && 1 <= DecimalValue(mm) <= 12
  {
    if |month| != 3 then "01"
    else match (month[0], month[1], month[2])
      case ('J', 'a', 'n') => "01"
      case ('F', 'e', 'b') => "02"
      case ('M', 'a', 'r') => "03"
      case ('A', 'p', 'r') => "04"
      case ('M', 'a', 'y') => "05"
      case ('J', 'u', 'n') => "06"
      case ('J', 'u', 'l') => "07"
      case ('A', 'u', 'g') => "08"
      case ('S', 'e', 'p') => "09"
      case ('O', 'c', 't') => "10"
      case ('N', 'o', 'v') => "11"
      case ('D', 'e', 'c') => "12"
      case _ => "01"
  }

  /** Lines 123-127: `month/day/year` from the first word, then time and
      period from splitting the second word on a blank. */
  function FormatSlash(parts: seq<string>): (r: Result<string, Exception>)
  {
    if |parts| == 0 then Failure(IndexError)
    else
      var mdy := SplitOn(parts[0], '/');
      if |mdy| != 3 then Failure(ValueError)
      else if |parts| < 2 then Failure(IndexError)
      else
        var tp := SplitOn(parts[1], ' ');
        if |tp| != 2 then Failure(ValueError)
        else Success(mdy[1] + "." + mdy[0] + "." + mdy[2] + " " + tp[0] + " " + tp[1])
  }

  /** Lines 130-132: weekday, month, day, time and year as words. */
  function FormatWords(parts: seq<string>): (r: Result<string, Exception>)
  {
    if |parts| < 5 then Failure(IndexError)
    else Success(parts[2] + "." + MonthNumber(parts[1]) + "." + parts[4] + " " + parts[3])
  }

  /** The reformatting of a matched date text (lines 123-133), with the
      exceptions Python raises: a text holding `/` is read as
      `month/day/year time period`, any other as `weekday month day time year`. */
  function FormatDate(m: string): (r: Result<string, Exception>)
  {
    if '/' in m then FormatSlash(Words(m)) else FormatWords(Words(m))
  }

  /** The slash branch can never complete: the second word of `split()` holds
      no blank, so splitting it on a blank yields one value, never the two
      that are unpacked. Every text holding `/` is a failure. */
  lemma SlashTextNeverFormats(m: string)
    requires '/' in m
    ensures FormatDate(m).Failure?
    ensures |Words(m)| >= 2 ==> FormatDate(m) == Failure(ValueError)
  {
    var parts := Words(m);
    WordsShape(m);
    if |parts| >= 2 {
      assert IsSpace(' ');
      assert ' ' !in parts[1];
      SplitOnNoSeparator(parts[1], ' ');
    }
  }

  /** Three letters are one word without `/`; so are runs of digits and a
      clock. */
  lemma LettersHaveNoSpace(s: string, p: nat)
    requires LettersAt(s, p)
    ensures NoSpace(s[p..p + 3]) && '/' !in s[p..p + 3]
  {
    var w := s[p..p + 3];
    assert w == [s[p], s[p + 1], s[p + 2]];
  }

  lemma DigitsHaveNoSpace(s: string, p: nat, n: nat)
    requires 1 <= n <= 4 && DigitsAt(s, p, n)
    ensures NoSpace(s[p..p + n]) && '/' !in s[p..p + n]
  {
    var w := s[p..p + n];
    forall i | 0 <= i < |w| ensures IsDigit(w[i]) {
      assert w[i] == s[p + i];
    }
  }

  lemma ClockHasNoSpace(s: string, t: nat)
    requires ClockAt(s, t)
    ensures NoSpace(s[t..t + 8]) && '/' !in s[t..t + 8]
  {
    DigitsHaveNoSpace(s, t, 2);
    DigitsHaveNoSpace(s, t + 3, 2);
    DigitsHaveNoSpace(s, t + 6, 2);
    assert s[t..t + 8] == s[t..t + 2] + [':'] + s[t + 3..t + 5] + [':'] + s[t + 6..t + 8];
  }

  /** The reformatted text of a word-form match of `d + 22` characters at
      `p`: the day as matched, the month number, the year and the time. */
  function Reformatted(s: string, p: nat, d: nat): string
    requires p + 22 + d <= |s|
  {
    s[p + 8..p + 8 + d] + "." + MonthNumber(s[p + 4..p + 7]) + "." + s[p + 18 + d..p + 22 + d] + " " + s[p + 9 + d..p + 17 + d]
  }

  /** A word-form match holds no `/`. */
  lemma WordFormHasNoSlash(s: string, p: nat)
    requires WordForm(s, p).Some?
    ensures '/' !in s[p..p + WordForm(s, p).value]
  {
    var n := WordForm(s, p).value;
    var d := n - 22;
    assert DigitsThen(s, p + 8, ' ') == Some(d);
    var w := s[p..p + n];
    forall i | 0 <= i < |w| ensures w[i] != '/' {
      assert w[i] == s[p + i];
      if i < 8 {
        assert i == 3 || i == 7 || IsLetter(s[p + i]);
      } else if i < 8 + d {
        assert IsDigit(s[p + i]);
      } else if 9 + d <= i < 17 + d {
        assert ClockAt(s, p + 9 + d);
        assert i == 11 + d || i == 14 + d || IsDigit(s[p + i]);
      } else if 18 + d <= i {
        assert IsDigit(s[p + i]);
      }
    }
  }

  /** The words of a word-form match are its five fields. */
  lemma WordFormWords(s: string, p: nat)
    requires WordForm(s, p).Some?
    ensures var n := WordForm(s, p).value; var d := n - 22;
      Words(s[p..p + n]) == [s[p..p + 3], s[p + 4..p + 7], s[p + 8..p + 8 + d], s[p + 9 + d..p + 17 + d], s[p + 18 + d..p + n]]
  {
    var n := WordForm(s, p).value;
    var d := n - 22;
    assert DigitsThen(s, p + 8, ' ') == Some(d);
    LettersHaveNoSpace(s, p);
    LettersHaveNoSpace(s, p + 4);
    DigitsHaveNoSpace(s, p + 8, d);
    ClockHasNoSpace(s, p + 9 + d);
    DigitsHaveNoSpace(s, p + 18 + d, 4);
    var q := p + n;
    JoinedFields(s, p, d, q);
    WordsOfJoin([s[p..p + 3], s[p + 4..p + 7], s[p + 8..p + 8 + d], s[p + 9 + d..p + 17 + d], s[p + 18 + d..q]]);
  }

  /** Five fields separated by single blanks at the word-form offsets are the
      slice they come from, joined back. */
  lemma JoinedFields(s: string, p: nat, d: nat, q: nat)
    requires 1 <= d <= 2 && q == p + 22 + d <= |s|
    requires s[p + 3] == ' ' && s[p + 7] == ' ' && s[p + 8 + d] == ' ' && s[p + 17 + d] == ' '
    ensures s[p..q] == Join([s[p..p + 3], s[p + 4..p + 7], s[p + 8..p + 8 + d], s[p + 9 + d..p + 17 + d], s[p + 18 + d..q]], ' ')
  {
    var fields := [s[p..p + 3], s[p + 4..p + 7], s[p + 8..p + 8 + d], s[p + 9 + d..p + 17 + d], s[p + 18 + d..q]];
    assert Join(fields[4..], ' ') == s[p + 18 + d..q];
    assert Join(fields[3..], ' ') == s[p + 9 + d..q];
    assert Join(fields[2..], ' ') == s[p + 8..q];
    assert Join(fields[1..], ' ') == s[p + 4..q];
  }

  /** A word-form match reformats to `day.MM.year time`: the day is copied
      as matched (one or two digits, not padded), the month goes through the
      table and the weekday is dropped. */
  lemma WordFormReformats(s: string, p: nat, n: nat)
    requires WordForm(s, p) == Some(n)
    ensures n >= 22 && FormatDate(s[p..p + n]) == Success(Reformatted(s, p, n - 22))
  {
    WordFormHasNoSlash(s, p);
    WordFormWords(s, p);
  }

  /** `month/day/year` is a single word. */
  lemma DateWordHasNoSpace(s: string, p: nat, d1: nat, d2: nat)
    requires 1 <= d1 <= 2 && 1 <= d2 <= 2
    requires DigitsAt(s, p, d1) && CharAt(s, p + d1, '/')
    requires DigitsAt(s, p + d1 + 1, d2) && CharAt(s, p + d1 + 1 + d2, '/')
    requires DigitsAt(s, p + d1 + d2 + 2, 4)
    ensures NoSpace(s[p..p + d1 + d2 + 6])
  {
    var w := s[p..p + d1 + d2 + 6];
    forall i | 0 <= i < |w| ensures !IsSpace(w[i]) {
      assert w[i] == s[p + i];
      if i != d1 && i != d1 + d2 + 1 {
        assert IsDigit(s[p + i]);
      }
    }
  }

  /** The blank after the year of a slash-form match: the text before it
      is one word holding a `/`, and a digit follows it. */
  lemma SlashFirstWord(s: string, p: nat) returns (j: nat, k: nat)
    requires SlashForm(s, p).Some?
    ensures j < k && k + 1 < SlashForm(s, p).value
    ensures s[p + j] == '/' && NoSpace(s[p..p + k]) && s[p + k] == ' ' && IsDigit(s[p + k + 1])
  {
    var d1 := DigitsThen(s, p, '/').value;
    var p1 := p + d1 + 1;
    var d2 := DigitsThen(s, p1, '/').value;
    var p2 := p1 + d2 + 1;
    assert DigitsAt(s, p2, 4) && CharAt(s, p2 + 4, ' ');
    assert DigitsThen(s, p2 + 5, ':').Some?;
    DateWordHasNoSpace(s, p, d1, d2);
    j, k := d1, p2 + 4 - p;
  }

  /** A slash-form match raises `ValueError`: it splits into at least two
      words, so the unpacking of the second word into time and period fails. */
  lemma SlashFormRaisesValueError(s: string, p: nat, n: nat)
    requires SlashForm(s, p) == Some(n)
    ensures FormatDate(s[p..p + n]) == Failure(ValueError)
  {
    var j, k := SlashFirstWord(s, p);
    var t := s[p..p + n];
    assert t[j] == '/' && t[..k] == s[p..p + k];
    assert t[k] == ' ' && t[k + 1] == s[p + k + 1];
    TwoWords(t, k);
    SlashTextNeverFormats(t);
  }

  /** Lines 121-133 once the search is done: `None` when nothing was found,
      otherwise the outcome of reformatting the matched text. */
  function ReformatMatch(w: string, found: Option<Match>): Option<Result<string, Exception>>
    requires found.Some? ==> found.value.start + found.value.len <= |w|
  {
    match found
    case None => None
    case Some(m) => Some(FormatDate(w[m.start..m.start + m.len]))
  }

  /** Lines 120-133 on a window: the leftmost match, reformatted. */
  function ReformatFirst(w: string): Option<Result<string, Exception>>
  {
    SearchFinds(w, 0);
    ReformatMatch(w, Search(w, 0))
  }

  /** A word-form match is stored reformatted. */
  lemma ReformatWordMatch(w: string, m: Match)
    requires MatchAt(w, m.start) == Some(m.len) && WordForm(w, m.start).Some?
    ensures m.start + m.len <= |w| && m.len >= 22
    ensures ReformatMatch(w, Some(m)) == Some(Success(Reformatted(w, m.start, m.len - 22)))
  {
    WordFormReformats(w, m.start, m.len);
  }

  /** A slash-form match raises `ValueError`. */
  lemma ReformatSlashMatch(w: string, m: Match)
    requires MatchAt(w, m.start) == Some(m.len) && WordForm(w, m.start).None?
    ensures m.start + m.len <= |w|
    ensures ReformatMatch(w, Some(m)) == Some(Failure(ValueError))
  {
    SlashFormRaisesValueError(w, m.start, m.len);
  }

  /** `1/5/2021 1:07:42 PM` matches the slash form and its reformatting
      raises `ValueError`. */
  lemma SlashFormExample(s: string)
    requires s == "1/5/2021 1:07:42 PM"
    ensures MatchAt(s, 0) == Some(19)
    ensures FormatDate(s) == Failure(ValueError)
  {
    assert !IsLetter(s[0]);
    assert DigitsThen(s, 0, '/') == Some(1);
    assert DigitsThen(s, 2, '/') == Some(1);
    assert DigitsAt(s, 4, 4) && CharAt(s, 8, ' ');
    assert DigitsThen(s, 9, ':') == Some(1);
    assert WordForm(s, 0).None?;
    SlashFormRaisesValueError(s, 0, 19);
    assert s[0..19] == s;
  }
}
