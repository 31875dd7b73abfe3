/** The few pieces of Python's `str` that the decoder relies on:
    `s.split(sep)`, `s.split()` and the decimal rendering of an integer. */
module PyText {

  /** Python's `str.isspace()` for one character. */
  predicate IsSpace(c: char)
  {
    c == ' ' || ('\U{9}' <= c <= '\U{D}') || ('\U{1C}' <= c <= '\U{1F}')
    || c == '\U{85}' || c == '\U{A0}' || c == '\U{1680}' || ('\U{2000}' <= c <= '\U{200A}')
    || c == '\U{2028}' || c == '\U{2029}' || c == '\U{202F}' || c == '\U{205F}' || c == '\U{3000}'
  }

  predicate NoSpace(s: string)
  {
    forall i :: 0 <= i < |s| ==> !IsSpace(s[i])
  }

  /** The pieces joined back with `sep` between them: `sep.join(parts)`. */
  function Join(parts: seq<string>, sep: char): string
  {
    if parts == [] then ""
    else if |parts| == 1 then parts[0]
    else parts[0] + [sep] + Join(parts[1..], sep)
  }

  /** `s.split(sep)` for a one-character separator: never empty. */
  function SplitOn(s: string, sep: char): (parts: seq<string>)
    ensures |parts| >= 1
    decreases |s|
  {
    if s == [] then [""]
    else if s[0] == sep then [""] + SplitOn(s[1..], sep)
    else
      var rest := SplitOn(s[1..], sep);
      [[s[0]] + rest[0]] + rest[1..]
  }

  /** No piece holds the separator, and joining the pieces gives `s` back. */
  lemma {:induction false} SplitOnShape(s: string, sep: char)
    ensures forall i :: 0 <= i < |SplitOn(s, sep)| ==> sep !in SplitOn(s, sep)[i]
    ensures Join(SplitOn(s, sep), sep) == s
    decreases |s|
  {
    if s != [] {
      SplitOnShape(s[1..], sep);
      var rest := SplitOn(s[1..], sep);
      var parts := SplitOn(s, sep);
      if s[0] == sep {
        assert parts == [""] + rest;
        assert parts[1..] == rest;
        assert Join(parts, sep) == "" + [sep] + Join(rest, sep);
        forall i | 0 <= i < |parts| ensures sep !in parts[i] {
          if i > 0 { assert parts[i] == rest[i - 1]; }
        }
      } else {
        var head := [s[0]] + rest[0];
        assert parts == [head] + rest[1..];
        assert sep !in rest[0];
        forall i | 0 <= i < |parts| ensures sep !in parts[i] {
          if i > 0 { assert parts[i] == rest[i]; }
        }
        if |rest| == 1 {
          assert Join(parts, sep) == head;
        } else {
          assert parts[1..] == rest[1..];
          assert Join(rest, sep) == rest[0] + [sep] + Join(rest[1..], sep);
          assert Join(parts, sep) == head + [sep] + Join(rest[1..], sep);
        }
      }
    }
  }

  /** Text without the separator is a single piece. */
  lemma {:induction false} SplitOnNoSeparator(s: string, sep: char)
    requires sep !in s
    ensures SplitOn(s, sep) == [s]
    decreases |s|
  {
    if s != [] {
      assert s[0] != sep && sep !in s[1..];
      SplitOnNoSeparator(s[1..], sep);
      assert [s[0]] + s[1..] == s;
    }
  }

  /** Splitting a joined sequence recovers the pieces, when no piece holds
      the separator. */
  lemma {:induction false} SplitOnJoin(parts: seq<string>, sep: char)
    requires |parts| >= 1
    requires forall i :: 0 <= i < |parts| ==> sep !in parts[i]
    ensures SplitOn(Join(parts, sep), sep) == parts
    decreases parts
  {
    if |parts| == 1 {
      SplitOnNoSeparator(parts[0], sep);
    } else {
      SplitOnJoin(parts[1..], sep);
      SplitOnPrefix(parts[0], Join(parts[1..], sep), sep);
    }
  }

  /** A separator-free head followed by the separator splits off as the first piece. */
  lemma {:induction false} SplitOnPrefix(head: string, tail: string, sep: char)
    requires sep !in head
    ensures SplitOn(head + [sep] + tail, sep) == [head] + SplitOn(tail, sep)
    decreases |head|
  {
    if head == [] {
      assert head + [sep] + tail == [sep] + tail;
      assert ([sep] + tail)[1..] == tail;
    } else {
      assert (head + [sep] + tail)[1..] == head[1..] + [sep] + tail;
      SplitOnPrefix(head[1..], tail, sep);
      assert [head[0]] + head[1..] == head;
    }
  }

  /** The first piece of `s.split(sep)` is the longest separator-free prefix of `s`. */
  lemma {:induction false} FirstPieceIsPrefix(s: string, sep: char)
    ensures SplitOn(s, sep)[0] <= s
    ensures sep !in SplitOn(s, sep)[0]
    ensures |SplitOn(s, sep)[0]| < |s| ==> s[|SplitOn(s, sep)[0]|] == sep
    decreases |s|
  {
    if s != [] && s[0] != sep {
      FirstPieceIsPrefix(s[1..], sep);
    }
  }

  /** `s.split()` with no argument: the maximal runs of non-whitespace. */
  function Words(s: string): (words: seq<string>)
    ensures s != [] && !IsSpace(s[0]) ==> |words| >= 1
    decreases |s|
  {
    if s == [] then []
    else if IsSpace(s[0]) then Words(s[1..])
    else
      var rest := Words(s[1..]);
      if |s| == 1 || IsSpace(s[1]) then [[s[0]]] + rest
      else
        assert |rest| >= 1;
        [[s[0]] + rest[0]] + rest[1..]
  }

  /** The words are non-empty and free of whitespace, and a text that starts
      with a non-blank starts its first word. */
  lemma {:induction false} WordsShape(s: string)
    ensures forall i :: 0 <= i < |Words(s)| ==> Words(s)[i] != [] && NoSpace(Words(s)[i])
    ensures s != [] && !IsSpace(s[0]) ==> Words(s)[0][0] == s[0]
    decreases |s|
  {
    if s != [] {
      WordsShape(s[1..]);
      var rest := Words(s[1..]);
      if !IsSpace(s[0]) && !(|s| == 1 || IsSpace(s[1])) {
        var w := Words(s);
        assert w == [[s[0]] + rest[0]] + rest[1..];
        forall i | 0 <= i < |w| ensures w[i] != [] && NoSpace(w[i]) {
          if i == 0 {
            assert NoSpace(rest[0]);
          } else {
            assert w[i] == rest[i];
          }
        }
      } else if !IsSpace(s[0]) {
        var w := Words(s);
        assert w == [[s[0]]] + rest;
        forall i | 0 <= i < |w| ensures w[i] != [] && NoSpace(w[i]) {
          if i > 0 {
            assert w[i] == rest[i - 1];
          }
        }
      }
    }
  }

  /** A word with no whitespace is split off as it stands. */
  lemma {:induction false} WordsSingle(w: string)
    requires w != [] && NoSpace(w)
    ensures Words(w) == [w]
    decreases |w|
  {
    if |w| == 1 {
      assert w == [w[0]];
    } else {
      assert !IsSpace(w[1]);
      WordsSingle(w[1..]);
      assert [w[0]] + w[1..] == w;
    }
  }

  /** A word, one blank, then the rest: the word comes first. */
  lemma {:induction false} WordsCons(w: string, rest: string)
    requires w != [] && NoSpace(w)
    ensures Words(w + " " + rest) == [w] + Words(rest)
    decreases |w|
  {
    var s := w + " " + rest;
    assert s[0] == w[0] && !IsSpace(s[0]);
    if |w| == 1 {
      assert s[1..] == " " + rest;
      assert IsSpace(s[1]);
      assert Words(s[1..]) == Words(rest);
      assert w == [w[0]];
    } else {
      assert s[1..] == w[1..] + " " + rest;
      assert s[1] == w[1] && !IsSpace(s[1]);
      WordsCons(w[1..], rest);
      assert [w[0]] + w[1..] == w;
    }
  }

  /** Non-blank words joined by single blanks split back into those words:
      `' '.join(ws).split() == ws`. */
  lemma {:induction false} WordsOfJoin(ws: seq<string>)
    requires forall i :: 0 <= i < |ws| ==> ws[i] != [] && NoSpace(ws[i])
    ensures Words(Join(ws, ' ')) == ws
  {
    if |ws| == 1 {
      WordsSingle(ws[0]);
    } else if |ws| > 1 {
      WordsOfJoin(ws[1..]);
      WordsCons(ws[0], Join(ws[1..], ' '));
    }
  }

  /** A text with a non-blank word, a blank, then a non-blank has at least
      two words. */
  lemma TwoWords(t: string, k: nat)
    requires 0 < k && k + 1 < |t| && NoSpace(t[..k]) && t[k] == ' ' && !IsSpace(t[k + 1])
    ensures |Words(t)| >= 2
  {
    var rest := t[k + 1..];
    assert t == t[..k] + " " + rest;
    WordsCons(t[..k], rest);
    assert rest[0] == t[k + 1];
  }

  predicate IsDigit(c: char) { '0' <= c <= '9' }

  predicate AllDigits(s: string) { forall i :: 0 <= i < |s| ==> IsDigit(s[i]) }

  function DigitChar(d: nat): (c: char)
    requires d < 10
    ensures IsDigit(c) && c as int - '0' as int == d
  {
    (d + '0' as int) as char
  }

  /** The number a string of decimal digits denotes, as `int(s)` reads it. */
  function DecimalValue(s: string): nat
    requires AllDigits(s)
  {
    if s == [] then 0
    else 10 * DecimalValue(s[..|s| - 1]) + (s[|s| - 1] as int - '0' as int)
  }

  /** `f"{n:.0f}"` for a non-negative integer: plain decimal digits, no
      leading zero unless the number is zero, and `int(...)` reads back `n`. */
  function DecimalText(n: nat): (s: string)
    ensures |s| >= 1 && AllDigits(s)
    ensures s[0] == '0' <==> n == 0
    ensures DecimalValue(s) == n
    decreases n
  {
    if n < 10 then [DigitChar(n)]
    else
      var s := DecimalText(n / 10) + [DigitChar(n % 10)];
      assert s[..|s| - 1] == DecimalText(n / 10);
      s
  }
}
