/** The few string operations of Python's `str` that the bot relies on:
    `lower()` (restricted to ASCII), `split(',')`, `strip(' ')`, and the
    conversions between a decimal numeral and its value (`int(...)` and `str(...)`). */
module Text {

  /** ASCII upper-case letters are mapped to lower case; every other character is kept. */
  function LowerChar(c: char): char
  {
    if 'A' <= c <= 'Z' then (c as int + 32) as char else c
  }

  function Lower(s: string): (r: string)
    ensures |r| == |s|
    ensures forall i :: 0 <= i < |s| ==> r[i] == LowerChar(s[i])
  {
    if |s| == 0 then "" else [LowerChar(s[0])] + Lower(s[1..])
  }

  /** Lower-casing twice is lower-casing once. */
  lemma LowerIdempotent(s: string)
    ensures Lower(Lower(s)) == Lower(s)
  {
  }

  /** Number of occurrences of `c` in `s`. */
  function Count(s: string, c: char): nat
  {
    if |s| == 0 then 0 else (if s[0] == c then 1 else 0) + Count(s[1..], c)
  }

  /** `s.split(sep)` for a one-character separator: the pieces between separators,
      in order; an empty string gives one empty piece. */
  function Split(s: string, sep: char): (r: seq<string>)
    ensures |r| == Count(s, sep) + 1
    ensures forall k :: 0 <= k < |r| ==> sep !in r[k]
  {
    if |s| == 0 then [""]
    else
      var rest := Split(s[1..], sep);
      if s[0] == sep then [""] + rest
      else [[s[0]] + rest[0]] + rest[1..]
  }

  /** `sep.join(parts)`. */
  function Join(parts: seq<string>, sep: char): string
  {
    if |parts| == 0 then ""
    else if |parts| == 1 then parts[0]
    else parts[0] + [sep] + Join(parts[1..], sep)
  }

  /** Joining the pieces again gives back the original string. */
  lemma {:induction false} JoinSplit(s: string, sep: char)
    ensures Join(Split(s, sep), sep) == s
  {
    if |s| > 0 {
      var rest := Split(s[1..], sep);
      JoinSplit(s[1..], sep);
      if s[0] == sep {
        assert Split(s, sep) == [""] + rest;
        assert s == [sep] + s[1..];
      } else {
        assert Split(s, sep) == [[s[0]] + rest[0]] + rest[1..];
        if |rest| == 1 {
          assert Join(rest, sep) == rest[0];
        } else {
          assert Join(rest, sep) == rest[0] + [sep] + Join(rest[1..], sep);
        }
        assert s == [s[0]] + s[1..];
      }
    }
  }

  lemma {:induction false} SplitOfPieceFree(p: string, sep: char)
    requires sep !in p
    ensures Split(p, sep) == [p]
  {
    if |p| > 0 {
      assert p[0] in p;
      assert forall c :: c in p[1..] ==> c in p;
      SplitOfPieceFree(p[1..], sep);
      assert [p[0]] + p[1..] == p;
    }
  }

  lemma {:induction false} SplitAfterPiece(p: string, sep: char, rest: string)
    requires sep !in p
    ensures Split(p + [sep] + rest, sep) == [p] + Split(rest, sep)
  {
    if |p| == 0 {
      assert p + [sep] + rest == [sep] + rest;
      assert ([sep] + rest)[1..] == rest;
    } else {
      assert p[0] in p;
      assert forall c :: c in p[1..] ==> c in p;
      SplitAfterPiece(p[1..], sep, rest);
      var s := p + [sep] + rest;
      assert s[0] == p[0];
      assert s[1..] == p[1..] + [sep] + rest;
      assert [p[0]] + p[1..] == p;
    }
  }

  /** Splitting a join of separator-free pieces gives back the pieces. */
  lemma {:induction false} SplitJoin(parts: seq<string>, sep: char)
    requires |parts| >= 1
    requires forall k :: 0 <= k < |parts| ==> sep !in parts[k]
    ensures Split(Join(parts, sep), sep) == parts
  {
    if |parts| == 1 {
      SplitOfPieceFree(parts[0], sep);
    } else {
      SplitJoin(parts[1..], sep);
      SplitAfterPiece(parts[0], sep, Join(parts[1..], sep));
      assert parts == [parts[0]] + parts[1..];
    }
  }

  predicate AllSpaces(s: string)
  {
    forall k :: 0 <= k < |s| ==> s[k] == ' '
  }

  /** The number of spaces `s` starts with. */
  function LeadingSpaces(s: string): (n: nat)
    ensures n <= |s| && AllSpaces(s[..n])
    ensures n < |s| ==> s[n] != ' '
  {
    if |s| > 0 && s[0] == ' ' then
      var n := 1 + LeadingSpaces(s[1..]);
      assert s[..n] == [s[0]] + s[1..][..n - 1];
      n
    else 0
  }

  /** The length of `s` without the spaces it ends with. */
  function EndOfText(s: string): (n: nat)
    ensures n <= |s| && AllSpaces(s[n..])
    ensures n > 0 ==> s[n - 1] != ' '
    ensures forall k :: 0 <= k < |s| && s[k] != ' ' ==> k < n
  {
    if |s| > 0 && s[|s| - 1] == ' ' then
      var n := EndOfText(s[..|s| - 1]);
      assert s[n..] == s[..|s| - 1][n..] + [s[|s| - 1]];
      n
    else |s|
  }

  /** `w` is `piece` less a run of spaces at each end. */
  predicate Trimmed(piece: string, w: string)
  {
    exists i, j :: 0 <= i <= j <= |piece| && w == piece[i..j] && AllSpaces(piece[..i]) && AllSpaces(piece[j..])
  }

  /** A piece has one trimmed form without spaces at its ends, so `Trimmed`
      together with that pins the result of `Strip` and of every word of `Words`. */
  lemma TrimmedUnique(p: string, w1: string, w2: string)
    requires Trimmed(p, w1) && Trimmed(p, w2)
    requires |w1| > 0 ==> w1[0] != ' ' && w1[|w1| - 1] != ' '
    requires |w2| > 0 ==> w2[0] != ' ' && w2[|w2| - 1] != ' '
    ensures w1 == w2
  {
    TrimmedEmpty(p, w1);
    TrimmedEmpty(p, w2);
    if !AllSpaces(p) {
      TrimmedPosition(p, w1);
      TrimmedPosition(p, w2);
    }
  }

  /** The trimmed form is empty exactly when the piece is all spaces. */
  lemma TrimmedEmpty(p: string, w: string)
    requires Trimmed(p, w)
    requires |w| > 0 ==> w[0] != ' '
    ensures |w| == 0 <==> AllSpaces(p)
  {
    var i, j :| 0 <= i <= j <= |p| && w == p[i..j] && AllSpaces(p[..i]) && AllSpaces(p[j..]);
    if |w| == 0 {
      forall k | 0 <= k < |p|
        ensures p[k] == ' '
      {
        if k < i {
          assert p[..i][k] == p[k];
        } else {
          assert p[j..][k - j] == p[k];
        }
      }
    } else {
      assert p[i] == w[0];
    }
  }

  /** A non-empty trimmed form without spaces at its ends runs from the first
      to the last character that is not a space. */
  lemma TrimmedPosition(p: string, w: string)
    requires Trimmed(p, w) && |w| > 0 && w[0] != ' ' && w[|w| - 1] != ' '
    ensures LeadingSpaces(p) <= EndOfText(p) && w == p[LeadingSpaces(p)..EndOfText(p)]
  {
    var i, j :| 0 <= i <= j <= |p| && w == p[i..j] && AllSpaces(p[..i]) && AllSpaces(p[j..]);
    assert w[0] == p[i..j][0] == p[i];
    LeadAt(p, i);
    assert w[|w| - 1] == p[i..j][j - 1 - i] == p[j - 1];
    EndAt(p, j);
  }

  /** Spaces up to a non-space end exactly at `LeadingSpaces`. */
  lemma LeadAt(p: string, i: nat)
    requires i < |p| && p[i] != ' ' && AllSpaces(p[..i])
    ensures i == LeadingSpaces(p)
  {
    var lead := LeadingSpaces(p);
    forall k | 0 <= k < lead
      ensures p[k] == ' '
    {
      assert p[..lead][k] == p[k];
    }
    forall k | 0 <= k < i
      ensures p[k] == ' '
    {
      assert p[..i][k] == p[k];
    }
  }

  /** A non-space followed only by spaces ends exactly at `EndOfText`. */
  lemma EndAt(p: string, j: nat)
    requires 0 < j <= |p| && p[j - 1] != ' ' && AllSpaces(p[j..])
    ensures j == EndOfText(p)
  {
    forall k | j <= k < |p|
      ensures p[k] == ' '
    {
      assert p[j..][k - j] == p[k];
    }
  }

  /** `s.strip(' ')`: the infix of `s` left after removing the spaces (and only
      the spaces, not other white space) at both ends. */
  function Strip(s: string): (r: string)
    ensures Trimmed(s, r)
    ensures |r| > 0 ==> r[0] != ' ' && r[|r| - 1] != ' '
  {
    var i := LeadingSpaces(s);
    var j := EndOfText(s);
    if i < j then
      s[i..j]
    else
      assert s[i..i] == "";
      ""
  }

  /** A string with no space at either end is its own strip. */
  lemma StripOfStripped(s: string)
    requires |s| > 0 ==> s[0] != ' ' && s[|s| - 1] != ' '
    ensures Strip(s) == s
  {
  }

  /** The comma-separated words of a message, each with surrounding spaces removed:
      `[w.strip(' ') for w in text.split(',')]`. */
  function Words(text: string): (r: seq<string>)
    ensures |r| == Count(text, ',') + 1
    ensures forall k :: 0 <= k < |r| ==> ',' !in r[k]
    ensures forall k :: 0 <= k < |r| ==> |r[k]| > 0 ==> r[k][0] != ' ' && r[k][|r[k]| - 1] != ' '
    ensures var parts := Split(text, ',');
      && |r| == |parts|
      && forall k :: 0 <= k < |r| ==> Trimmed(parts[k], r[k])
  {
    var parts := Split(text, ',');
    seq(|parts|, k requires 0 <= k < |parts| => Strip(parts[k]))
  }

  /** A list of comma-free words without surrounding spaces, typed separated by
      commas, is read back as exactly that list, in that order. */
  lemma WordsOfJoin(ws: seq<string>)
    requires |ws| >= 1
    requires forall k :: 0 <= k < |ws| ==> ',' !in ws[k]
    requires forall k :: 0 <= k < |ws| ==> |ws[k]| > 0 ==> ws[k][0] != ' ' && ws[k][|ws[k]| - 1] != ' '
    ensures Words(Join(ws, ',')) == ws
  {
    SplitJoin(ws, ',');
    forall k | 0 <= k < |ws|
      ensures Strip(ws[k]) == ws[k]
    {
      StripOfStripped(ws[k]);
    }
  }

  predicate IsDigit(c: char)
  {
    '0' <= c <= '9'
  }

  /** Text the pattern `^[0-9]+$` accepts. */
  predicate IsNumeral(s: string)
  {
    |s| > 0 && forall k :: 0 <= k < |s| ==> IsDigit(s[k])
  }

  /** `int(s)` for a string of decimal digits. */
  function NumeralValue(s: string): nat
    requires forall k :: 0 <= k < |s| ==> IsDigit(s[k])
  {
    if |s| == 0 then 0
    else
      assert IsDigit(s[|s| - 1]);
      10 * NumeralValue(s[..|s| - 1]) + (s[|s| - 1] as int - '0' as int)
  }

  function DigitChar(d: nat): char
    requires d < 10
  {
    ('0' as int + d) as char
  }

  /** `str(n)`: the decimal numeral of `n`, without leading zeros. */
  function Digits(n: nat): (r: string)
    ensures IsNumeral(r)
    ensures |r| > 1 ==> r[0] != '0'
  {
    if n < 10 then [DigitChar(n)] else Digits(n / 10) + [DigitChar(n % 10)]
  }

  /** Reading back the numeral `str(n)` gives `n`. */
  lemma {:induction false} NumeralRoundTrip(n: nat)
    ensures NumeralValue(Digits(n)) == n
  {
    var d := Digits(n);
    if n >= 10 {
      NumeralRoundTrip(n / 10);
      assert d[..|d| - 1] == Digits(n / 10);
    }
  }

  /** Leading zeros do not change the value: `int("007") == 7`. */
  lemma {:induction false} LeadingZero(s: string)
    requires forall k :: 0 <= k < |s| ==> IsDigit(s[k])
    ensures NumeralValue("0" + s) == NumeralValue(s)
  {
    if |s| > 0 {
      var t := "0" + s;
      assert t[..|t| - 1] == "0" + s[..|s| - 1];
      LeadingZero(s[..|s| - 1]);
    }
  }
}
