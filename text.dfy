/**
 * The pieces of Python's string handling that the save format relies on:
 * `"%d" % n`, `int(s)` on a string, `s.split("|")` and `f.readlines()`.
 */
module Text {
  import opened Wrappers

  predicate IsDigit(c: char) { '0' <= c <= '9' }

  predicate AllDigits(s: string) {
    forall k :: 0 <= k < |s| ==> IsDigit(s[k])
  }

  /** The whitespace `int()` strips from both ends of its argument (the ASCII part of it). */
  predicate IsSpace(c: char) {
    c == ' ' || 9 <= c as int <= 13 || 28 <= c as int <= 31
  }

  function DigitChar(d: nat): (c: char)
    requires d < 10
    ensures IsDigit(c)
  {
    ('0' as int + d) as char
  }

  function DigitValue(c: char): (d: nat)
    requires IsDigit(c)
    ensures d < 10
  {
    c as int - '0' as int
  }

  /** The decimal digits of `n`, most significant first. */
  function NatStr(n: nat): (s: string)
    ensures |s| > 0 && AllDigits(s)
  {
    (if n < 10 then "" else NatStr(n / 10)) + [DigitChar(n % 10)]
  }

  /** `"%d" % n`: decimal, with a leading '-' when negative. */
  function IntStr(n: int): (s: string)
    ensures |s| > 0 && !IsSpace(s[0]) && !IsSpace(s[|s| - 1])
    ensures forall k :: 0 <= k < |s| ==> s[k] != '|' && s[k] != '\n'
  {
    if n < 0 then "-" + NatStr(-n) else NatStr(n)
  }

  /** The number a string of decimal digits spells. */
  function DigitsValue(s: string): nat
    requires AllDigits(s)
  {
    if s == [] then 0 else 10 * DigitsValue(s[..|s| - 1]) + DigitValue(s[|s| - 1])
  }

  /** `%d` and `int` agree on the digits of a natural number. */
  lemma {:induction false} DigitsValueOfNatStr(n: nat)
    ensures DigitsValue(NatStr(n)) == n
  {
    var s := NatStr(n);
    var prefix, last := if n < 10 then "" else NatStr(n / 10), DigitChar(n % 10);
    assert s == prefix + [last];
    assert s[..|s| - 1] == prefix && s[|s| - 1] == last;
    assert DigitValue(last) == n % 10;
    if n >= 10 {
      DigitsValueOfNatStr(n / 10);
    }
    assert DigitsValue(s) == 10 * DigitsValue(prefix) + n % 10;
  }

  function TrimLeft(s: string): (t: string)
    ensures |t| <= |s| && t == s[|s| - |t|..]
    ensures t == [] || !IsSpace(t[0])
  {
    if s != [] && IsSpace(s[0]) then TrimLeft(s[1..]) else s
  }

  function TrimRight(s: string): (t: string)
    ensures |t| <= |s| && t == s[..|t|]
    ensures t == [] || !IsSpace(t[|t| - 1])
  {
    if s != [] && IsSpace(s[|s| - 1]) then TrimRight(s[..|s| - 1]) else s
  }

  /**
   * `int(s)` for a string: surrounding whitespace is ignored, then an optional
   * sign and one or more decimal digits; anything else raises ValueError (None).
   */
  function ParseInt(s: string): Option<int> {
    ParseSigned(TrimRight(TrimLeft(s)))
  }

  /** An optional sign followed by one or more decimal digits. */
  function ParseSigned(t: string): Option<int> {
    if |t| > 1 && (t[0] == '-' || t[0] == '+') && AllDigits(t[1..]) then
      var magnitude: int := DigitsValue(t[1..]);
      Some(if t[0] == '-' then -magnitude else magnitude)
    else if |t| > 0 && AllDigits(t) then
      Some(DigitsValue(t))
    else
      None
  }

  lemma ParseSignedIntStr(n: int)
    ensures ParseSigned(IntStr(n)) == Some(n)
  {
    var t := IntStr(n);
    if n < 0 {
      assert t[1..] == NatStr(-n);
      DigitsValueOfNatStr(-n);
    } else {
      assert !(t[0] == '-' || t[0] == '+');
      DigitsValueOfNatStr(n);
    }
  }

  /** `int` reads back what `%d` wrote, also when trailing whitespace such as the line's '\n' follows. */
  lemma ParseIntStr(n: int, tail: string)
    requires forall k :: 0 <= k < |tail| ==> IsSpace(tail[k])
    ensures ParseInt(IntStr(n) + tail) == Some(n)
  {
    var s := IntStr(n);
    assert TrimLeft(s + tail) == s + tail;
    TrimRightSpaces(s, tail);
    ParseSignedIntStr(n);
  }

  lemma {:induction false} TrimRightSpaces(s: string, tail: string)
    requires s == [] || !IsSpace(s[|s| - 1])
    requires forall k :: 0 <= k < |tail| ==> IsSpace(tail[k])
    ensures TrimRight(s + tail) == s
  {
    if tail == [] {
      assert s + tail == s;
    } else {
      var shorter := tail[..|tail| - 1];
      assert (s + tail)[..|s + tail| - 1] == s + shorter;
      TrimRightSpaces(s, shorter);
    }
  }

  /** `s.split(sep)`: the pieces between separators, always at least one. */
  function Split(s: string, sep: char): (parts: seq<string>)
    ensures |parts| >= 1
  {
    if s == [] then [""]
    else if s[0] == sep then [""] + Split(s[1..], sep)
    else
      var rest := Split(s[1..], sep);
      [[s[0]] + rest[0]] + rest[1..]
  }

  /** Gluing the pieces back together with the separator gives the string again. */
  function Join(parts: seq<string>, sep: char): string
    requires |parts| >= 1
  {
    if |parts| == 1 then parts[0] else parts[0] + [sep] + Join(parts[1..], sep)
  }

  lemma {:induction false} JoinSplit(s: string, sep: char)
    ensures Join(Split(s, sep), sep) == s
  {
    if s != [] {
      JoinSplit(s[1..], sep);
      var rest := Split(s[1..], sep);
      var parts := Split(s, sep);
      if s[0] != sep {
        assert parts[0] == [s[0]] + rest[0] && parts[1..] == rest[1..];
        if |rest| > 1 {
          assert Join(rest, sep) == rest[0] + [sep] + Join(rest[1..], sep);
          assert Join(parts, sep) == [s[0]] + rest[0] + [sep] + Join(rest[1..], sep);
        }
        assert [s[0]] + s[1..] == s;
      } else {
        assert parts[1..] == rest;
        assert [sep] + s[1..] == s;
      }
    }
  }

  /** No piece of a split contains the separator. */
  lemma {:induction false} SplitSeparatorFree(s: string, sep: char)
    ensures forall k, i :: 0 <= k < |Split(s, sep)| && 0 <= i < |Split(s, sep)[k]| ==> Split(s, sep)[k][i] != sep
  {
    if s != [] {
      SplitSeparatorFree(s[1..], sep);
      var rest := Split(s[1..], sep);
      var parts := Split(s, sep);
      if s[0] != sep {
        assert parts[0] == [s[0]] + rest[0] && parts[1..] == rest[1..];
        forall k, i | 0 <= k < |parts| && 0 <= i < |parts[k]| ensures parts[k][i] != sep {
          if k == 0 && i > 0 { assert parts[0][i] == rest[0][i - 1]; }
          if k > 0 { assert parts[k] == rest[k]; }
        }
      } else {
        assert parts[0] == "" && parts[1..] == rest;
        forall k, i | 0 <= k < |parts| && 0 <= i < |parts[k]| ensures parts[k][i] != sep {
          assert parts[k] == rest[k - 1];
        }
      }
    }
  }

  /** A piece free of the separator, followed by the separator, splits off as one part. */
  lemma {:induction false} SplitPrefix(a: string, sep: char, b: string)
    requires forall k :: 0 <= k < |a| ==> a[k] != sep
    ensures Split(a + [sep] + b, sep) == [a] + Split(b, sep)
  {
    if a == [] {
      assert a + [sep] + b == [sep] + b;
      assert ([sep] + b)[1..] == b;
    } else {
      assert (a + [sep] + b)[1..] == a[1..] + [sep] + b;
      SplitPrefix(a[1..], sep, b);
      assert [a[0]] + a[1..] == a;
    }
  }

  lemma {:induction false} SplitWhole(a: string, sep: char)
    requires forall k :: 0 <= k < |a| ==> a[k] != sep
    ensures Split(a, sep) == [a]
  {
    if a != [] {
      SplitWhole(a[1..], sep);
      assert [a[0]] + a[1..] == a;
    }
  }

  /** The length of the first line of `s`, its terminating '\n' included. */
  function LineLength(s: string): (k: nat)
    requires |s| > 0
    ensures 1 <= k <= |s|
  {
    if s[0] == '\n' || |s| == 1 then 1 else 1 + LineLength(s[1..])
  }

  /**
   * `f.readlines()`: the text cut after every '\n', each line keeping its
   * '\n'; a final piece without one is a line as well.
   */
  function ReadLines(s: string): seq<string>
    decreases |s|
  {
    if s == [] then [] else
    var k := LineLength(s);
    [s[..k]] + ReadLines(s[k..])
  }

  function Concat(lines: seq<string>): string {
    if lines == [] then "" else lines[0] + Concat(lines[1..])
  }

  /** Lines end at, and only at, a '\n' (the last one possibly at the end of the text). */
  ghost predicate IsLine(line: string) {
    |line| > 0 && forall k :: 0 <= k < |line| - 1 ==> line[k] != '\n'
  }

  /** Nothing is lost or added by `readlines`. */
  lemma {:induction false} ReadLinesConcat(s: string)
    ensures Concat(ReadLines(s)) == s
    decreases |s|
  {
    if s != [] {
      var k := LineLength(s);
      ReadLinesConcat(s[k..]);
      var lines := ReadLines(s);
      assert lines[0] == s[..k] && lines[1..] == ReadLines(s[k..]);
      assert s[..k] + s[k..] == s;
    }
  }

  /** Every line `readlines` returns is a line, and every one but the last ends in '\n'. */
  lemma {:induction false} ReadLinesAreLines(s: string)
    ensures forall k :: 0 <= k < |ReadLines(s)| ==>
      IsLine(ReadLines(s)[k]) && (k < |ReadLines(s)| - 1 ==> ReadLines(s)[k][|ReadLines(s)[k]| - 1] == '\n')
    decreases |s|
  {
    if s != [] {
      var k := LineLength(s);
      LineLengthStopsAtNewline(s);
      ReadLinesAreLines(s[k..]);
      var lines, rest := ReadLines(s), ReadLines(s[k..]);
      assert lines[0] == s[..k] && lines[1..] == rest;
      forall m | 0 <= m < |lines|
        ensures IsLine(lines[m]) && (m < |lines| - 1 ==> lines[m][|lines[m]| - 1] == '\n')
      {
        if m > 0 {
          assert lines[m] == rest[m - 1];
        } else if |lines| > 1 {
          assert rest != [];
          assert k < |s|;
        }
      }
    }
  }

  lemma {:induction false} LineLengthStopsAtNewline(s: string)
    requires |s| > 0
    ensures forall i :: 0 <= i < LineLength(s) - 1 ==> s[i] != '\n'
    ensures LineLength(s) < |s| ==> s[LineLength(s) - 1] == '\n'
  {
    if !(s[0] == '\n' || |s| == 1) {
      LineLengthStopsAtNewline(s[1..]);
      assert forall i :: 1 <= i < LineLength(s) ==> s[i] == s[1..][i - 1];
    }
  }

  /** A line that ends in its only '\n' is read as exactly that line. */
  lemma {:induction false} ReadLinesPrefix(line: string, rest: string)
    requires IsLine(line) && line[|line| - 1] == '\n'
    ensures ReadLines(line + rest) == [line] + ReadLines(rest)
  {
    LineLengthOf(line, rest);
    var s := line + rest;
    assert s[..|line|] == line && s[|line|..] == rest;
  }

  lemma {:induction false} LineLengthOf(line: string, rest: string)
    requires IsLine(line) && line[|line| - 1] == '\n'
    ensures LineLength(line + rest) == |line|
  {
    if |line| > 1 {
      assert (line + rest)[1..] == line[1..] + rest;
      LineLengthOf(line[1..], rest);
    }
  }
}
