/**
 * Text primitives the game relies on: ASCII case mapping (the model of
 * Rust's `to_uppercase`/`to_lowercase` restricted to ASCII letters),
 * decimal rendering of numbers (`format!("{}", n)`), and the line
 * splitting of Rust's `str::lines`.
 */
module Text {

  predicate IsUpperAscii(c: char) { 'A' <= c <= 'Z' }
  predicate IsLowerAscii(c: char) { 'a' <= c <= 'z' }

  function UpperChar(c: char): (u: char)
    ensures !IsLowerAscii(u)
    ensures IsUpperAscii(c) || IsLowerAscii(c) || u == c
  {
    if IsLowerAscii(c) then (c as int - 32) as char else c
  }

  function LowerChar(c: char): (l: char)
    ensures !IsUpperAscii(l)
    ensures IsUpperAscii(c) || IsLowerAscii(c) || l == c
  {
    if IsUpperAscii(c) then (c as int + 32) as char else c
  }

  /** Upper-cases every ASCII letter; every other character is kept. */
  function Upper(s: string): (r: string)
    ensures |r| == |s|
    ensures forall i :: 0 <= i < |s| ==> r[i] == UpperChar(s[i])
  {
    seq(|s|, i requires 0 <= i < |s| => UpperChar(s[i]))
  }

  /** Lower-cases every ASCII letter; every other character is kept. */
  function Lower(s: string): (r: string)
    ensures |r| == |s|
    ensures forall i :: 0 <= i < |s| ==> r[i] == LowerChar(s[i])
  {
    seq(|s|, i requires 0 <= i < |s| => LowerChar(s[i]))
  }

  predicate HasUpperAscii(s: string) {
    exists i :: 0 <= i < |s| && IsUpperAscii(s[i])
  }

  lemma LowerIdempotent(s: string)
    ensures Lower(Lower(s)) == Lower(s)
  {
  }

  /** A lower-cased string never holds an upper-case ASCII letter. */
  lemma LowerHasNoUpper(s: string)
    ensures !HasUpperAscii(Lower(s))
  {
  }

  // ---------------------------------------------------------------------
  // Decimal numbers

  predicate IsDigit(c: char) { '0' <= c <= '9' }

  predicate IsDigits(s: string) {
    forall i :: 0 <= i < |s| ==> IsDigit(s[i])
  }

  function DigitChar(d: nat): (c: char)
    requires d < 10
    ensures IsDigit(c) && c as int - '0' as int == d
  {
    ('0' as int + d) as char
  }

  /** A decimal numeral as `Decimal` writes it: digits only, no leading zero. */
  predicate IsNumeral(s: string) {
    |s| > 0 && IsDigits(s) && (|s| > 1 ==> s[0] != '0')
  }

  /** The decimal digits of `n`, most significant first, as `format!` prints a `usize` or `u32`. */
  function Decimal(n: nat): (s: string)
    ensures IsNumeral(s)
    decreases n
  {
    if n < 10 then [DigitChar(n)] else Decimal(n / 10) + [DigitChar(n % 10)]
  }

  /** The number a string of decimal digits denotes. */
  function DigitsValue(s: string): nat
    requires IsDigits(s)
  {
    if s == [] then 0 else DigitsValue(s[..|s| - 1]) * 10 + (s[|s| - 1] as int - '0' as int)
  }

  lemma {:induction false} DecimalValue(n: nat)
    ensures DigitsValue(Decimal(n)) == n
    decreases n
  {
    if n >= 10 {
      var s := Decimal(n);
      assert s[..|s| - 1] == Decimal(n / 10);
      DecimalValue(n / 10);
    }
  }

  lemma {:induction false} NumeralPositive(s: string)
    requires |s| > 0 && IsDigits(s) && s[0] != '0'
    ensures DigitsValue(s) >= 1
    decreases |s|
  {
    if |s| > 1 {
      NumeralPositive(s[..|s| - 1]);
    }
  }

  /** A numeral is the decimal rendering of its value. */
  lemma {:induction false} NumeralDecimal(s: string)
    requires IsNumeral(s)
    ensures Decimal(DigitsValue(s)) == s
    decreases |s|
  {
    if |s| > 1 {
      var p := s[..|s| - 1];
      var d := s[|s| - 1] as int - '0' as int;
      NumeralPositive(p);
      NumeralDecimal(p);
      var v := DigitsValue(s);
      assert v == DigitsValue(p) * 10 + d;
      assert v / 10 == DigitsValue(p) && v % 10 == d;
      assert s == p + [DigitChar(d)];
    }
  }

  lemma DecimalInjective(m: nat, n: nat)
    ensures Decimal(m) == Decimal(n) ==> m == n
  {
    DecimalValue(m);
    DecimalValue(n);
  }

  // ---------------------------------------------------------------------
  // Lines, the way Rust's `str::lines` splits them: at each '\n', with a
  // '\r' directly before the '\n' removed; a trailing '\n' ends the last
  // line instead of starting an empty one.

  /** The index of the first '\n' in `t`, or |t| when there is none. */
  function NewlineIndex(t: string): (i: nat)
    ensures i <= |t|
    ensures i < |t| ==> t[i] == '\n'
    ensures forall k :: 0 <= k < i ==> t[k] != '\n'
  {
    if t == [] || t[0] == '\n' then 0 else 1 + NewlineIndex(t[1..])
  }

  function StripCR(line: string): string {
    if |line| > 0 && line[|line| - 1] == '\r' then line[..|line| - 1] else line
  }

  function Lines(t: string): (ls: seq<string>)
    decreases |t|
  {
    if t == [] then []
    else
      var i := NewlineIndex(t);
      if i == |t| then [t] else [StripCR(t[..i])] + Lines(t[i + 1..])
  }

  /** The words joined with `sep` between consecutive ones. */
  function Join(ws: seq<string>, sep: string): string {
    if ws == [] then [] else if |ws| == 1 then ws[0] else ws[0] + sep + Join(ws[1..], sep)
  }

  /** Every word followed by `end`. */
  function Terminated(ws: seq<string>, end: string): string {
    if ws == [] then [] else ws[0] + end + Terminated(ws[1..], end)
  }

  predicate EndsWithCR(w: string) { |w| > 0 && w[|w| - 1] == '\r' }

  lemma {:induction false} LinesHaveNoNewline(t: string)
    ensures forall j, k :: 0 <= j < |Lines(t)| && 0 <= k < |Lines(t)[j]| ==> Lines(t)[j][k] != '\n'
    decreases |t|
  {
    if t != [] {
      var i := NewlineIndex(t);
      if i < |t| {
        LinesHaveNoNewline(t[i + 1..]);
        var ls := Lines(t);
        forall j, k | 0 <= j < |ls| && 0 <= k < |ls[j]| ensures ls[j][k] != '\n' {
          if j > 0 {
            assert ls[j] == Lines(t[i + 1..])[j - 1];
          }
        }
      }
    }
  }

  lemma LinesOfNonEmpty(t: string)
    requires t != []
    ensures Lines(t) != []
  {
  }

  /** The first newline of `w + end + rest` is the first character of `end` when `w` has none. */
  lemma NewlineAfterWord(w: string, end: string, rest: string)
    requires forall k :: 0 <= k < |w| ==> w[k] != '\n'
    requires |end| > 0 && end[|end| - 1] == '\n'
    requires forall k :: 0 <= k < |end| - 1 ==> end[k] != '\n'
    ensures NewlineIndex(w + end + rest) == |w| + |end| - 1
  {
    var t := w + end + rest;
    assert t[|w| + |end| - 1] == '\n';
    assert forall k :: 0 <= k < |w| + |end| - 1 ==> t[k] != '\n' by {
      forall k | 0 <= k < |w| + |end| - 1 ensures t[k] != '\n' {
        if k < |w| { assert t[k] == w[k]; } else { assert t[k] == end[k - |w|]; }
      }
    }
  }

  /** Splitting newline-terminated words gives the words back. */
  lemma {:induction false} LinesOfTerminated(ws: seq<string>)
    requires forall j, k :: 0 <= j < |ws| && 0 <= k < |ws[j]| ==> ws[j][k] != '\n'
    requires forall j :: 0 <= j < |ws| ==> !EndsWithCR(ws[j])
    ensures Lines(Terminated(ws, "\n")) == ws
  {
    if ws != [] {
      var rest := Terminated(ws[1..], "\n");
      var t := Terminated(ws, "\n");
      assert t == ws[0] + "\n" + rest;
      NewlineAfterWord(ws[0], "\n", rest);
      var i := |ws[0]|;
      assert t[..i] == ws[0];
      assert t[i + 1..] == rest;
      LinesOfTerminated(ws[1..]);
    }
  }

  /** Splitting CRLF-terminated words gives the words back. */
  lemma {:induction false} LinesOfCrlfTerminated(ws: seq<string>)
    requires forall j, k :: 0 <= j < |ws| && 0 <= k < |ws[j]| ==> ws[j][k] != '\n'
    ensures Lines(Terminated(ws, "\r\n")) == ws
  {
    if ws != [] {
      var rest := Terminated(ws[1..], "\r\n");
      var t := Terminated(ws, "\r\n");
      assert t == ws[0] + "\r\n" + rest;
      NewlineAfterWord(ws[0], "\r\n", rest);
      var i := |ws[0]| + 1;
      assert t[..i] == ws[0] + "\r";
      assert StripCR(t[..i]) == ws[0];
      assert t[i + 1..] == rest;
      LinesOfCrlfTerminated(ws[1..]);
    }
  }

  /** Joining the lines with "\n" gives back a text without '\r' and without a trailing '\n'. */
  lemma {:induction false} JoinLines(t: string)
    requires forall k :: 0 <= k < |t| ==> t[k] != '\r'
    requires t == [] || t[|t| - 1] != '\n'
    ensures Join(Lines(t), "\n") == t
    decreases |t|
  {
    if t != [] {
      var i := NewlineIndex(t);
      if i < |t| {
        var rest := t[i + 1..];
        assert rest != [] && rest[|rest| - 1] == t[|t| - 1];
        assert !EndsWithCR(t[..i]);
        JoinLines(rest);
        LinesOfNonEmpty(rest);
        assert Lines(t) == [t[..i]] + Lines(rest);
        assert t == t[..i] + "\n" + rest;
      }
    }
  }

  /** The first newline is where the characterising facts put it. */
  lemma NewlineIndexUnique(t: string, i: nat)
    requires i <= |t| && (i < |t| ==> t[i] == '\n')
    requires forall k :: 0 <= k < i ==> t[k] != '\n'
    ensures NewlineIndex(t) == i
  {
  }

  /** A final '\n' ends the last line; it adds no empty line. */
  lemma {:induction false} TrailingNewlineAddsNoLine(t: string)
    requires t != [] && t[|t| - 1] != '\n' && t[|t| - 1] != '\r'
    ensures Lines(t + "\n") == Lines(t)
    decreases |t|
  {
    var t' := t + "\n";
    var i := NewlineIndex(t);
    assert forall k :: 0 <= k < |t| ==> t'[k] == t[k];
    NewlineIndexUnique(t', i);
    assert t'[..i] == t[..i];
    if i == |t| {
      assert t'[i + 1..] == [];
    } else {
      assert t'[i + 1..] == t[i + 1..] + "\n";
      TrailingNewlineAddsNoLine(t[i + 1..]);
    }
  }

  lemma TerminatedAppend(a: seq<string>, b: seq<string>, end: string)
    ensures Terminated(a + b, end) == Terminated(a, end) + Terminated(b, end)
  {
    if a != [] {
      assert (a + b)[1..] == a[1..] + b;
      TerminatedAppend(a[1..], b, end);
    } else {
      assert a + b == b;
    }
  }
}
