/**
 * The formatted-input and formatted-output conversions the database code
 * relies on, stated over character sequences: the `%s` word conversion that
 * splits a file into tokens, the `%d` integer conversion, the `%[^;]` scan
 * set, and the decimal text that `%d` prints.
 */
module Scan {

  import opened InvertedSearch

  /** The characters `isspace` accepts in the C locale. */
  predicate IsSpace(c: char)
  {
    c == ' ' || c == '\t' || c == '\n' || c == '\r' || c == '\U{000B}' || c == '\U{000C}'
  }

  predicate IsDigit(c: char)
  {
    '0' <= c <= '9'
  }

  /** A token as `%s` produces it: non-empty, without white space. */
  predicate IsToken(w: string)
  {
    |w| > 0 && forall k :: 0 <= k < |w| ==> !IsSpace(w[k])
  }

  /** Length of the longest prefix of `s` free of white space. */
  function WordLength(s: string): (n: nat)
    ensures n <= |s|
    ensures forall k :: 0 <= k < n ==> !IsSpace(s[k])
    ensures n < |s| ==> IsSpace(s[n])
  {
    if s == [] || IsSpace(s[0]) then 0 else 1 + WordLength(s[1..])
  }

  /**
   * The words that repeated `fscanf(f, "%s", buffer)` calls read from the
   * text `s` before end of file: the maximal runs of non-white-space
   * characters, in order.
   */
  function Tokens(s: string): (r: seq<string>)
    ensures forall k :: 0 <= k < |r| ==> IsToken(r[k])
    decreases |s|
  {
    if s == [] then []
    else if IsSpace(s[0]) then Tokens(s[1..])
    else
      var n := WordLength(s);
      [s[..n]] + Tokens(s[n..])
  }

  /**
   * One `fscanf(f, "%s", buffer)` call: None when only white space is left
   * (end of file), otherwise the word read and the text after it.
   */
  function ScanWord(s: string): (r: Option<(string, string)>)
    ensures r.Some? ==> |r.value.1| < |s| && IsToken(r.value.0)
  {
    var t := SkipSpace(s);
    if t == [] then None
    else
      var n := WordLength(t);
      Some((t[..n], t[n..]))
  }

  /** Reading words one call at a time yields exactly the tokens of the text. */
  lemma {:induction false} TokensByScanWord(s: string)
    ensures ScanWord(s).None? ==> Tokens(s) == []
    ensures ScanWord(s).Some? ==> Tokens(s) == [ScanWord(s).value.0] + Tokens(ScanWord(s).value.1)
    decreases |s|
  {
    if s != [] && IsSpace(s[0]) {
      TokensByScanWord(s[1..]);
    }
  }

  /** After reading part of a text word by word, one more call reads the next token, or finds that there is none. */
  lemma ScanWordStep(text: string, done: seq<string>, rest: string)
    requires Tokens(text) == done + Tokens(rest)
    ensures ScanWord(rest).None? ==> Tokens(text) == done
    ensures ScanWord(rest).Some? ==>
      Tokens(text) == (done + [ScanWord(rest).value.0]) + Tokens(ScanWord(rest).value.1)
  {
    TokensByScanWord(rest);
  }

  /** The text made of the given words, each followed by one space. */
  function Join(ws: seq<string>): string
  {
    if ws == [] then "" else ws[0] + " " + Join(ws[1..])
  }

  /** Splitting undoes joining: the tokens of words separated by spaces are those words. */
  lemma {:induction false} TokensOfJoin(ws: seq<string>)
    requires forall k :: 0 <= k < |ws| ==> IsToken(ws[k])
    ensures Tokens(Join(ws)) == ws
  {
    if ws != [] {
      var w, rest := ws[0], Join(ws[1..]);
      var s := w + " " + rest;
      assert s == w + (" " + rest);
      WordLengthOfPrefix(w, " " + rest);
      assert s[..|w|] == w;
      assert s[|w|..] == " " + rest;
      assert Tokens(" " + rest) == Tokens(rest) by {
        assert (" " + rest)[1..] == rest;
      }
      TokensOfJoin(ws[1..]);
    }
  }

  /** The word length of a token followed by text that starts with a space is the token's length. */
  lemma {:induction false} WordLengthOfPrefix(w: string, rest: string)
    requires IsToken(w)
    requires rest != [] && IsSpace(rest[0])
    ensures WordLength(w + rest) == |w|
  {
    var s := w + rest;
    assert forall k :: 0 <= k < |w| ==> s[k] == w[k];
    assert s[|w|] == rest[0];
  }

  /** How many times `x` occurs in `s`. */
  function Freq(s: seq<string>, x: string): (n: nat)
    ensures n <= |s|
    ensures n == 0 <==> x !in s
  {
    if s == [] then 0
    else Freq(s[..|s| - 1], x) + (if s[|s| - 1] == x then 1 else 0)
  }

  /** The input with its leading white space skipped. */
  function SkipSpace(s: string): (r: string)
    ensures |r| <= |s| && r == s[|s| - |r|..]
    ensures r == [] || !IsSpace(r[0])
  {
    if s != [] && IsSpace(s[0]) then SkipSpace(s[1..]) else s
  }

  /** What white space skipping passes over is white space, and only that. */
  lemma {:induction false} SkipSpaceSkipsSpace(s: string)
    ensures forall k :: 0 <= k < |s| - |SkipSpace(s)| ==> IsSpace(s[k])
  {
    if s != [] && IsSpace(s[0]) {
      SkipSpaceSkipsSpace(s[1..]);
    }
  }

  /** Length of the longest prefix of `s` made of decimal digits. */
  function DigitRun(s: string): (n: nat)
    ensures n <= |s|
    ensures forall k :: 0 <= k < n ==> IsDigit(s[k])
    ensures n < |s| ==> !IsDigit(s[n])
  {
    if s == [] || !IsDigit(s[0]) then 0 else 1 + DigitRun(s[1..])
  }

  function DigitValue(c: char): nat
    requires IsDigit(c)
  {
    (c as int) - ('0' as int)
  }

  /** The number a string of decimal digits denotes. */
  function Value(d: string): nat
    requires forall k :: 0 <= k < |d| ==> IsDigit(d[k])
  {
    if d == [] then 0 else Value(d[..|d| - 1]) * 10 + DigitValue(d[|d| - 1])
  }

  /**
   * The digits of a `%d` conversion: at least one decimal digit, as many as
   * there are. None when no digit comes first; otherwise their value and the
   * text after the last one.
   */
  function ScanDigits(u: string): (r: Option<(nat, string)>)
    ensures r.None? <==> u == [] || !IsDigit(u[0])
    ensures r.Some? ==> |r.value.1| < |u| && r.value.1 == u[|u| - |r.value.1|..]
  {
    var n := DigitRun(u);
    if n == 0 then None else Some((Value(u[..n]), u[n..]))
  }

  /**
   * The `%d` conversion: skip white space, read an optional sign and at least
   * one digit. None is a matching failure; otherwise the value and the text
   * after the last digit.
   */
  function ScanInt(s: string): (r: Option<(int, string)>)
    ensures r.Some? ==> |r.value.1| < |s|
  {
    ScanSigned(SkipSpace(s))
  }

  /** An optional sign and at least one digit, read from where white space skipping stopped. */
  function ScanSigned(t: string): (r: Option<(int, string)>)
    ensures r.Some? ==> |r.value.1| < |t| && r.value.1 == t[|t| - |r.value.1|..]
  {
    var signed := t != [] && (t[0] == '-' || t[0] == '+');
    match ScanDigits(if signed then t[1..] else t)
    case None => None
    case Some((v, rest)) => Some((if signed && t[0] == '-' then -(v as int) else v, rest))
  }

  /** `%d` leaves the input that follows the digits it read, unchanged. */
  lemma ScanIntSuffix(s: string)
    ensures ScanInt(s).Some? ==> ScanInt(s).value.1 == s[|s| - |ScanInt(s).value.1|..]
  {
  }

  /** A non-empty run of digits followed by a non-digit is read whole, as the number it denotes. */
  lemma ScanDigitsOf(d: string, rest: string)
    requires |d| > 0 && forall k :: 0 <= k < |d| ==> IsDigit(d[k])
    requires rest == [] || !IsDigit(rest[0])
    ensures ScanDigits(d + rest) == Some((Value(d), rest))
  {
    DigitRunOfDigits(d, rest);
    SplitAfter(d, rest);
  }

  /**
   * The `%[^;]` conversion: at least one character other than ';', as many as
   * there are. None is a matching failure; otherwise the characters read and
   * the text after them.
   */
  function ScanSet(s: string): (r: Option<(string, string)>)
    ensures r.Some? ==> r.value.0 + r.value.1 == s && |r.value.0| > 0
    ensures r.Some? ==> (forall k :: 0 <= k < |r.value.0| ==> r.value.0[k] != ';')
    ensures r.Some? ==> r.value.1 == [] || r.value.1[0] == ';'
    ensures r.None? <==> s == [] || s[0] == ';'
  {
    var n := FieldLength(s);
    if n == 0 then None else Some((s[..n], s[n..]))
  }

  /** Length of the longest prefix of `s` without ';'. */
  function FieldLength(s: string): (n: nat)
    ensures n <= |s|
    ensures forall k :: 0 <= k < n ==> s[k] != ';'
    ensures n < |s| ==> s[n] == ';'
  {
    if s == [] || s[0] == ';' then 0 else 1 + FieldLength(s[1..])
  }

  /** A literal character in a format: consumed when it is next, else a matching failure. */
  function Literal(c: char, s: string): (r: Option<string>)
    ensures r.Some? <==> s != [] && s[0] == c
    ensures r.Some? ==> r.value == s[1..]
  {
    if s != [] && s[0] == c then Some(s[1..]) else None
  }

  /** One directive of a `scanf` format: an ordinary character, white space, `%d` or `%[^;]`. */
  datatype Directive = Lit(c: char) | Space | Int | Set

  /** A value a conversion stores. */
  datatype Stored = IntVal(i: int) | SetVal(t: string)

  /**
   * Applies one directive: None is a matching failure; otherwise the values
   * stored (one for a conversion, none for a literal or white space) and the
   * text left.
   */
  function Convert(d: Directive, s: string): (r: Option<(seq<Stored>, string)>)
    ensures r.Some? ==> |r.value.1| <= |s| && |r.value.0| <= 1
    ensures r.Some? && r.value.0 != [] ==> |r.value.1| < |s|
  {
    match d
    case Lit(c) =>
      var t := Literal(c, s);
      if t.None? then None else Some(([], t.value))
    case Space => Some(([], SkipSpace(s)))
    case Int =>
      var n := ScanInt(s);
      if n.None? then None else Some(([IntVal(n.value.0)], n.value.1))
    case Set =>
      var w := ScanSet(s);
      if w.None? then None else Some(([SetVal(w.value.0)], w.value.1))
  }

  /** What a `scanf` call leaves: the values it stored, in order, and the unread text. */
  datatype Scanned = Scanned(values: seq<Stored>, rest: string)

  /**
   * A `scanf` call: the directives are applied in order until one fails or
   * the format ends. The call returns the number of values stored.
   */
  function Scanf(fmt: seq<Directive>, s: string): (r: Scanned)
    ensures |r.rest| <= |s| && |r.values| <= |fmt|
    ensures r.values != [] ==> |r.rest| < |s|
  {
    if fmt == [] then Scanned([], s)
    else
      var c := Convert(fmt[0], s);
      if c.None? then Scanned([], s)
      else
        var more := Scanf(fmt[1..], c.value.1);
        Scanned(c.value.0 + more.values, more.rest)
  }

  /** One directive leaves the input that follows what it consumed, unchanged. */
  lemma ConvertSuffix(d: Directive, s: string)
    ensures Convert(d, s).Some? ==> Convert(d, s).value.1 == s[|s| - |Convert(d, s).value.1|..]
  {
    if d == Int {
      ScanIntSuffix(s);
    }
  }

  /** A `scanf` call leaves the input that follows what it consumed, unchanged. */
  lemma {:induction false} ScanfSuffix(fmt: seq<Directive>, s: string)
    ensures Scanf(fmt, s).rest == s[|s| - |Scanf(fmt, s).rest|..]
  {
    if fmt != [] && Convert(fmt[0], s).Some? {
      var t := Convert(fmt[0], s).value.1;
      ConvertSuffix(fmt[0], s);
      ScanfSuffix(fmt[1..], t);
    }
  }

  function Digit(d: nat): (c: char)
    requires d < 10
    ensures IsDigit(c) && DigitValue(c) == d
  {
    ('0' as int + d) as char
  }

  /** The decimal digits of a natural number, most significant first. */
  function NatToString(n: nat): (s: string)
    ensures |s| > 0
    ensures forall k :: 0 <= k < |s| ==> IsDigit(s[k])
  {
    if n < 10 then [Digit(n)] else NatToString(n / 10) + [Digit(n % 10)]
  }

  /** The text `%d` prints for an integer. */
  function IntToString(n: int): (s: string)
    ensures |s| > 0 && (IsDigit(s[0]) || s[0] == '-')
    ensures forall k :: 0 <= k < |s| ==> s[k] != ';' && !IsSpace(s[k])
  {
    if n < 0 then "-" + NatToString(-n) else NatToString(n)
  }

  /** Reading back the digits of a number gives the number. */
  lemma {:induction false} ValueOfNatToString(n: nat)
    ensures Value(NatToString(n)) == n
  {
    if n >= 10 {
      var s := NatToString(n);
      assert s[..|s| - 1] == NatToString(n / 10);
      ValueOfNatToString(n / 10);
    }
  }

  /** `%d` reads back exactly the number `%d` printed, and stops where the number ends. */
  lemma ScanIntOfIntToString(n: int, rest: string)
    requires rest == [] || !IsDigit(rest[0])
    ensures ScanInt(IntToString(n) + rest) == Some((n, rest))
  {
    if n < 0 {
      var m: nat := -n;
      assert IntToString(n) == "-" + NatToString(m);
      ScanIntOfNegativeDigits(m, rest);
    } else {
      assert IntToString(n) == NatToString(n);
      ScanIntOfDigits(n, rest);
    }
  }

  /** The digits of a number followed by a non-digit: `%d` reads the number. */
  lemma ScanIntOfDigits(m: nat, rest: string)
    requires rest == [] || !IsDigit(rest[0])
    ensures ScanInt(NatToString(m) + rest) == Some((m, rest))
  {
    var d := NatToString(m);
    var s := d + rest;
    assert SkipSpace(s) == s by { SkipSpaceAtDigit(s); }
    assert ScanDigits(s) == Some((m, rest)) by {
      ValueOfNatToString(m);
      ScanDigitsOf(d, rest);
    }
    ScanIntAtDigit(s);
  }

  /** A minus sign, the digits of a number and a non-digit: `%d` reads the negated number. */
  lemma ScanIntOfNegativeDigits(m: nat, rest: string)
    requires rest == [] || !IsDigit(rest[0])
    ensures ScanInt("-" + NatToString(m) + rest) == Some((-(m as int), rest))
  {
    var d := NatToString(m);
    var s := "-" + d + rest;
    assert SkipSpace(s) == s by { SkipSpaceAtDigit(s); }
    assert ScanDigits(s[1..]) == Some((m, rest)) by {
      DropSign(d, rest);
      ValueOfNatToString(m);
      ScanDigitsOf(d, rest);
    }
    ScanIntAtMinus(s);
  }

  /** At a digit that white space skipping stops at, `%d` reads an unsigned number. */
  lemma ScanIntAtDigit(s: string)
    requires SkipSpace(s) == s && s != [] && IsDigit(s[0])
    ensures ScanDigits(s).Some?
    ensures ScanInt(s) == Some((ScanDigits(s).value.0 as int, ScanDigits(s).value.1))
  {
    assert ScanInt(s) == ScanSigned(s);
  }

  /** At a minus sign that white space skipping stops at, `%d` reads the digits after it and negates them. */
  lemma ScanIntAtMinus(s: string)
    requires SkipSpace(s) == s && s != [] && s[0] == '-' && ScanDigits(s[1..]).Some?
    ensures ScanInt(s) == Some((-(ScanDigits(s[1..]).value.0 as int), ScanDigits(s[1..]).value.1))
  {
    assert ScanInt(s) == ScanSigned(s);
  }

  /** White space skipping stops at once at a digit or a sign. */
  lemma SkipSpaceAtDigit(s: string)
    requires s != [] && (IsDigit(s[0]) || s[0] == '-')
    ensures SkipSpace(s) == s
  {
    assert !IsSpace(s[0]);
  }

  lemma DropSign(d: string, rest: string)
    ensures ("-" + d + rest)[1..] == d + rest
  {
  }

  lemma SplitAfter(a: string, b: string)
    ensures (a + b)[..|a|] == a && (a + b)[|a|..] == b
  {
  }

  /** A run of digits followed by a non-digit is read up to its end. */
  lemma {:induction false} DigitRunOfDigits(d: string, rest: string)
    requires forall k :: 0 <= k < |d| ==> IsDigit(d[k])
    requires rest == [] || !IsDigit(rest[0])
    ensures DigitRun(d + rest) == |d|
  {
    var s := d + rest;
    assert forall k :: 0 <= k < |d| ==> s[k] == d[k];
    assert rest != [] ==> s[|d|] == rest[0];
  }

  /** `%[^;]` reads back a field free of ';' and stops at the ';' that follows it. */
  lemma ScanSetOfField(w: string, rest: string)
    requires |w| > 0 && forall k :: 0 <= k < |w| ==> w[k] != ';'
    requires rest == [] || rest[0] == ';'
    ensures ScanSet(w + rest) == Some((w, rest))
  {
    var s := w + rest;
    assert forall k :: 0 <= k < |w| ==> s[k] == w[k];
    assert rest != [] ==> s[|w|] == rest[0];
    assert s[..|w|] == w && s[|w|..] == rest;
  }
}
