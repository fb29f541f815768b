/**
 * The string and arithmetic helpers of the mobile client:
 * `formatTime`, `validateEmail` and `camelCaseToSnakeCase`, together with
 * the pieces of JavaScript's standard library they rely on (integer
 * `toString`, `padStart`, the truncating `%`, `trim`, `toLowerCase` and the
 * `\s` character class).
 */
module Helpers {
  import opened Wrappers

  // ---------------------------------------------------------------------
  // Decimal rendering of integers (Number.prototype.toString on integers)
  // ---------------------------------------------------------------------

  predicate IsDigit(c: char) { '0' <= c <= '9' }

  predicate AllDigits(s: string) { forall i :: 0 <= i < |s| ==> IsDigit(s[i]) }

  function DigitChar(d: nat): (c: char)
    requires d < 10
    ensures IsDigit(c) && DigitValue(c) == d
  {
    (('0' as int) + d) as char
  }

  function DigitValue(c: char): nat
    requires IsDigit(c)
  {
    (c as int) - ('0' as int)
  }

  /** The canonical decimal digits of `n`: no leading zero unless `n` is 0. */
  function Decimal(n: nat): (s: string)
    ensures |s| >= 1 && AllDigits(s)
    ensures |s| == 1 || s[0] != '0'
    ensures n < 10 <==> |s| == 1
    ensures n < 100 <==> |s| <= 2
    decreases n
  {
    if n < 10 then [DigitChar(n)] else Decimal(n / 10) + [DigitChar(n % 10)]
  }

  /** Reads a string of decimal digits back as a number. Leading zeros are allowed. */
  function ParseDecimal(s: string): nat
    requires AllDigits(s)
    decreases |s|
  {
    if s == [] then 0 else ParseDecimal(s[..|s| - 1]) * 10 + DigitValue(s[|s| - 1])
  }

  lemma {:induction false} ParseDecimalOfDecimal(n: nat)
    ensures ParseDecimal(Decimal(n)) == n
    decreases n
  {
    if n >= 10 {
      var s := Decimal(n);
      assert s[..|s| - 1] == Decimal(n / 10);
      ParseDecimalOfDecimal(n / 10);
    }
  }

  /** A leading '0' does not change the value of a digit string. */
  lemma {:induction false} ParseDecimalZeroPrefix(s: string)
    requires AllDigits(s)
    ensures AllDigits("0" + s) && ParseDecimal("0" + s) == ParseDecimal(s)
    decreases |s|
  {
    var t := "0" + s;
    if s != [] {
      assert t[..|t| - 1] == "0" + s[..|s| - 1];
      ParseDecimalZeroPrefix(s[..|s| - 1]);
    }
  }

  /** `String(i)` for an integer `i`: an optional '-' followed by the digits. */
  function IntToString(i: int): (s: string)
    ensures |s| >= 1 && ':' !in s
    ensures i >= 0 <==> AllDigits(s)
  {
    if i < 0 then
      var s := "-" + Decimal(-i);
      assert !IsDigit(s[0]);
      s
    else Decimal(i)
  }

  /** Reads back what `IntToString` writes; anything else is rejected. */
  function ParseInt(s: string): Option<int>
  {
    if |s| >= 2 && s[0] == '-' && AllDigits(s[1..]) then Some(-(ParseDecimal(s[1..]) as int))
    else if |s| >= 1 && AllDigits(s) then Some(ParseDecimal(s))
    else None
  }

  lemma IntToStringRoundTrip(i: int)
    ensures ParseInt(IntToString(i)) == Some(i)
  {
    var s := IntToString(i);
    if i < 0 {
      assert s[1..] == Decimal(-i);
      ParseDecimalOfDecimal(-i);
    } else {
      ParseDecimalOfDecimal(i);
    }
  }

  /** Distinct integers render differently. */
  lemma IntToStringInjective(i: int, j: int)
    requires IntToString(i) == IntToString(j)
    ensures i == j
  {
    IntToStringRoundTrip(i);
    IntToStringRoundTrip(j);
  }

  // ---------------------------------------------------------------------
  // padStart, the JavaScript remainder, formatTime
  // ---------------------------------------------------------------------

  /** `s.padStart(width, c)` with a one-character filler: copies of `c` in front until `s` is `width` long. */
  function PadStart(s: string, width: nat, c: char): string
  {
    if |s| >= width then s else seq(width - |s|, _ => c) + s
  }

  function Pad2(s: string): string { PadStart(s, 2, '0') }

  /** JavaScript's `a % b` for `b > 0`: truncating, so the sign follows `a`. */
  function JsRem(a: int, b: int): (r: int)
    requires b > 0
    ensures a >= 0 ==> 0 <= r < b
    ensures a < 0 ==> -b < r <= 0
    ensures r == a % b || r == a % b - b
  {
    if a >= 0 then a % b
    else
      NegatedRemainder(-a, b);
      -((-a) % b)
  }

  /** Euclidean division is unique: any `n == b * q + m` with `0 <= m < b` has `m == n % b`. */
  lemma RemainderUnique(n: int, b: int, q: int, m: int)
    requires b > 0 && n == b * q + m && 0 <= m < b
    ensures n % b == m
  {
    var d := q - n / b;
    assert b * d == n % b - m;
  }

  /** For `n > 0`, `-(n % b)` is `(-n) % b` or that minus `b`. */
  lemma NegatedRemainder(n: int, b: int)
    requires n > 0 && b > 0
    ensures -(n % b) == (-n) % b || -(n % b) == (-n) % b - b
  {
    var q, m := n / b, n % b;
    assert -n == b * (-q) - m;
    if m == 0 {
      RemainderUnique(-n, b, -q, 0);
    } else {
      assert -n == b * (-q - 1) + (b - m);
      RemainderUnique(-n, b, -q - 1, b - m);
    }
  }

  /** Two numbers rendered with `toString`, each padded to two characters, joined by ':'. */
  function Clock(mins: int, secs: int): string
  {
    Pad2(IntToString(mins)) + ":" + Pad2(IntToString(secs))
  }

  /**
   * `formatTime(seconds)`: `Math.floor(seconds / 60)` and `seconds % 60` on a
   * clock face. Dafny's `/` by a positive divisor is floor division, as
   * `Math.floor` of the quotient is; the remainder is JavaScript's.
   */
  function FormatTime(seconds: int): string
  {
    Clock(seconds / 60, JsRem(seconds, 60))
  }

  /** For a digit string of at most two characters, padding keeps its value. */
  lemma Pad2Digits(s: string)
    requires AllDigits(s) && 1 <= |s| <= 2
    ensures AllDigits(Pad2(s)) && |Pad2(s)| == 2 && ParseDecimal(Pad2(s)) == ParseDecimal(s)
  {
    if |s| == 1 {
      assert Pad2(s) == "0" + s;
      ParseDecimalZeroPrefix(s);
    }
  }

  /** For a digit string of any length, padding to two keeps its value. */
  lemma PadDigitsValue(s: string)
    requires AllDigits(s) && |s| >= 1
    ensures AllDigits(Pad2(s)) && ParseDecimal(Pad2(s)) == ParseDecimal(s)
  {
    if |s| <= 2 { Pad2Digits(s); }
  }

  /**
   * Reads a clock string `M...M:SS` back as a number of seconds: the minutes
   * are every digit before the last ':', the seconds two digits below 60.
   */
  function ParseClock(t: string): Option<nat>
  {
    if |t| >= 4 && t[|t| - 3] == ':' && AllDigits(t[..|t| - 3]) && AllDigits(t[|t| - 2..])
       && ParseDecimal(t[|t| - 2..]) < 60
    then Some(ParseDecimal(t[..|t| - 3]) * 60 + ParseDecimal(t[|t| - 2..]))
    else None
  }

  /** Where the fields of `m + ":" + s` sit when `s` has two characters. */
  lemma ClockLayout(m: string, s: string)
    requires |s| == 2
    ensures var t := m + ":" + s;
      |t| == |m| + 3 && t[|t| - 3] == ':' && t[..|t| - 3] == m && t[|t| - 2..] == s
  {
    var t := m + ":" + s;
    assert t[..|t| - 3] == m;
    assert t[|t| - 2..] == s;
  }

  /** The fields of a clock face of two non-negative numbers read back as those numbers. */
  lemma ClockFields(mins: nat, secs: nat)
    requires secs < 100
    ensures var t := Clock(mins, secs);
      && |t| >= 5 && t[|t| - 3] == ':'
      && AllDigits(t[..|t| - 3]) && AllDigits(t[|t| - 2..]) && |t[|t| - 2..]| == 2
      && ParseDecimal(t[..|t| - 3]) == mins
      && ParseDecimal(t[|t| - 2..]) == secs
  {
    var m := Pad2(Decimal(mins));
    var s := Pad2(Decimal(secs));
    PadDigitsValue(Decimal(mins));
    Pad2Digits(Decimal(secs));
    ParseDecimalOfDecimal(mins);
    ParseDecimalOfDecimal(secs);
    ClockLayout(m, s);
    var t := m + ":" + s;
    assert t == Clock(mins, secs);
    assert t[..|t| - 3] == m && AllDigits(m) && ParseDecimal(m) == mins;
    assert t[|t| - 2..] == s && AllDigits(s) && ParseDecimal(s) == secs;
  }

  /** The layout of `formatTime` on a non-negative number of seconds. */
  lemma FormatTimeFields(seconds: nat)
    ensures var t := FormatTime(seconds);
      && |t| >= 5 && t[|t| - 3] == ':'
      && AllDigits(t[..|t| - 3]) && AllDigits(t[|t| - 2..]) && |t[|t| - 2..]| == 2
      && ParseDecimal(t[..|t| - 3]) == seconds / 60
      && ParseDecimal(t[|t| - 2..]) == seconds % 60
  {
    var q, r := seconds / 60, seconds % 60;
    assert JsRem(seconds, 60) == r;
    assert FormatTime(seconds) == Clock(q, r);
    ClockFields(q, r);
  }

  /** The seconds field is always two digits reading 00..59. */
  lemma FormatTimeSecondsField(seconds: nat)
    ensures var t := FormatTime(seconds);
      && |t| >= 5 && t[|t| - 3] == ':'
      && IsDigit(t[|t| - 2]) && IsDigit(t[|t| - 1])
      && DigitValue(t[|t| - 2]) * 10 + DigitValue(t[|t| - 1]) == seconds % 60
      && DigitValue(t[|t| - 2]) <= 5
  {
    FormatTimeFields(seconds);
    var t := FormatTime(seconds);
    var f := t[|t| - 2..];
    assert f[..|f| - 1] == [f[0]];
    assert [f[0]][..0] == [];
    assert ParseDecimal(f) == DigitValue(f[0]) * 10 + DigitValue(f[1]);
  }

  /** Round trip: the minutes and seconds fields read back give the input. */
  lemma FormatTimeRoundTrip(seconds: nat)
    ensures ParseClock(FormatTime(seconds)) == Some(seconds)
  {
    FormatTimeFields(seconds);
  }

  /** `formatTime` is exactly five characters long for 0..5999 seconds and longer after. */
  lemma FormatTimeLength(seconds: nat)
    ensures |FormatTime(seconds)| == 5 <==> seconds < 6000
  {
    var q, r := seconds / 60, seconds % 60;
    assert JsRem(seconds, 60) == r;
    assert FormatTime(seconds) == Pad2(Decimal(q)) + ":" + Pad2(Decimal(r));
    var m := Decimal(q);
    assert |Pad2(m)| == if |m| >= 2 then |m| else 2;
    assert |Pad2(Decimal(r))| == 2;
  }

  // ---------------------------------------------------------------------
  // validateEmail: /^[^\s@]+@[^\s@]+\.[^\s@]+$/
  // ---------------------------------------------------------------------

  /** The ECMAScript `\s` class: white space and line terminators. */
  predicate IsJsWhitespace(c: char)
  {
    || c == '\t' || c == '\n' || c == '\U{000B}' || c == '\U{000C}' || c == '\r' || c == ' '
    || c == '\U{00A0}' || c == '\U{1680}' || ('\U{2000}' <= c <= '\U{200A}')
    || c == '\U{2028}' || c == '\U{2029}' || c == '\U{202F}' || c == '\U{205F}'
    || c == '\U{3000}' || c == '\U{FEFF}'
  }

  /** A character of the class `[^\s@]`. */
  predicate EmailChar(c: char) { !IsJsWhitespace(c) && c != '@' }

  /**
   * The language of the pattern, stated by positions: one '@' at `at` with
   * something before it, a '.' at `dot` with at least one character between
   * the '@' and it and at least one after it, and every other character in
   * `[^\s@]`.
   */
  ghost predicate EmailShape(e: string)
  {
    exists at, dot :: 0 < at && at + 1 < dot && dot + 1 < |e| && e[at] == '@' && e[dot] == '.'
      && forall k :: 0 <= k < |e| && k != at ==> EmailChar(e[k])
  }

  /**
   * The states of a deterministic automaton for the pattern:
   * Local = in `[^\s@]+` before the '@'; AfterAt = just read the '@';
   * Domain = in the part after '@' with no usable '.' yet;
   * Dot = just read a '.' that has a character between it and the '@';
   * Tld = a usable '.' was followed by at least one character (accepting).
   */
  datatype EmailState = Start | Local | AfterAt | Domain | Dot | Tld | Reject

  function EmailStep(st: EmailState, c: char): EmailState
  {
    if IsJsWhitespace(c) then Reject
    else match st
      case Start => if c == '@' then Reject else Local
      case Local => if c == '@' then AfterAt else Local
      case AfterAt => if c == '@' then Reject else Domain
      case Domain => if c == '@' then Reject else if c == '.' then Dot else Domain
      case Dot => if c == '@' then Reject else Tld
      case Tld => if c == '@' then Reject else Tld
      case Reject => Reject
  }

  function EmailRun(s: string): EmailState
    decreases |s|
  {
    if s == [] then Start else EmailStep(EmailRun(s[..|s| - 1]), s[|s| - 1])
  }

  /** `validateEmail(email)`: the pattern matches the whole string. */
  function ValidateEmail(e: string): (ok: bool)
  {
    EmailRun(e) == Tld
  }

  /** The index of the first '@' of `s`, if any. */
  function FirstAt(s: string): (r: Option<nat>)
    ensures r.Some? ==> r.value < |s| && s[r.value] == '@' && forall k :: 0 <= k < r.value ==> s[k] != '@'
    ensures r.None? ==> forall k :: 0 <= k < |s| ==> s[k] != '@'
    decreases |s|
  {
    if s == [] then None
    else var r := FirstAt(s[..|s| - 1]);
      if r.Some? then r else if s[|s| - 1] == '@' then Some(|s| - 1) else None
  }

  predicate HasWhitespace(s: string) { exists k :: 0 <= k < |s| && IsJsWhitespace(s[k]) }

  /** A usable '.': after the character that follows `at`, with a character after it. */
  predicate HasUsableDot(s: string, at: nat) { exists k :: at + 2 <= k <= |s| - 2 && s[k] == '.' }

  /** The state the automaton should be in after reading `p`, stated without running it. */
  ghost function ExpectedState(p: string): EmailState
  {
    if p == [] then Start
    else if HasWhitespace(p) then Reject
    else match FirstAt(p)
      case None => Local
      case Some(at) =>
        if at == 0 || (exists k :: at < k < |p| && p[k] == '@') then Reject
        else if at == |p| - 1 then AfterAt
        else if HasUsableDot(p, at) then Tld
        else if p[|p| - 1] == '.' && |p| - 1 >= at + 2 then Dot
        else Domain
  }

  lemma {:induction false} EmailRunExpected(p: string)
    ensures EmailRun(p) == ExpectedState(p)
    decreases |p|
  {
    if p != [] {
      var q := p[..|p| - 1];
      var c := p[|p| - 1];
      assert p == q + [c];
      EmailRunExpected(q);
      assert forall k :: 0 <= k < |q| ==> q[k] == p[k];
      if HasWhitespace(q) {
        var k :| 0 <= k < |q| && IsJsWhitespace(q[k]);
        assert IsJsWhitespace(p[k]);
      } else if !IsJsWhitespace(c) {
        assert !HasWhitespace(p);
        match FirstAt(q)
        case None =>
        case Some(at) =>
          if exists k :: at < k < |q| && q[k] == '@' {
            var k :| at < k < |q| && q[k] == '@';
            assert p[k] == '@';
          } else if at != 0 {
            if at < |q| - 1 && HasUsableDot(q, at) {
              var k :| at + 2 <= k <= |q| - 2 && q[k] == '.';
              assert p[k] == '.';
              assert HasUsableDot(p, at);
            }
            if HasUsableDot(p, at) && c != '@' {
              var k :| at + 2 <= k <= |p| - 2 && p[k] == '.';
              if k <= |q| - 2 {
                assert HasUsableDot(q, at);
              }
            }
          }
      }
    }
  }

  /** The automaton accepts exactly the strings the pattern describes. */
  lemma ValidateEmailCorrect(e: string)
    ensures ValidateEmail(e) <==> EmailShape(e)
  {
    EmailRunExpected(e);
    if ValidateEmail(e) {
      var at := FirstAt(e).value;
      var dot :| at + 2 <= dot <= |e| - 2 && e[dot] == '.';
      forall k | 0 <= k < |e| && k != at ensures EmailChar(e[k]) {
        assert !IsJsWhitespace(e[k]);
      }
      assert 0 < at && at + 1 < dot && dot + 1 < |e| && e[at] == '@' && e[dot] == '.';
    }
    if EmailShape(e) {
      var at, dot :| 0 < at && at + 1 < dot && dot + 1 < |e| && e[at] == '@' && e[dot] == '.'
        && forall k :: 0 <= k < |e| && k != at ==> EmailChar(e[k]);
      assert !HasWhitespace(e);
      assert FirstAt(e) == Some(at);
      assert HasUsableDot(e, at);
    }
  }

  /** The clauses of the pattern, one by one: what an accepted address looks like. */
  lemma ValidEmailParts(e: string)
    requires ValidateEmail(e)
    ensures FirstAt(e).Some?
    ensures var at := FirstAt(e).value;
      && at > 0
      && (forall k :: 0 <= k < |e| && k != at ==> e[k] != '@')
      && !HasWhitespace(e)
      && HasUsableDot(e, at)
  {
    EmailRunExpected(e);
  }

  // ---------------------------------------------------------------------
  // camelCaseToSnakeCase: replace(/([A-Z])/g, ' $1').trim().toLowerCase()
  // ---------------------------------------------------------------------

  predicate IsAsciiUpper(c: char) { 'A' <= c <= 'Z' }

  predicate NoAsciiUpper(s: string) { forall i :: 0 <= i < |s| ==> !IsAsciiUpper(s[i]) }

  /** No white space at either end (the empty string qualifies). */
  predicate Trimmed(s: string) { s == [] || (!IsJsWhitespace(s[0]) && !IsJsWhitespace(s[|s| - 1])) }

  /** `replace(/([A-Z])/g, ' $1')`: a space before every ASCII capital. */
  function SpaceBeforeCapitals(s: string): (r: string)
    ensures |r| >= |s|
    ensures r != [] ==> !IsAsciiUpper(r[0])
    ensures forall k :: 0 <= k < |r| && IsAsciiUpper(r[k]) ==> 0 < k && r[k - 1] == ' '
    decreases |s|
  {
    if s == [] then []
    else (if IsAsciiUpper(s[0]) then [' ', s[0]] else [s[0]]) + SpaceBeforeCapitals(s[1..])
  }

  /**
   * Undoes the replacement: drops each space that stands right before an
   * ASCII capital.
   */
  function DropSpacesBeforeCapitals(r: string): string
    decreases |r|
  {
    if r == [] then []
    else if |r| >= 2 && r[0] == ' ' && IsAsciiUpper(r[1]) then [r[1]] + DropSpacesBeforeCapitals(r[2..])
    else [r[0]] + DropSpacesBeforeCapitals(r[1..])
  }

  /** The only change the replacement makes is the inserted spaces: dropping them gives the input back. */
  lemma {:induction false} SpaceBeforeCapitalsUndone(s: string)
    ensures DropSpacesBeforeCapitals(SpaceBeforeCapitals(s)) == s
    decreases |s|
  {
    if s != [] {
      var rest := SpaceBeforeCapitals(s[1..]);
      SpaceBeforeCapitalsUndone(s[1..]);
      if IsAsciiUpper(s[0]) {
        assert SpaceBeforeCapitals(s) == [' ', s[0]] + rest;
        assert ([' ', s[0]] + rest)[2..] == rest;
      } else {
        assert SpaceBeforeCapitals(s) == [s[0]] + rest;
        assert ([s[0]] + rest)[1..] == rest;
      }
    }
  }

  /** How many white-space characters open `s`. */
  function LeadingWhitespace(s: string): (n: nat)
    ensures n <= |s|
    ensures forall k :: 0 <= k < n ==> IsJsWhitespace(s[k])
    ensures n < |s| ==> !IsJsWhitespace(s[n])
    decreases |s|
  {
    if s != [] && IsJsWhitespace(s[0]) then 1 + LeadingWhitespace(s[1..]) else 0
  }

  /** How many white-space characters close `s`. */
  function TrailingWhitespace(s: string): (n: nat)
    ensures n <= |s|
    ensures forall k :: |s| - n <= k < |s| ==> IsJsWhitespace(s[k])
    ensures n < |s| ==> !IsJsWhitespace(s[|s| - 1 - n])
    decreases |s|
  {
    if s != [] && IsJsWhitespace(s[|s| - 1]) then 1 + TrailingWhitespace(s[..|s| - 1]) else 0
  }

  /** `String.prototype.trim`: white space removed from both ends. */
  function Trim(s: string): string
  {
    var t := s[LeadingWhitespace(s)..];
    t[..|t| - TrailingWhitespace(t)]
  }

  /** Trimming leaves no white space at either end, keeps a contiguous part of the input, and fixes trimmed strings. */
  lemma TrimProperties(s: string)
    ensures Trimmed(Trim(s))
    ensures var i := LeadingWhitespace(s); i + |Trim(s)| <= |s| && Trim(s) == s[i..i + |Trim(s)|]
    ensures Trimmed(s) ==> Trim(s) == s
    ensures var i := LeadingWhitespace(s);
      && (forall k :: 0 <= k < i ==> IsJsWhitespace(s[k]))
      && (forall k :: i + |Trim(s)| <= k < |s| ==> IsJsWhitespace(s[k]))
  {
    var i := LeadingWhitespace(s);
    var t := s[i..];
    var j := TrailingWhitespace(t);
    var r := t[..|t| - j];
    assert Trim(s) == r;
    assert r == s[i..i + |r|];
    forall k | i + |r| <= k < |s|
      ensures IsJsWhitespace(s[k])
    {
      assert s[k] == t[k - i];
    }
    if r != [] {
      assert r[0] == t[0];
      assert r[|r| - 1] == t[|t| - 1 - j];
    }
    if Trimmed(s) {
      assert i == 0;
      assert t == s;
    }
  }

  /** Lower-cases the ASCII capitals and leaves every other character alone. */
  function LowerAscii(c: char): (d: char)
    ensures !IsAsciiUpper(d)
    ensures IsJsWhitespace(d) <==> IsJsWhitespace(c)
    ensures !IsAsciiUpper(c) ==> d == c
  {
    if IsAsciiUpper(c) then (c as int + 32) as char else c
  }

  /** `toLowerCase`, restricted to ASCII letters. */
  function ToLowerAscii(s: string): (r: string)
    ensures |r| == |s|
  {
    seq(|s|, i requires 0 <= i < |s| => LowerAscii(s[i]))
  }

  /** `camelCaseToSnakeCase(value)`. */
  function CamelCaseToSnakeCase(value: string): string
  {
    ToLowerAscii(Trim(SpaceBeforeCapitals(value)))
  }

  /** The result has no ASCII capital and no white space at either end. */
  lemma CamelCaseOutputShape(value: string)
    ensures NoAsciiUpper(CamelCaseToSnakeCase(value))
    ensures Trimmed(CamelCaseToSnakeCase(value))
  {
    var t := Trim(SpaceBeforeCapitals(value));
    TrimProperties(SpaceBeforeCapitals(value));
    var r := ToLowerAscii(t);
    if r != [] {
      assert r[0] == LowerAscii(t[0]);
      assert r[|r| - 1] == LowerAscii(t[|t| - 1]);
    }
  }

  lemma {:induction false} SpaceBeforeNoCapitals(s: string)
    requires NoAsciiUpper(s)
    ensures SpaceBeforeCapitals(s) == s
    decreases |s|
  {
    if s != [] {
      assert !IsAsciiUpper(s[0]);
      SpaceBeforeNoCapitals(s[1..]);
    }
  }

  /** A string with no capitals and no surrounding white space is returned unchanged. */
  lemma CamelCaseFixedPoint(value: string)
    requires NoAsciiUpper(value) && Trimmed(value)
    ensures CamelCaseToSnakeCase(value) == value
  {
    SpaceBeforeNoCapitals(value);
    TrimProperties(value);
  }
}
