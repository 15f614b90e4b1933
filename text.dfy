/** String operations of JavaScript that the scripts rely on: `trim`, `split` on one
    character, `startsWith`, `includes`, ASCII `toLowerCase`, decimal digits and `String(n)`. */
module Text {

  /** ECMAScript WhiteSpace and LineTerminator code points, the set `String.prototype.trim` removes. */
  predicate IsWhitespace(c: char) {
    var n := c as int;
    n == 0x09 || n == 0x0A || n == 0x0B || n == 0x0C || n == 0x0D || n == 0x20 ||
    n == 0xA0 || n == 0x1680 || (0x2000 <= n <= 0x200A) || n == 0x2028 || n == 0x2029 ||
    n == 0x202F || n == 0x205F || n == 0x3000 || n == 0xFEFF
  }

  predicate AllWhitespace(s: string) {
    forall i :: 0 <= i < |s| ==> IsWhitespace(s[i])
  }

  /** Number of whitespace characters at the start of `s`. */
  function LeadingWhitespace(s: string): (n: nat)
    ensures n <= |s|
  {
    if s != [] && IsWhitespace(s[0]) then LeadingWhitespace(s[1..]) + 1 else 0
  }

  /** The leading run is all whitespace and stops at a character that is not. */
  lemma {:induction false} LeadingWhitespaceSpan(s: string)
    ensures forall i :: 0 <= i < LeadingWhitespace(s) ==> IsWhitespace(s[i])
    ensures LeadingWhitespace(s) < |s| ==> !IsWhitespace(s[LeadingWhitespace(s)])
  {
    if s != [] && IsWhitespace(s[0]) {
      LeadingWhitespaceSpan(s[1..]);
    }
  }

  /** Number of whitespace characters at the end of `s`. */
  function TrailingWhitespace(s: string): (n: nat)
    ensures n <= |s|
  {
    if s != [] && IsWhitespace(s[|s| - 1]) then TrailingWhitespace(s[..|s| - 1]) + 1 else 0
  }

  /** The trailing run is all whitespace and stops after a character that is not. */
  lemma {:induction false} TrailingWhitespaceSpan(s: string)
    ensures forall i :: |s| - TrailingWhitespace(s) <= i < |s| ==> IsWhitespace(s[i])
    ensures TrailingWhitespace(s) < |s| ==> !IsWhitespace(s[|s| - TrailingWhitespace(s) - 1])
  {
    if s != [] && IsWhitespace(s[|s| - 1]) {
      TrailingWhitespaceSpan(s[..|s| - 1]);
    }
  }

  function TrimStart(s: string): string {
    s[LeadingWhitespace(s)..]
  }

  function TrimEnd(s: string): string {
    s[..|s| - TrailingWhitespace(s)]
  }

  /** `s.trim()`. */
  function Trim(s: string): string {
    TrimEnd(TrimStart(s))
  }

  /** `trim` removes exactly a whitespace prefix and a whitespace suffix, and what it keeps
      neither starts nor ends with whitespace. */
  lemma TrimShape(s: string)
    ensures var t := Trim(s); var a := LeadingWhitespace(s);
      a + |t| <= |s| && t == s[a..a + |t|] &&
      AllWhitespace(s[..a]) && AllWhitespace(s[a + |t|..]) &&
      (t == [] || (!IsWhitespace(t[0]) && !IsWhitespace(t[|t| - 1])))
  {
    TrimSlice(s);
    TrimPadding(s);
    TrimEnds(s);
  }

  lemma TrimSlice(s: string)
    ensures var a := LeadingWhitespace(s); a + |Trim(s)| <= |s| && Trim(s) == s[a..a + |Trim(s)|]
  {
    var a := LeadingWhitespace(s);
    var u := s[a..];
    var t := u[..|u| - TrailingWhitespace(u)];
    assert Trim(s) == t;
    assert t == s[a..a + |t|];
  }

  lemma TrimPadding(s: string)
    ensures var a := LeadingWhitespace(s); AllWhitespace(s[..a]) && AllWhitespace(s[a + |Trim(s)|..])
  {
    TrimPaddingFront(s);
    TrimPaddingBack(s);
  }

  lemma TrimPaddingFront(s: string)
    ensures AllWhitespace(s[..LeadingWhitespace(s)])
  {
    LeadingWhitespaceSpan(s);
    AllWhitespaceSlice(s, 0, LeadingWhitespace(s));
  }

  lemma TrimPaddingBack(s: string)
    ensures AllWhitespace(s[LeadingWhitespace(s) + |Trim(s)|..])
  {
    var a := LeadingWhitespace(s);
    var u := s[a..];
    var e := |u| - TrailingWhitespace(u);
    TrailingPad(u);
    assert |Trim(s)| == e;
    assert s[a + e..] == u[e..];
  }

  lemma TrailingPad(u: string)
    ensures AllWhitespace(u[|u| - TrailingWhitespace(u)..])
  {
    TrailingWhitespaceSpan(u);
    AllWhitespaceFrom(u, |u| - TrailingWhitespace(u));
  }

  lemma AllWhitespaceFrom(s: string, i: nat)
    requires i <= |s| && forall k :: i <= k < |s| ==> IsWhitespace(s[k])
    ensures AllWhitespace(s[i..])
  {
    forall k | 0 <= k < |s| - i ensures IsWhitespace(s[i..][k]) {
      assert s[i..][k] == s[i + k];
    }
  }

  lemma TrimEnds(s: string)
    ensures Trim(s) == [] || (!IsWhitespace(Trim(s)[0]) && !IsWhitespace(Trim(s)[|Trim(s)| - 1]))
  {
    var a := LeadingWhitespace(s);
    var u := s[a..];
    var b := TrailingWhitespace(u);
    var t := u[..|u| - b];
    assert Trim(s) == t;
    LeadingWhitespaceSpan(s);
    TrailingWhitespaceSpan(u);
    if t != [] {
      assert a < |s| && t[0] == s[a];
      assert b < |u| && t[|t| - 1] == u[|u| - b - 1];
    }
  }

  lemma AllWhitespaceSlice(s: string, i: nat, j: nat)
    requires i <= j <= |s| && forall k :: i <= k < j ==> IsWhitespace(s[k])
    ensures AllWhitespace(s[i..j])
  {
    assert forall k :: 0 <= k < j - i ==> s[i..j][k] == s[i + k];
  }

  lemma AllWhitespaceAppend(x: string, y: string)
    requires AllWhitespace(x) && AllWhitespace(y)
    ensures AllWhitespace(x + y)
  {
    forall i | 0 <= i < |x + y| ensures IsWhitespace((x + y)[i]) {
      if i < |x| { assert (x + y)[i] == x[i]; } else { assert (x + y)[i] == y[i - |x|]; }
    }
  }

  /** A string trims to "" exactly when it is all whitespace. */
  lemma TrimEmptyIffBlank(s: string)
    ensures Trim(s) == [] <==> AllWhitespace(s)
  {
    TrimShape(s);
    var a := LeadingWhitespace(s);
    if Trim(s) == [] {
      AllWhitespaceAppend(s[..a], s[a..]);
      assert s[..a] + s[a..] == s;
    } else {
      var t := Trim(s);
      assert s[a] == t[0];
    }
  }

  lemma TrimIdempotent(s: string)
    ensures Trim(Trim(s)) == Trim(s)
  {
    TrimShape(s);
    var t := Trim(s);
    if t != [] {
      assert LeadingWhitespace(t) == 0;
      assert TrailingWhitespace(t) == 0;
    }
  }

  lemma {:induction false} LeadingWhitespaceAppend(w: string, y: string)
    requires AllWhitespace(w)
    ensures LeadingWhitespace(w + y) == |w| + LeadingWhitespace(y)
  {
    if w == [] {
      assert w + y == y;
    } else {
      assert (w + y)[0] == w[0] && (w + y)[1..] == w[1..] + y;
      LeadingWhitespaceAppend(w[1..], y);
    }
  }

  lemma {:induction false} TrailingWhitespaceAppend(y: string, w: string)
    requires AllWhitespace(w)
    ensures TrailingWhitespace(y + w) == TrailingWhitespace(y) + |w|
  {
    if w == [] {
      assert y + w == y;
    } else {
      var n := |w| - 1;
      assert (y + w)[|y + w| - 1] == w[n] && (y + w)[..|y + w| - 1] == y + w[..n];
      TrailingWhitespaceAppend(y, w[..n]);
    }
  }

  /** Trimming removes exactly the whitespace padding around a text that neither starts nor
      ends with whitespace. */
  lemma TrimPadded(w1: string, x: string, w2: string)
    requires AllWhitespace(w1) && AllWhitespace(w2)
    requires x == [] || (!IsWhitespace(x[0]) && !IsWhitespace(x[|x| - 1]))
    ensures Trim(w1 + x + w2) == x
  {
    var s := w1 + x + w2;
    if x == [] {
      assert s == w1 + w2;
      AllWhitespaceAppend(w1, w2);
      TrimEmptyIffBlank(s);
    } else {
      assert s == w1 + (x + w2);
      LeadingWhitespaceAppend(w1, x + w2);
      assert (x + w2)[0] == x[0];
      assert TrimStart(s) == x + w2;
      TrailingWhitespaceAppend(x, w2);
      assert (x + w2)[..|x|] == x;
    }
  }

  /** ASCII `toLowerCase`. The model only compares lower-cased names with ASCII words, and no
      non-ASCII character of any string lowers to one of those words. */
  function LowerChar(c: char): char {
    if 'A' <= c <= 'Z' then (c as int + 32) as char else c
  }

  function ToLower(s: string): (r: string)
    ensures |r| == |s| && forall i :: 0 <= i < |s| ==> r[i] == LowerChar(s[i])
  {
    seq(|s|, i requires 0 <= i < |s| => LowerChar(s[i]))
  }

  /** `s.startsWith(prefix)`. */
  predicate StartsWith(s: string, prefix: string) {
    |prefix| <= |s| && s[..|prefix|] == prefix
  }

  lemma StartsWithAppend(prefix: string, rest: string)
    ensures StartsWith(prefix + rest, prefix)
  {
    assert (prefix + rest)[..|prefix|] == prefix;
  }

  /** `sub` occurs in `s` at position `i`. */
  predicate OccursAt(s: string, sub: string, i: nat) {
    i + |sub| <= |s| && s[i..i + |sub|] == sub
  }

  /** `s.includes(sub)`. */
  predicate Contains(s: string, sub: string) {
    exists i: nat | i <= |s| :: OccursAt(s, sub, i)
  }

  // ---------------------------------------------------------------------------
  // split on a single character

  /** `s.split(sep)` for a one-character separator: the pieces between separators,
      including empty ones at either end. */
  function Split(s: string, sep: char): (parts: seq<string>)
    ensures |parts| >= 1
    ensures forall i :: 0 <= i < |parts| ==> sep !in parts[i]
  {
    if s == [] then [[]]
    else
      var prefix := Split(s[..|s| - 1], sep);
      var c := s[|s| - 1];
      if c == sep then prefix + [[]]
      else prefix[..|prefix| - 1] + [prefix[|prefix| - 1] + [c]]
  }

  /** `parts.join(sep)`. */
  function Join(parts: seq<string>, sep: char): string
    requires |parts| >= 1
  {
    if |parts| == 1 then parts[0]
    else Join(parts[..|parts| - 1], sep) + [sep] + parts[|parts| - 1]
  }

  lemma {:induction false} JoinSplit(s: string, sep: char)
    ensures Join(Split(s, sep), sep) == s
  {
    if s != [] {
      var init := s[..|s| - 1];
      var prefix := Split(init, sep);
      var c := s[|s| - 1];
      JoinSplit(init, sep);
      assert s == init + [c];
      if c == sep {
        JoinAppendEmpty(prefix, sep);
      } else {
        JoinExtendLast(prefix, sep, c);
      }
    }
  }

  /** A new empty last part adds the separator. */
  lemma JoinAppendEmpty(parts: seq<string>, sep: char)
    requires |parts| >= 1
    ensures Join(parts + [[]], sep) == Join(parts, sep) + [sep]
  {
    assert (parts + [[]])[..|parts|] == parts;
  }

  /** Extending the last part extends the joined text. */
  lemma JoinExtendLast(parts: seq<string>, sep: char, c: char)
    requires |parts| >= 1
    ensures Join(parts[..|parts| - 1] + [parts[|parts| - 1] + [c]], sep) == Join(parts, sep) + [c]
  {
    var k := |parts| - 1;
    var longer := parts[..k] + [parts[k] + [c]];
    assert longer[..k] == parts[..k];
    if k > 0 {
      assert Join(longer, sep) == Join(parts[..k], sep) + [sep] + (parts[k] + [c]);
    }
  }

  lemma {:induction false} SplitWithoutSeparator(p: string, sep: char)
    requires sep !in p
    ensures Split(p, sep) == [p]
  {
    if p != [] {
      SplitWithoutSeparator(p[..|p| - 1], sep);
      assert p[..|p| - 1] + [p[|p| - 1]] == p;
    }
  }

  lemma {:induction false} SplitAfterSeparator(x: string, p: string, sep: char)
    requires sep !in p
    ensures Split(x + [sep] + p, sep) == Split(x, sep) + [p]
    decreases |p|
  {
    var s := x + [sep] + p;
    if p == [] {
      assert s[..|s| - 1] == x;
    } else {
      var q := p[..|p| - 1];
      assert s[..|s| - 1] == x + [sep] + q;
      SplitAfterSeparator(x, q, sep);
      assert q + [p[|p| - 1]] == p;
    }
  }

  /** Splitting a joined list of separator-free pieces gives the pieces back. */
  lemma {:induction false} SplitJoin(parts: seq<string>, sep: char)
    requires |parts| >= 1
    requires forall i :: 0 <= i < |parts| ==> sep !in parts[i]
    ensures Split(Join(parts, sep), sep) == parts
  {
    if |parts| == 1 {
      SplitWithoutSeparator(parts[0], sep);
    } else {
      var init := parts[..|parts| - 1];
      SplitJoin(init, sep);
      SplitAfterSeparator(Join(init, sep), parts[|parts| - 1], sep);
    }
  }

  // ---------------------------------------------------------------------------
  // decimal digits

  /** An ASCII decimal digit, the class `\d` of JavaScript regular expressions. */
  predicate IsDigit(c: char) {
    '0' <= c <= '9'
  }

  predicate AllDigits(s: string) {
    forall i :: 0 <= i < |s| ==> IsDigit(s[i])
  }

  /** \w of JavaScript regular expressions: ASCII letters, digits and underscore. */
  predicate IsWordChar(c: char) {
    IsDigit(c) || ('a' <= c <= 'z') || ('A' <= c <= 'Z') || c == '_'
  }

  function DigitValue(c: char): nat
    requires IsDigit(c)
  {
    c as int - '0' as int
  }

  function DigitChar(d: nat): (c: char)
    requires d < 10
    ensures IsDigit(c) && DigitValue(c) == d
  {
    ('0' as int + d) as char
  }

  /** Decimal value of a digit string, leading zeros allowed (`parseInt(s, 10)`, `Number(s)`). */
  function DigitsValue(s: string): nat
    requires AllDigits(s)
  {
    if s == [] then 0 else 10 * DigitsValue(s[..|s| - 1]) + DigitValue(s[|s| - 1])
  }

  /** `String(n)` for a natural number: decimal, no leading zeros. */
  function NatToString(n: nat): (r: string)
    ensures |r| >= 1 && AllDigits(r) && DigitsValue(r) == n
    ensures (r[0] == '0') == (n == 0)
    ensures (|r| == 1) == (n < 10)
  {
    if n < 10 then [DigitChar(n)]
    else
      var init := NatToString(n / 10);
      var r := init + [DigitChar(n % 10)];
      assert r[..|r| - 1] == init;
      r
  }

  /** `String(i)` for an integer. */
  function IntToString(i: int): string {
    if i < 0 then "-" + NatToString(-i) else NatToString(i)
  }

  /** The last digit of a number with more than one digit is written after the others. */
  lemma NatToStringStep(n: nat)
    requires n >= 10
    ensures NatToString(n) == NatToString(n / 10) + [DigitChar(n % 10)]
  {
  }

  /** `String(n).padStart(2, "0")`. */
  function Pad2(n: nat): (r: string)
    ensures AllDigits(r) && DigitsValue(r) == n
    ensures n < 100 ==> |r| == 2
  {
    var s := NatToString(n);
    if |s| < 2 then
      var r := "0" + s;
      assert r[..1] == "0";
      r
    else
      assert n < 100 ==> |s| == |NatToString(n / 10)| + 1 == 2;
      s
  }

  /** A number below 10, padded: a zero and its digit. */
  lemma Pad2OneDigit(n: nat)
    requires n < 10
    ensures Pad2(n) == ['0', DigitChar(n)]
  {
  }

  /** A number from 10 to 99, padded: its two digits. */
  lemma Pad2TwoDigits(n: nat)
    requires 10 <= n < 100
    ensures Pad2(n) == [DigitChar(n / 10), DigitChar(n % 10)]
  {
    NatToStringStep(n);
  }

  /** A four-digit number prints as exactly four digits. */
  lemma FourDigits(y: nat)
    requires 1000 <= y <= 9999
    ensures |NatToString(y)| == 4
  {
    var c, d := y / 10, y / 100;
    assert c / 10 == d && 1 <= d / 10 <= 9;
    assert |NatToString(d / 10)| == 1;
    assert |NatToString(d)| == |NatToString(d / 10)| + 1 == 2;
    assert |NatToString(c)| == |NatToString(d)| + 1 == 3;
    assert |NatToString(y)| == |NatToString(c)| + 1;
  }

  /** Length of the run of digits starting at `from`. */
  function DigitRun(s: string, from: nat): (n: nat)
    requires from <= |s|
    ensures from + n <= |s| && AllDigits(s[from..from + n])
    ensures from + n < |s| ==> !IsDigit(s[from + n])
    decreases |s| - from
  {
    if from < |s| && IsDigit(s[from]) then
      var k := DigitRun(s, from + 1);
      assert s[from..from + k + 1] == [s[from]] + s[from + 1..from + 1 + k];
      k + 1
    else 0
  }

  /** Decimal value of the run of digits starting at `from` (`parseInt` of a `\d+` capture). */
  function DigitRunValue(s: string, from: nat): nat
    requires from <= |s|
  {
    DigitsValue(s[from..from + DigitRun(s, from)])
  }

  /** A digit string standing at `from` and not followed by a digit is the whole run there,
      and the run's value is the string's value. */
  lemma DigitRunIs(s: string, from: nat, digits: string)
    requires from + |digits| <= |s| && s[from..from + |digits|] == digits && AllDigits(digits)
    requires from + |digits| == |s| || !IsDigit(s[from + |digits|])
    ensures DigitRun(s, from) == |digits| && DigitRunValue(s, from) == DigitsValue(digits)
    ensures digits != [] ==> IsDigit(s[from])
  {
    DigitRunOf(s, from, |digits|);
    if digits != [] {
      assert s[from] == digits[0];
    }
  }

  /** The digit run starting at `from` is exactly `n` long: the digits end there. */
  lemma {:induction false} DigitRunOf(s: string, from: nat, n: nat)
    requires from + n <= |s| && AllDigits(s[from..from + n])
    requires from + n == |s| || !IsDigit(s[from + n])
    ensures DigitRun(s, from) == n
    decreases n
  {
    if n > 0 {
      assert s[from] == s[from..from + n][0];
      assert s[from + 1..from + n] == s[from..from + n][1..];
      DigitRunOf(s, from + 1, n - 1);
    }
  }
}
