/** The JavaScript string operations the server actions rely on:
    `trim`, ASCII case mapping, `String(n)`, `Number(s)`, `padStart`,
    `split`/`join` on one separator character, `startsWith`, and the
    code-point order a database uses for `ORDER BY` on text. */
module Text {

  // ---------------------------------------------------------------------
  // Whitespace and trim
  // ---------------------------------------------------------------------

  /** The characters `String.prototype.trim` removes: ECMAScript WhiteSpace
      and LineTerminator. */
  predicate IsSpace(c: char) {
    || c == ' ' || c == '\t' || c == '\n' || c == '\r'
    || c == '\U{000B}' || c == '\U{000C}' || c == '\U{00A0}' || c == '\U{1680}'
    || ('\U{2000}' <= c <= '\U{200A}')
    || c == '\U{2028}' || c == '\U{2029}' || c == '\U{202F}' || c == '\U{205F}'
    || c == '\U{3000}' || c == '\U{FEFF}'
  }

  predicate AllSpace(s: string) {
    forall i :: 0 <= i < |s| ==> IsSpace(s[i])
  }

  function TrimStart(s: string): (r: string)
    ensures |r| <= |s| && r == s[|s| - |r|..]
    ensures AllSpace(s[..|s| - |r|])
    ensures r == [] || !IsSpace(r[0])
  {
    if s != [] && IsSpace(s[0]) then TrimStart(s[1..]) else s
  }

  function TrimEnd(s: string): (r: string)
    ensures |r| <= |s| && r == s[..|r|]
    ensures AllSpace(s[|r|..])
    ensures r == [] || !IsSpace(r[|r| - 1])
  {
    if s != [] && IsSpace(s[|s| - 1]) then TrimEnd(s[..|s| - 1]) else s
  }

  /** `s.trim()`: the result is empty exactly when the input is all
      whitespace, otherwise it starts and ends with a non-space, and an
      input that already does so comes back unchanged. */
  function Trim(s: string): (r: string)
    ensures |r| <= |s|
    ensures r == [] <==> AllSpace(s)
    ensures r != [] ==> !IsSpace(r[0]) && !IsSpace(r[|r| - 1])
    ensures (s == [] || (!IsSpace(s[0]) && !IsSpace(s[|s| - 1]))) ==> r == s
    ensures exists k :: TrimmedAt(s, r, k)
  {
    TrimEmptyOnlyIfBlank(s);
    TrimWindow(s);
    TrimEnd(TrimStart(s))
  }

  /** `r` is the part of `s` that starts at `k`, with only whitespace
      before and after it. */
  ghost predicate TrimmedAt(s: string, r: string, k: int) {
    0 <= k <= |s| - |r| && r == s[k..k + |r|] && AllSpace(s[..k]) && AllSpace(s[k + |r|..])
  }

  /** What trimming keeps is a window of the input with only whitespace
      on either side. */
  lemma TrimWindow(s: string)
    ensures exists k :: TrimmedAt(s, TrimEnd(TrimStart(s)), k)
  {
    var a := TrimStart(s);
    var r := TrimEnd(a);
    var k := |s| - |a|;
    SliceOfSuffix(s, k, |r|);
    assert AllSpace(s[..k]);
    assert AllSpace(s[k + |r|..]) by {
      assert AllSpace(a[|r|..]);
    }
    assert TrimmedAt(s, r, k);
  }

  /** The pieces of a suffix are slices of the whole. */
  lemma SliceOfSuffix(s: string, k: nat, n: nat)
    requires k + n <= |s|
    ensures s[k..][..n] == s[k..k + n] && s[k..][n..] == s[k + n..]
  {
  }

  lemma TrimEmptyOnlyIfBlank(s: string)
    ensures TrimEnd(TrimStart(s)) == [] <==> AllSpace(s)
  {
    var a := TrimStart(s);
    var r := TrimEnd(a);
    var k := |s| - |a|;
    if r == [] {
      assert a[|r|..] == a;
      assert a == [];
      assert s[..k] == s;
    }
    if r != [] {
      assert r[0] == a[0] == s[k];
      assert !IsSpace(s[k]);
    }
  }

  // ---------------------------------------------------------------------
  // ASCII case mapping (toUpperCase / toLowerCase / SQL upper, lower)
  // ---------------------------------------------------------------------

  function UpperChar(c: char): char {
    if 'a' <= c <= 'z' then (c as int - 32) as char else c
  }

  function LowerChar(c: char): char {
    if 'A' <= c <= 'Z' then (c as int + 32) as char else c
  }

  /** `toUpperCase` on ASCII: lower-case letters become their capitals,
      every other character is kept. */
  function ToUpper(s: string): (r: string)
    ensures |r| == |s|
    ensures forall i :: 0 <= i < |s| ==>
              if 'a' <= s[i] <= 'z' then r[i] as int == s[i] as int - ('a' as int - 'A' as int) && 'A' <= r[i] <= 'Z'
              else r[i] == s[i]
  {
    seq(|s|, i requires 0 <= i < |s| => UpperChar(s[i]))
  }

  /** `toLowerCase` on ASCII: capitals become their lower-case letters,
      every other character is kept. */
  function ToLower(s: string): (r: string)
    ensures |r| == |s|
    ensures forall i :: 0 <= i < |s| ==>
              if 'A' <= s[i] <= 'Z' then r[i] as int == s[i] as int + ('a' as int - 'A' as int) && 'a' <= r[i] <= 'z'
              else r[i] == s[i]
  {
    seq(|s|, i requires 0 <= i < |s| => LowerChar(s[i]))
  }

  // ---------------------------------------------------------------------
  // Decimal numbers: String(n), Number(s), padStart
  // ---------------------------------------------------------------------

  predicate IsDigit(c: char) {
    '0' <= c <= '9'
  }

  predicate AllDigits(s: string) {
    forall i :: 0 <= i < |s| ==> IsDigit(s[i])
  }

  function DigitChar(d: nat): (c: char)
    requires d < 10
    ensures IsDigit(c)
  {
    ('0' as int + d) as char
  }

  function DigitValue(c: char): (d: nat)
    requires IsDigit(c)
    ensures d < 10
  {
    c as int - '0' as int
  }

  function Pow10(k: nat): (p: nat)
    ensures p >= 1
  {
    if k == 0 then 1 else 10 * Pow10(k - 1)
  }

  /** `String(n)` for a non-negative integer: one or more decimal digits,
      with no leading zero unless the number is zero. */
  function DecimalString(n: nat): (r: string)
    ensures r != [] && AllDigits(r)
    ensures r[0] == '0' ==> n == 0
    decreases n
  {
    if n < 10 then [DigitChar(n)] else DecimalString(n / 10) + [DigitChar(n % 10)]
  }

  /** The value of a string of decimal digits, read left to right. */
  function DigitsValue(s: string): nat
    requires AllDigits(s)
  {
    if s == [] then 0 else DigitsValue(s[..|s| - 1]) * 10 + DigitValue(s[|s| - 1])
  }

  /** Reading back the digits `String(n)` writes gives `n`. */
  lemma {:induction false} DecimalStringRoundTrip(n: nat)
    ensures DigitsValue(DecimalString(n)) == n
    decreases n
  {
    if n >= 10 {
      var s := DecimalString(n);
      assert s[..|s| - 1] == DecimalString(n / 10);
      DecimalStringRoundTrip(n / 10);
    }
  }

  lemma DecimalStringInjective(m: nat, n: nat)
    requires DecimalString(m) == DecimalString(n)
    ensures m == n
  {
    DecimalStringRoundTrip(m);
    DecimalStringRoundTrip(n);
  }

  /** A digit string is worth less than ten to the power of its length. */
  lemma {:induction false} DigitsValueBound(s: string)
    requires AllDigits(s)
    ensures DigitsValue(s) < Pow10(|s|)
    decreases |s|
  {
    if s != [] {
      var init := s[..|s| - 1];
      DigitsValueBound(init);
      assert DigitsValue(init) + 1 <= Pow10(|init|);
      assert (DigitsValue(init) + 1) * 10 <= Pow10(|init|) * 10;
    }
  }

  /** Reading a digit string from its first digit: the leading digit is
      worth its value times ten to the power of the rest's length. */
  lemma {:induction false} DigitsValueCons(c: char, s: string)
    requires IsDigit(c) && AllDigits(s)
    ensures AllDigits([c] + s)
    ensures DigitsValue([c] + s) == DigitValue(c) * Pow10(|s|) + DigitsValue(s)
    decreases |s|
  {
    var t := [c] + s;
    assert AllDigits(t) by {
      forall i | 0 <= i < |t| ensures IsDigit(t[i]) {
        if i > 0 { assert t[i] == s[i - 1]; }
      }
    }
    if s != [] {
      var init := s[..|s| - 1];
      var last := DigitValue(s[|s| - 1]);
      assert t[..|t| - 1] == [c] + init;
      assert t[|t| - 1] == s[|s| - 1];
      DigitsValueCons(c, init);
      assert DigitsValue(t) == (DigitValue(c) * Pow10(|init|) + DigitsValue(init)) * 10 + last;
      ShiftDigit(DigitValue(c), Pow10(|init|), DigitsValue(init), last);
      assert Pow10(|s|) == 10 * Pow10(|init|);
    }
  }

  /** Appending a digit to a number shifts its leading part one place. */
  lemma ShiftDigit(d: int, p: int, x: int, y: int)
    ensures (d * p + x) * 10 + y == d * (10 * p) + (x * 10 + y)
  {
  }

  function Zeros(k: nat): (r: string)
    ensures |r| == k && AllDigits(r)
  {
    seq(k, _ => '0')
  }

  /** Zeros in front of a digit string do not change its value. */
  lemma {:induction false} LeadingZeros(k: nat, s: string)
    requires AllDigits(s)
    ensures AllDigits(Zeros(k) + s)
    ensures DigitsValue(Zeros(k) + s) == DigitsValue(s)
    decreases k
  {
    var t := Zeros(k) + s;
    assert AllDigits(t) by {
      forall i | 0 <= i < |t| ensures IsDigit(t[i]) {
        if i >= k { assert t[i] == s[i - k]; }
      }
    }
    if k > 0 {
      var u := Zeros(k - 1) + s;
      LeadingZeros(k - 1, s);
      assert Zeros(k) == ['0'] + Zeros(k - 1);
      assert t == ['0'] + u;
      assert DigitValue('0') == 0;
      DigitsValueCons('0', u);
      assert DigitValue('0') * Pow10(|u|) == 0;
      assert DigitsValue(t) == DigitsValue(u);
    } else {
      assert t == s;
    }
  }

  /** `s.padStart(width, fill)` with a one-character fill. */
  function PadStart(s: string, width: nat, fill: char): (r: string)
    ensures |r| == if |s| >= width then |s| else width
    ensures r[|r| - |s|..] == s
    ensures forall i :: 0 <= i < |r| - |s| ==> r[i] == fill
  {
    if |s| >= width then s else seq(width - |s|, _ => fill) + s
  }

  /** The value `Number(s)` yields: a finite number or NaN. */
  datatype NumberValue = Finite(value: int) | NaN

  /** `Number(s)` restricted to the forms the identifiers here can take:
      surrounding whitespace is ignored, an empty or blank string is 0,
      a run of ASCII digits is its decimal value, and anything else is
      NaN. */
  function ParseNumber(s: string): (r: NumberValue)
    ensures AllDigits(s) && s != [] ==> r == Finite(DigitsValue(s))
    ensures AllSpace(s) ==> r == Finite(0)
    ensures r.Finite? ==> r.value >= 0
  {
    var t := Trim(s);
    DigitsAreTrimmed(s);
    if t == [] then Finite(0) else if AllDigits(t) then Finite(DigitsValue(t)) else NaN
  }

  /** A digit string has no surrounding whitespace to trim. */
  lemma DigitsAreTrimmed(s: string)
    ensures AllDigits(s) && s != [] ==> Trim(s) == s
  {
    if AllDigits(s) && s != [] {
      assert IsDigit(s[0]) && IsDigit(s[|s| - 1]);
    }
  }

  /** `String(n).padStart(width, "0")` reads back as `n` under `Number`. */
  lemma PaddedDecimalRoundTrip(n: nat, width: nat)
    ensures AllDigits(PadStart(DecimalString(n), width, '0'))
    ensures ParseNumber(PadStart(DecimalString(n), width, '0')) == Finite(n)
  {
    var s := DecimalString(n);
    var p := PadStart(s, width, '0');
    DecimalStringRoundTrip(n);
    PadWithZeros(s, width);
    LeadingZeros(|p| - |s|, s);
    assert DigitsValue(p) == n;
  }

  lemma PadWithZeros(s: string, width: nat)
    ensures PadStart(s, width, '0') == Zeros(|PadStart(s, width, '0')| - |s|) + s
  {
    var p := PadStart(s, width, '0');
    var z := Zeros(|p| - |s|);
    assert p == p[..|p| - |s|] + p[|p| - |s|..];
    assert p[..|p| - |s|] == z;
  }

  // ---------------------------------------------------------------------
  // split / join on one separator character
  // ---------------------------------------------------------------------

  /** `s.split(sep)`: always at least one part, and no part holds the
      separator. */
  function Split(s: string, sep: char): (parts: seq<string>)
    ensures |parts| >= 1
    ensures forall i :: 0 <= i < |parts| ==> sep !in parts[i]
  {
    if s == [] then [[]]
    else
      var rest := Split(s[1..], sep);
      if s[0] == sep then [[]] + rest else [[s[0]] + rest[0]] + rest[1..]
  }

  /** `parts.join(sep)`. */
  function Join(parts: seq<string>, sep: char): string
  {
    if parts == [] then []
    else if |parts| == 1 then parts[0]
    else parts[0] + [sep] + Join(parts[1..], sep)
  }

  lemma {:induction false} SplitPrefix(p: string, t: string, sep: char)
    requires sep !in p
    ensures Split(p + t, sep) == [p + Split(t, sep)[0]] + Split(t, sep)[1..]
    decreases |p|
  {
    if p != [] {
      assert (p + t)[1..] == p[1..] + t;
      SplitPrefix(p[1..], t, sep);
      assert p[0] != sep;
      assert [p[0]] + (p[1..] + Split(t, sep)[0]) == p + Split(t, sep)[0];
    } else {
      var st := Split(t, sep);
      assert p + t == t;
      assert p + st[0] == st[0];
      assert st == [st[0]] + st[1..];
    }
  }

  /** A text without the separator splits into itself alone. */
  lemma SplitWithoutSeparator(s: string, sep: char)
    requires sep !in s
    ensures Split(s, sep) == [s]
  {
    assert s + [] == s;
    SplitPrefix(s, [], sep);
  }

  /** The first part of a split is the text before the first separator. */
  lemma SplitFirstPart(s: string, sep: char, k: nat)
    requires k < |s| && s[k] == sep && sep !in s[..k]
    ensures Split(s, sep)[0] == s[..k]
  {
    assert s == s[..k] + s[k..];
    SplitPrefix(s[..k], s[k..], sep);
    assert s[k..][0] == sep;
  }

  /** Splitting at one separator splits each side on its own. */
  lemma {:induction false} SplitAtSeparator(a: string, b: string, sep: char)
    ensures Split(a + [sep] + b, sep) == Split(a, sep) + Split(b, sep)
    decreases |a|
  {
    var s := a + [sep] + b;
    if a == [] {
      assert s == [sep] + b;
      assert s[1..] == b;
    } else {
      var tail := a[1..] + [sep] + b;
      assert s == [a[0]] + tail;
      assert s[1..] == tail;
      SplitAtSeparator(a[1..], b, sep);
      SplitStep(a[0], a[1..], sep);
      SplitStep(a[0], tail, sep);
    }
  }

  /** One step of `Split` on a text with a known first character. */
  lemma SplitStep(c: char, t: string, sep: char)
    ensures Split([c] + t, sep) ==
              if c == sep then [[]] + Split(t, sep) else [[c] + Split(t, sep)[0]] + Split(t, sep)[1..]
  {
    assert ([c] + t)[1..] == t;
  }

  /** Splitting what `join` produced gives the parts back, provided no part
      holds the separator. */
  lemma {:induction false} SplitJoin(parts: seq<string>, sep: char)
    requires |parts| >= 1
    requires forall i :: 0 <= i < |parts| ==> sep !in parts[i]
    ensures Split(Join(parts, sep), sep) == parts
    decreases |parts|
  {
    if |parts| == 1 {
      SplitPrefix(parts[0], [], sep);
      assert parts[0] + [] == parts[0];
    } else {
      var j := Join(parts[1..], sep);
      SplitJoin(parts[1..], sep);
      assert ([sep] + j)[1..] == j;
      assert Split([sep] + j, sep) == [[]] + Split(j, sep);
      assert parts[0] + [sep] + j == parts[0] + ([sep] + j);
      SplitPrefix(parts[0], [sep] + j, sep);
      assert parts[0] + [] == parts[0];
    }
  }

  /** Joining what `split` produced gives the string back. */
  lemma {:induction false} JoinSplit(s: string, sep: char)
    ensures Join(Split(s, sep), sep) == s
    decreases |s|
  {
    if s != [] {
      var rest := Split(s[1..], sep);
      JoinSplit(s[1..], sep);
      if s[0] == sep {
        assert Join([[]] + rest, sep) == [] + [sep] + Join(rest, sep);
        assert s == [s[0]] + s[1..];
      } else if |rest| == 1 {
        assert s == [s[0]] + s[1..];
      } else {
        var parts := [[s[0]] + rest[0]] + rest[1..];
        assert parts[1..] == rest[1..];
        assert Join(rest, sep) == rest[0] + [sep] + Join(rest[1..], sep);
        assert s == [s[0]] + s[1..];
      }
    }
  }

  // ---------------------------------------------------------------------
  // Code-point order on strings (ORDER BY ... under the C collation)
  // ---------------------------------------------------------------------

  predicate LexLess(a: string, b: string) {
    if a == [] then b != []
    else if b == [] then false
    else if a[0] != b[0] then a[0] < b[0]
    else LexLess(a[1..], b[1..])
  }

  lemma {:induction false} LexLessIrreflexive(a: string)
    ensures !LexLess(a, a)
    decreases |a|
  {
    if a != [] { LexLessIrreflexive(a[1..]); }
  }

  lemma {:induction false} LexLessTransitive(a: string, b: string, c: string)
    requires LexLess(a, b) && LexLess(b, c)
    ensures LexLess(a, c)
    decreases |a|
  {
    if a != [] && b != [] && c != [] && a[0] == b[0] && b[0] == c[0] {
      LexLessTransitive(a[1..], b[1..], c[1..]);
    }
  }

  lemma {:induction false} LexLessTotal(a: string, b: string)
    ensures a == b || LexLess(a, b) || LexLess(b, a)
    decreases |a|
  {
    if a != [] && b != [] && a[0] == b[0] {
      LexLessTotal(a[1..], b[1..]);
      if a[1..] == b[1..] {
        assert a == [a[0]] + a[1..] && b == [b[0]] + b[1..];
      }
    }
  }

  /** A shared prefix does not change the order. */
  lemma {:induction false} LexLessCommonPrefix(p: string, a: string, b: string)
    ensures LexLess(p + a, p + b) <==> LexLess(a, b)
    decreases |p|
  {
    if p != [] {
      assert (p + a)[1..] == p[1..] + a;
      assert (p + b)[1..] == p[1..] + b;
      LexLessCommonPrefix(p[1..], a, b);
    } else {
      assert p + a == a && p + b == b;
    }
  }

  /** A larger leading digit outweighs whatever follows it. */
  lemma LeadingDigitDominates(x: nat, y: nat, p: nat, u: nat, v: nat)
    requires x < y && u < p
    ensures x * p + u < y * p + v
  {
    MultipleStep(x, y, p);
  }

  /** A larger multiplier gives at least one more multiple of `p`. */
  lemma {:induction false} MultipleStep(x: nat, y: nat, p: nat)
    requires x < y
    ensures x * p + p <= y * p
    decreases y - x
  {
    if x + 1 < y {
      MultipleStep(x, y - 1, p);
      assert (y - 1) * p + p == y * p;
    } else {
      assert x * p + p == (x + 1) * p;
    }
  }

  /** On digit strings of one length, code-point order is numeric order. */
  lemma {:induction false} LexLessDigits(a: string, b: string)
    requires |a| == |b| && AllDigits(a) && AllDigits(b)
    ensures LexLess(a, b) <==> DigitsValue(a) < DigitsValue(b)
    decreases |a|
  {
    if a != [] {
      var a', b' := a[1..], b[1..];
      assert a == [a[0]] + a' && b == [b[0]] + b';
      DigitsValueCons(a[0], a');
      DigitsValueCons(b[0], b');
      var p := Pow10(|a'|);
      if a[0] == b[0] {
        LexLessDigits(a', b');
      } else if a[0] < b[0] {
        DigitsValueBound(a');
        LeadingDigitDominates(DigitValue(a[0]), DigitValue(b[0]), p, DigitsValue(a'), DigitsValue(b'));
      } else {
        DigitsValueBound(b');
        LeadingDigitDominates(DigitValue(b[0]), DigitValue(a[0]), p, DigitsValue(b'), DigitsValue(a'));
      }
    }
  }
}
