/** The Python string operations the modelled code relies on: `split` with
    one separator character, `strip`, `lower`, the `in` substring test,
    `int()` and `str()` on integers. */
module Strings {
  import opened Outcomes

  predicate IsDigit(c: char) { '0' <= c <= '9' }

  predicate AllDigits(s: string) { forall i :: 0 <= i < |s| ==> IsDigit(s[i]) }

  predicate StartsWith(s: string, prefix: string) {
    |prefix| <= |s| && s[..|prefix|] == prefix
  }

  /** `sub in s`: `sub` occurs somewhere in `s`. */
  predicate Contains(s: string, sub: string)
    decreases |s|
  {
    StartsWith(s, sub) || (s != [] && Contains(s[1..], sub))
  }

  /** Concatenation is associative; as a lemma of its own, the equality is
      proved apart from whatever else is known where it is used. */
  lemma Associative<T>(x: seq<T>, y: seq<T>, z: seq<T>)
    ensures x + (y + z) == (x + y) + z
  {
  }

  // ---------------------------------------------------------------------------
  // split / join

  /** `s.split(sep)`: the pieces between occurrences of `sep`. */
  function Split(s: string, sep: char): (parts: seq<string>)
    ensures |parts| >= 1
    ensures forall k :: 0 <= k < |parts| ==> sep !in parts[k]
    decreases |s|
  {
    if s == [] then [""]
    else
      var rest := Split(s[1..], sep);
      assert s == [s[0]] + s[1..];
      if s[0] == sep then [""] + rest
      else [[s[0]] + rest[0]] + rest[1..]
  }

  /** `sep.join(parts)`. */
  function Join(parts: seq<string>, sep: char): string
    decreases |parts|
  {
    if |parts| == 0 then ""
    else if |parts| == 1 then parts[0]
    else parts[0] + [sep] + Join(parts[1..], sep)
  }

  /** Prefixing a separator-free string only extends the first piece. */
  lemma {:induction false} SplitAfterPlainPrefix(a: string, t: string, sep: char)
    requires sep !in a
    ensures Split(a + t, sep) == [a + Split(t, sep)[0]] + Split(t, sep)[1..]
    decreases |a|
  {
    var st := Split(t, sep);
    if a != [] {
      var c, u := a[0], a[1..];
      assert a == [c] + u;
      SplitAfterPlainPrefix(u, t, sep);
      Associative([c], u, t);
      SplitCons(c, u + t, sep);
      Associative([c], u, st[0]);
    } else {
      assert a + t == t;
      assert a + st[0] == st[0];
      assert st == [st[0]] + st[1..];
    }
  }

  /** Joining the pieces of a split gives back the original string. */
  lemma {:induction false} JoinSplit(s: string, sep: char)
    ensures Join(Split(s, sep), sep) == s
    decreases |s|
  {
    if s != [] {
      var rest := Split(s[1..], sep);
      JoinSplit(s[1..], sep);
      if s[0] == sep {
        assert ([""] + rest)[1..] == rest;
        assert Join([""] + rest, sep) == "" + [sep] + Join(rest, sep);
        assert s == [s[0]] + s[1..];
      } else {
        var parts := [[s[0]] + rest[0]] + rest[1..];
        assert parts[1..] == rest[1..];
        if |rest| == 1 {
          assert Join(rest, sep) == rest[0];
        } else {
          assert Join(rest, sep) == rest[0] + [sep] + Join(rest[1..], sep);
        }
        assert s == [s[0]] + s[1..];
      }
    }
  }

  /** Splitting the join of separator-free pieces gives back those pieces. */
  lemma {:induction false} SplitJoin(parts: seq<string>, sep: char)
    requires |parts| >= 1
    requires forall k :: 0 <= k < |parts| ==> sep !in parts[k]
    ensures Split(Join(parts, sep), sep) == parts
    decreases |parts|
  {
    if |parts| == 1 {
      SplitPlain(parts[0], sep);
    } else {
      SplitJoin(parts[1..], sep);
      SplitAfterSeparator(parts[0], Join(parts[1..], sep), sep);
      assert parts == [parts[0]] + parts[1..];
    }
  }

  /** There is one more piece than there are separators. */
  lemma {:induction false} SplitCount(s: string, sep: char)
    ensures |Split(s, sep)| == multiset(s)[sep] + 1
    decreases |s|
  {
    if s != [] {
      SplitCount(s[1..], sep);
      assert s == [s[0]] + s[1..];
      assert multiset(s)[sep] == multiset(s[1..])[sep] + if s[0] == sep then 1 else 0;
    }
  }

  lemma SplitEmpty(sep: char)
    ensures Split("", sep) == [""]
  {
  }

  /** A trailing separator adds an empty last piece. */
  lemma {:induction false} SplitTrailingSeparator(s: string, sep: char)
    ensures Split(s + [sep], sep) == Split(s, sep) + [""]
    decreases |s|
  {
    var t := s + [sep];
    assert t[0] == (if s == [] then sep else s[0]);
    if s == [] {
      assert t == [sep] && t[1..] == [];
    } else {
      assert t[1..] == s[1..] + [sep];
      SplitTrailingSeparator(s[1..], sep);
    }
  }

  lemma SplitPlain(a: string, sep: char)
    requires sep !in a
    ensures Split(a, sep) == [a]
  {
    SplitAfterPlainPrefix(a, "", sep);
    assert a + "" == a;
    assert Split("", sep) == [""];
  }

  lemma SplitAfterSeparator(a: string, t: string, sep: char)
    requires sep !in a
    ensures Split(a + [sep] + t, sep) == [a] + Split(t, sep)
  {
    var u := [sep] + t;
    assert a + [sep] + t == a + u;
    assert u[0] == sep && u[1..] == t;
    assert Split(u, sep) == [""] + Split(t, sep);
    SplitAfterPlainPrefix(a, u, sep);
    assert a + "" == a;
  }

  /** Splitting at a separator splits the two sides independently. */
  lemma {:induction false} SplitAround(a: string, b: string, sep: char)
    ensures Split(a + [sep] + b, sep) == Split(a, sep) + Split(b, sep)
    decreases |a|
  {
    if a == [] {
      assert a + [sep] + b == [sep] + b;
      SplitCons(sep, b, sep);
    } else {
      SplitAround(a[1..], b, sep);
      assert a == [a[0]] + a[1..];
      assert a + [sep] + b == [a[0]] + (a[1..] + [sep] + b);
      SplitAroundStep(a[0], a[1..], b, sep);
    }
  }

  lemma SplitAroundStep(c: char, u: string, b: string, sep: char)
    requires Split(u + [sep] + b, sep) == Split(u, sep) + Split(b, sep)
    ensures Split([c] + (u + [sep] + b), sep) == Split([c] + u, sep) + Split(b, sep)
  {
    SplitCons(c, u + [sep] + b, sep);
    SplitCons(c, u, sep);
    if c == sep {
      ConsAppend("", Split(u, sep), Split(b, sep));
    } else {
      ExtendFirst([c], Split(u, sep), Split(b, sep));
    }
  }

  /** Extending the first piece commutes with appending pieces. */
  lemma ExtendFirst(p: string, x: seq<string>, y: seq<string>)
    requires x != []
    ensures [p + (x + y)[0]] + (x + y)[1..] == ([p + x[0]] + x[1..]) + y
  {
    assert (x + y)[0] == x[0];
    assert (x + y)[1..] == x[1..] + y;
  }

  lemma ConsAppend<T>(p: T, x: seq<T>, y: seq<T>)
    ensures [p] + (x + y) == ([p] + x) + y
  {
  }

  /** One step of the split. */
  lemma SplitCons(c: char, t: string, sep: char)
    ensures Split([c] + t, sep) == if c == sep then [""] + Split(t, sep)
      else [[c] + Split(t, sep)[0]] + Split(t, sep)[1..]
  {
    assert ([c] + t)[0] == c && ([c] + t)[1..] == t;
  }

  // ---------------------------------------------------------------------------
  // strip and lower

  /** The characters `str.isspace()` accepts, which `str.strip()` removes and
      `int()` skips around a number: the ASCII tab, line feed, vertical tab,
      form feed and carriage return, the separators 0x1C to 0x1F, the space,
      and the Unicode spaces and line separators. */
  predicate IsSpace(c: char) {
    ('\t' <= c <= '\r') || ('\U{1C}' <= c <= ' ') || c == '\U{85}' || c == '\U{A0}'
    || c == '\U{1680}' || ('\U{2000}' <= c <= '\U{200A}') || c == '\U{2028}' || c == '\U{2029}'
    || c == '\U{202F}' || c == '\U{205F}' || c == '\U{3000}'
  }

  function StripLeft(s: string): (r: string)
    ensures |r| <= |s| && r == s[|s| - |r|..]
    ensures forall k :: 0 <= k < |s| - |r| ==> IsSpace(s[k])
    ensures r == [] || !IsSpace(r[0])
    decreases |s|
  {
    if s != [] && IsSpace(s[0]) then StripLeft(s[1..]) else s
  }

  function StripRight(s: string): (r: string)
    ensures |r| <= |s| && r == s[..|r|]
    ensures forall k :: |r| <= k < |s| ==> IsSpace(s[k])
    ensures r == [] || !IsSpace(r[|r| - 1])
    decreases |s|
  {
    if s != [] && IsSpace(s[|s| - 1]) then StripRight(s[..|s| - 1]) else s
  }

  /** The number of whitespace characters `s` starts with. */
  function LeadingSpace(s: string): (n: nat)
    ensures n <= |s| && (n == |s| || !IsSpace(s[n]))
    ensures forall k :: 0 <= k < n ==> IsSpace(s[k])
  {
    |s| - |StripLeft(s)|
  }

  /** `s.strip()`: the part of `s` between its leading and its trailing
      whitespace, so that what is removed is whitespace and what is kept
      neither starts nor ends with it. */
  function Strip(s: string): (r: string)
    ensures LeadingSpace(s) + |r| <= |s| && r == s[LeadingSpace(s)..LeadingSpace(s) + |r|]
    ensures forall k :: LeadingSpace(s) + |r| <= k < |s| ==> IsSpace(s[k])
    ensures r == [] || (!IsSpace(r[0]) && !IsSpace(r[|r| - 1]))
    ensures (forall k :: 0 <= k < |s| ==> IsSpace(s[k])) ==> r == []
  {
    var l := StripLeft(s);
    var r := StripRight(l);
    assert l == s[LeadingSpace(s)..];
    TrailingOfSuffix(s, LeadingSpace(s), r);
    StripEnds(l);
    r
  }

  /** Stripping the right of a left-stripped string keeps its first character. */
  lemma StripEnds(l: string)
    requires l == [] || !IsSpace(l[0])
    ensures var r := StripRight(l); r == [] || (!IsSpace(r[0]) && !IsSpace(r[|r| - 1]))
  {
    var r := StripRight(l);
    if r != [] {
      assert r[0] == l[0];
    }
  }

  /** What `StripRight` drops from a suffix of `s` is whitespace of `s`. */
  lemma TrailingOfSuffix(s: string, n: nat, r: string)
    requires n <= |s| && r == StripRight(s[n..])
    ensures n + |r| <= |s| && r == s[n..n + |r|]
    ensures forall k :: n + |r| <= k < |s| ==> IsSpace(s[k])
  {
    var l := s[n..];
    forall k | n + |r| <= k < |s| ensures IsSpace(s[k]) {
      assert s[k] == l[k - n];
    }
  }

  /** A string without whitespace is its own `strip()`. */
  lemma StripPlain(s: string)
    requires forall k :: 0 <= k < |s| ==> !IsSpace(s[k])
    ensures Strip(s) == s
  {
  }

  function LowerChar(c: char): char {
    if 'A' <= c <= 'Z' then (c as int + 32) as char else c
  }

  /** `s.lower()`, on the ASCII letters. */
  function Lower(s: string): (r: string)
    ensures |r| == |s|
  {
    seq(|s|, i requires 0 <= i < |s| => LowerChar(s[i]))
  }

  lemma LowerIdempotent(s: string)
    ensures Lower(Lower(s)) == Lower(s)
  {
  }

  // ---------------------------------------------------------------------------
  // str() and int() on integers

  function DigitChar(d: nat): char
    requires d < 10
  {
    ('0' as int + d) as char
  }

  function DigitValue(c: char): nat
    requires IsDigit(c)
  {
    c as int - '0' as int
  }

  /** `str(n)` for a natural number: its decimal digits, most significant first. */
  function NatToString(n: nat): (s: string)
    ensures |s| >= 1 && AllDigits(s)
  {
    if n < 10 then [DigitChar(n)] else NatToString(n / 10) + [DigitChar(n % 10)]
  }

  /** The value of a string of decimal digits and underscores, the
      underscores ignored. */
  function DigitsValue(s: string): nat
    requires DigitsOrUnderscores(s)
    decreases |s|
  {
    if s == [] then 0
    else if s[|s| - 1] == '_' then DigitsValue(s[..|s| - 1])
    else 10 * DigitsValue(s[..|s| - 1]) + DigitValue(s[|s| - 1])
  }

  predicate DigitsOrUnderscores(s: string) {
    forall k :: 0 <= k < |s| ==> IsDigit(s[k]) || s[k] == '_'
  }

  /** A decimal literal as `int()` accepts it: digits, where single
      underscores may separate two digits. */
  predicate IsDecimal(s: string) {
    s != [] && IsDigit(s[0]) && DigitsOrUnderscores(s)
    && forall k :: 0 <= k < |s| && s[k] == '_' ==> k + 1 < |s| && IsDigit(s[k + 1])
  }

  /** `int()` on an unsigned decimal literal: `None` stands for the ValueError. */
  function ParseNat(s: string): Option<nat> {
    if IsDecimal(s) then Some(DigitsValue(s)) else None
  }

  /** `str(i)` for any integer. */
  function IntToString(i: int): string {
    if i < 0 then "-" + NatToString(-i) else NatToString(i)
  }

  /** `int()` on a text without surrounding whitespace: an optional sign and
      a decimal literal. */
  function ParseSigned(t: string): Option<int> {
    if t != [] && (t[0] == '-' || t[0] == '+') then
      match ParseNat(t[1..])
      case Some(n) => Some(if t[0] == '-' then -(n as int) else n as int)
      case None => None
    else
      match ParseNat(t)
      case Some(n) => Some(n as int)
      case None => None
  }

  /** `int(s)` on a string: whitespace around the number is skipped, one
      character at a time, then what remains is read by `ParseSigned`;
      `None` stands for the ValueError. */
  function ParseInt(s: string): Option<int>
    decreases |s|
  {
    if s != [] && IsSpace(s[0]) then ParseInt(s[1..])
    else if s != [] && IsSpace(s[|s| - 1]) then ParseInt(s[..|s| - 1])
    else ParseSigned(s)
  }

  /** Skipping the whitespace one character at a time is `strip()`. */
  lemma {:induction false} ParseIntStrips(s: string)
    ensures ParseInt(s) == ParseSigned(Strip(s))
    decreases |s|
  {
    if s != [] && IsSpace(s[0]) {
      ParseIntStrips(s[1..]);
      assert StripLeft(s) == StripLeft(s[1..]);
    } else if s != [] && IsSpace(s[|s| - 1]) {
      ParseIntStrips(s[..|s| - 1]);
      assert StripLeft(s) == s;
      assert StripLeft(s[..|s| - 1]) == s[..|s| - 1];
      assert StripRight(s) == StripRight(s[..|s| - 1]);
    } else {
      assert StripLeft(s) == s;
      assert StripRight(s) == s;
    }
  }

  lemma {:induction false} ParseNatToString(n: nat)
    ensures ParseNat(NatToString(n)) == Some(n)
  {
    var s := NatToString(n);
    if n >= 10 {
      ParseNatToString(n / 10);
      assert s[..|s| - 1] == NatToString(n / 10);
      assert DigitValue(s[|s| - 1]) == n % 10;
      assert DigitsValue(s) == 10 * (n / 10) + n % 10;
    } else {
      assert s[..|s| - 1] == [];
      assert DigitValue(s[0]) == n;
    }
  }

  /** `int(str(i)) == i` for every integer. */
  lemma ParseIntToString(i: int)
    ensures ParseInt(IntToString(i)) == Some(i)
  {
    var s := IntToString(i);
    if i < 0 {
      var d := NatToString(-i);
      ParseNatToString(-i);
      assert s[1..] == d && s[0] == '-';
      assert s[|s| - 1] == d[|d| - 1] && IsDigit(d[|d| - 1]);
    } else {
      ParseNatToString(i);
      assert IsDigit(s[0]) && IsDigit(s[|s| - 1]);
    }
    assert ParseInt(s) == ParseSigned(s);
  }

  /** What `int()` makes of some count texts: a sign, whitespace around the
      number and single underscores are accepted, an empty text or a double
      underscore is the ValueError. */
  lemma ParseIntExamples()
    ensures ParseInt("-1") == Some(-1)
    ensures ParseInt(" +5\n") == Some(5)
    ensures ParseInt("1_0") == Some(10)
    ensures ParseInt("1__0") == None
    ensures ParseInt("") == None
  {
    ParseIntNegative();
    ParseIntPadded();
    ParseIntUnderscore();
    ParseIntDoubleUnderscore();
  }

  lemma ParseIntNegative()
    ensures ParseInt("-1") == Some(-1)
  {
    assert "-1"[1..] == "1";
    assert DigitsValue("1") == DigitValue('1') by { assert "1"[..0] == ""; }
  }

  lemma ParseIntPadded()
    ensures ParseInt(" +5\n") == Some(5)
  {
    assert ParseInt(" +5\n") == ParseInt("+5\n") by { assert " +5\n"[1..] == "+5\n"; }
    assert ParseInt("+5\n") == ParseInt("+5") by { assert "+5\n"[..2] == "+5"; }
    assert "+5"[1..] == "5";
    assert DigitsValue("5") == DigitValue('5') by { assert "5"[..0] == ""; }
  }

  lemma ParseIntUnderscore()
    ensures ParseInt("1_0") == Some(10)
  {
    assert DigitsValue("1_0") == 10 by {
      assert "1_0"[..2] == "1_" && "1_"[..1] == "1" && "1"[..0] == "";
    }
  }

  lemma ParseIntDoubleUnderscore()
    ensures ParseInt("1__0") == None
  {
    assert !IsDecimal("1__0") by { assert "1__0"[1] == '_' && "1__0"[2] == '_'; }
  }

  /** Different integers print differently, so `str` can key a dictionary. */
  lemma IntToStringInjective(i: int, j: int)
    requires IntToString(i) == IntToString(j)
    ensures i == j
  {
    ParseIntToString(i);
    ParseIntToString(j);
  }
}
