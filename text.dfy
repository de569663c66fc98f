/** String helpers the renamer relies on: Python's str.strip(), an ASCII str.lower(),
    str(int) for non-negative integers, and "\n".join / str.split("\n"). */
module Text {
  import opened Wrappers
  import opened Search

  /** The characters Python's str.isspace() accepts, which str.strip() removes. */
  predicate IsSpace(c: char) {
    || ('\t' <= c <= '\r')
    || ('\U{1C}' <= c <= ' ')
    || c == '\U{85}' || c == '\U{A0}' || c == '\U{1680}'
    || ('\U{2000}' <= c <= '\U{200A}')
    || c == '\U{2028}' || c == '\U{2029}' || c == '\U{202F}' || c == '\U{205F}' || c == '\U{3000}'
  }

  /** str.lstrip(). */
  function LStrip(s: string): string {
    if s != [] && IsSpace(s[0]) then LStrip(s[1..]) else s
  }

  /** str.rstrip(). */
  function RStrip(s: string): string {
    if s != [] && IsSpace(s[|s| - 1]) then RStrip(s[..|s| - 1]) else s
  }

  /** lstrip drops the leading whitespace and nothing else. */
  lemma {:induction false} LStripFacts(s: string)
    ensures var r := LStrip(s);
            && |r| <= |s| && r == s[|s| - |r|..]
            && (r == [] || !IsSpace(r[0]))
            && (forall i :: 0 <= i < |s| - |r| ==> IsSpace(s[i]))
  {
    if s != [] && IsSpace(s[0]) {
      var t := s[1..];
      LStripFacts(t);
      var r := LStrip(t);
      assert LStrip(s) == r;
      assert r == s[|s| - |r|..] by {
        assert t[|t| - |r|..] == s[|s| - |r|..];
      }
      forall i | 0 <= i < |s| - |r| ensures IsSpace(s[i]) {
        if i > 0 { assert s[i] == t[i - 1]; }
      }
    }
  }

  /** rstrip drops the trailing whitespace and nothing else. */
  lemma {:induction false} RStripFacts(s: string)
    ensures var r := RStrip(s);
            && |r| <= |s| && r == s[..|r|]
            && (r == [] || !IsSpace(r[|r| - 1]))
            && (forall i :: |r| <= i < |s| ==> IsSpace(s[i]))
  {
    if s != [] && IsSpace(s[|s| - 1]) {
      var t := s[..|s| - 1];
      RStripFacts(t);
      var r := RStrip(t);
      assert RStrip(s) == r;
      assert r == s[..|r|] by {
        assert t[..|r|] == s[..|r|];
      }
      forall i | |r| <= i < |s| ensures IsSpace(s[i]) {
        if i < |t| { assert s[i] == t[i]; }
      }
    }
  }

  /** str.strip(). */
  function Strip(s: string): string {
    RStrip(LStrip(s))
  }

  predicate StartsWith(s: string, prefix: string) {
    |prefix| <= |s| && s[..|prefix|] == prefix
  }

  predicate EndsWith(s: string, suffix: string) {
    |suffix| <= |s| && s[|s| - |suffix|..] == suffix
  }

  /** The first non-whitespace character of s, if any, is the first character of s.strip(). */
  lemma StripKeepsFirst(s: string)
    ensures Strip(s) == [] <==> LStrip(s) == []
    ensures Strip(s) != [] ==> Strip(s)[0] == LStrip(s)[0]
  {
    var l := LStrip(s);
    LStripFacts(s);
    RStripFacts(l);
    if l != [] {
      var r := RStrip(l);
      assert !IsSpace(l[0]);
    }
  }

  /** When s.strip() starts with c, c is the first non-whitespace character of s. */
  lemma StrippedStartsWithOnly(s: string, c: char)
    requires StartsWith(Strip(s), [c])
    ensures exists i :: 0 <= i < |s| && s[i] == c && forall k :: 0 <= k < i ==> IsSpace(s[k])
  {
    StripKeepsFirst(s);
    LStripFacts(s);
    var off := |s| - |LStrip(s)|;
    assert s[off] == c;
  }

  /** When c is the first non-whitespace character of s, s.strip() starts with c. */
  lemma StrippedStartsWithIf(s: string, c: char, i: nat)
    requires i < |s| && s[i] == c && !IsSpace(c) && forall k :: 0 <= k < i ==> IsSpace(s[k])
    ensures StartsWith(Strip(s), [c])
  {
    StripKeepsFirst(s);
    LStripFacts(s);
    var l := LStrip(s);
    var off := |s| - |l|;
    assert off <= i;
    assert s[off] == l[0];
    assert off == i;
  }

  /** `s.strip().startswith(c)` holds exactly when the first non-whitespace character of s is c. */
  lemma StrippedStartsWith(s: string, c: char)
    requires !IsSpace(c)
    ensures StartsWith(Strip(s), [c]) <==>
            exists i :: 0 <= i < |s| && s[i] == c && forall k :: 0 <= k < i ==> IsSpace(s[k])
  {
    if StartsWith(Strip(s), [c]) {
      StrippedStartsWithOnly(s, c);
    }
    if exists i :: 0 <= i < |s| && s[i] == c && forall k :: 0 <= k < i ==> IsSpace(s[k]) {
      var i :| 0 <= i < |s| && s[i] == c && forall k :: 0 <= k < i ==> IsSpace(s[k]);
      StrippedStartsWithIf(s, c, i);
    }
  }


  /** The index of the first occurrence of c in s. */
  function FirstIndexOf(s: string, c: char): (r: Option<nat>)
    ensures r.Some? ==> r.value < |s| && s[r.value] == c && forall k :: 0 <= k < r.value ==> s[k] != c
    ensures r.None? ==> forall k :: 0 <= k < |s| ==> s[k] != c
  {
    FirstIndex(s, (x: char) => x == c)
  }

  /** The index of the last occurrence of c in s. */
  function LastIndexOf(s: string, c: char): (r: Option<nat>)
    ensures r.Some? ==> r.value < |s| && s[r.value] == c && forall k :: r.value < k < |s| ==> s[k] != c
    ensures r.None? ==> forall k :: 0 <= k < |s| ==> s[k] != c
  {
    if s == [] then None
    else if s[|s| - 1] == c then Some(|s| - 1)
    else LastIndexOf(s[..|s| - 1], c)
  }

  /** str.lower() on ASCII letters; every other character is kept. */
  function LowerChar(c: char): char {
    if 'A' <= c <= 'Z' then (c as int + 32) as char else c
  }

  function Lower(s: string): string {
    seq(|s|, i requires 0 <= i < |s| => LowerChar(s[i]))
  }

  predicate IsDigit(c: char) {
    '0' <= c <= '9'
  }

  function DigitChar(d: nat): char
    requires d < 10
  {
    "0123456789"[d]
  }

  /** str(n) for a non-negative integer n: its decimal digits, without leading zeros. */
  function NatToString(n: nat): (r: string)
    ensures r != []
    ensures forall i :: 0 <= i < |r| ==> IsDigit(r[i])
    ensures |r| > 1 ==> r[0] != '0'
    decreases n
  {
    if n < 10 then [DigitChar(n)] else NatToString(n / 10) + [DigitChar(n % 10)]
  }

  /** The number a string of decimal digits denotes (int(s) for a digit string). */
  function DigitsValue(s: string): nat
    requires forall i :: 0 <= i < |s| ==> IsDigit(s[i])
  {
    if s == [] then 0
    else
      var last := s[|s| - 1];
      assert IsDigit(last);
      DigitsValue(s[..|s| - 1]) * 10 + (last as int - '0' as int)
  }

  /** Reading back the decimal digits of n gives n. */
  lemma {:induction false} NatToStringRoundTrip(n: nat)
    ensures DigitsValue(NatToString(n)) == n
    decreases n
  {
    if n >= 10 {
      var prefix := NatToString(n / 10);
      var s := prefix + [DigitChar(n % 10)];
      assert s[..|s| - 1] == prefix;
      NatToStringRoundTrip(n / 10);
    }
  }

  /** The longest run of decimal digits at the start of s. */
  function LeadingDigits(s: string): (r: string)
    ensures |r| <= |s| && r == s[..|r|]
    ensures forall i :: 0 <= i < |r| ==> IsDigit(r[i])
  {
    if s != [] && IsDigit(s[0]) then [s[0]] + LeadingDigits(s[1..]) else []
  }

  lemma {:induction false} LeadingDigitsOf(ds: string, rest: string)
    requires forall i :: 0 <= i < |ds| ==> IsDigit(ds[i])
    requires rest == [] || !IsDigit(rest[0])
    ensures LeadingDigits(ds + rest) == ds
  {
    if ds == [] {
      assert ds + rest == rest;
    } else {
      assert (ds + rest)[1..] == ds[1..] + rest;
      LeadingDigitsOf(ds[1..], rest);
    }
  }

  /** A number written after a prefix and followed by a non-digit can be read back. */
  lemma CountAfter(pre: string, n: nat, rest: string)
    requires rest == [] || !IsDigit(rest[0])
    ensures var m := pre + NatToString(n) + rest;
            && StartsWith(m, pre)
            && DigitsValue(LeadingDigits(m[|pre|..])) == n
  {
    var m := pre + NatToString(n) + rest;
    assert m[..|pre|] == pre;
    assert m[|pre|..] == NatToString(n) + rest;
    LeadingDigitsOf(NatToString(n), rest);
    NatToStringRoundTrip(n);
  }

  /** "\n".join(lines). */
  function JoinLines(lines: seq<string>): string {
    if |lines| == 0 then ""
    else if |lines| == 1 then lines[0]
    else lines[0] + "\n" + JoinLines(lines[1..])
  }

  /** s.split("\n"): never empty, the pieces between newline characters. */
  function SplitLines(s: string): (r: seq<string>)
    ensures |r| >= 1
  {
    if s == [] then [[]]
    else
      var rest := SplitLines(s[1..]);
      if s[0] == '\n' then [[]] + rest else [[s[0]] + rest[0]] + rest[1..]
  }

  lemma {:induction false} SplitSingleLine(a: string)
    requires '\n' !in a
    ensures SplitLines(a) == [a]
  {
    if a != [] {
      assert a[0] in a;
      assert forall c :: c in a[1..] ==> c in a;
      SplitSingleLine(a[1..]);
      assert [a[0]] + a[1..] == a;
    }
  }

  lemma {:induction false} SplitFirstLine(a: string, b: string)
    requires '\n' !in a
    ensures SplitLines(a + "\n" + b) == [a] + SplitLines(b)
  {
    if a == [] {
      assert a + "\n" + b == "\n" + b;
      assert ("\n" + b)[1..] == b;
    } else {
      assert a[0] in a;
      assert forall c :: c in a[1..] ==> c in a;
      var s := a + "\n" + b;
      assert s[0] == a[0];
      assert s[1..] == a[1..] + "\n" + b;
      SplitFirstLine(a[1..], b);
      assert [a[0]] + a[1..] == a;
    }
  }

  /** Splitting the joined lines at the newlines gives the lines back, provided none
      of them holds a newline itself. */
  lemma {:induction false} SplitJoinLines(lines: seq<string>)
    requires |lines| >= 1
    requires forall i :: 0 <= i < |lines| ==> '\n' !in lines[i]
    ensures SplitLines(JoinLines(lines)) == lines
  {
    if |lines| == 1 {
      SplitSingleLine(lines[0]);
    } else {
      SplitFirstLine(lines[0], JoinLines(lines[1..]));
      SplitJoinLines(lines[1..]);
    }
  }
}
