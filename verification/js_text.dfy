/**
  Text operations of the JavaScript runtime that the library relies on:
  decimal rendering of numbers (template literals), lodash's `padStart`,
  `String.prototype.replace` with a one-character string pattern, ASCII
  lower-casing, and the UTF-16 code-unit order that `Array.prototype.sort`
  uses when no comparator is given.
 */
module JsText {

  // ---------------------------------------------------------------------
  // Decimal digits

  predicate IsDigit(c: char) {
    '0' <= c <= '9'
  }

  predicate AllDigits(s: string) {
    forall i :: 0 <= i < |s| ==> IsDigit(s[i])
  }

  function DigitChar(d: int): (c: char)
    requires 0 <= d < 10
    ensures IsDigit(c) && c as int - '0' as int == d
  {
    ('0' as int + d) as char
  }

  /** The number a run of decimal digits denotes (most significant first). */
  function DigitsValue(s: string): nat
    requires AllDigits(s)
  {
    if |s| == 0 then 0
    else DigitsValue(s[..|s| - 1]) * 10 + (s[|s| - 1] as int - '0' as int)
  }

  function Pow10(k: nat): (p: nat)
    ensures p >= 1
  {
    if k == 0 then 1 else 10 * Pow10(k - 1)
  }

  /** Decimal text of a non-negative integer, as `${n}` renders it. */
  function NatToString(n: nat): (s: string)
    ensures |s| >= 1 && AllDigits(s)
    ensures DigitsValue(s) == n
    ensures |s| > 1 ==> s[0] != '0'
    decreases n
  {
    if n < 10 then [DigitChar(n)]
    else
      var prefix := NatToString(n / 10);
      var s := prefix + [DigitChar(n % 10)];
      assert s[..|s| - 1] == prefix;
      s
  }

  /** Decimal text of an integer, with a leading `-` when negative. */
  function IntToString(i: int): (s: string)
    ensures |s| >= 1
    ensures i < 0 <==> s[0] == '-'
    ensures i >= 0 ==> AllDigits(s) && DigitsValue(s) == i
    ensures i < 0 ==> |s| >= 2 && AllDigits(s[1..]) && DigitsValue(s[1..]) == -i
    ensures var digits := if i < 0 then s[1..] else s; |digits| > 1 ==> digits[0] != '0'
  {
    if i < 0 then
      var digits := NatToString(-i);
      assert ("-" + digits)[1..] == digits;
      "-" + digits
    else NatToString(i)
  }

  /** A decimal text of at most k digits denotes a number below 10^k. */
  lemma {:induction false} DigitsValueBound(s: string)
    requires AllDigits(s)
    ensures DigitsValue(s) < Pow10(|s|)
    ensures |s| >= 1 && s[0] != '0' ==> DigitsValue(s) >= Pow10(|s| - 1)
    decreases |s|
  {
    if |s| > 0 {
      var p := s[..|s| - 1];
      DigitsValueBound(p);
      if |p| >= 1 {
        assert p[0] == s[0];
      }
    }
  }

  /** The text `${n}` has at most k digits exactly when n < 10^k. */
  lemma NatToStringLength(n: nat, k: nat)
    requires k >= 1
    ensures |NatToString(n)| <= k <==> n < Pow10(k)
  {
    var s := NatToString(n);
    DigitsValueBound(s);
    if |s| > k {
      assert Pow10(k) <= Pow10(|s| - 1) by { Pow10Monotone(k, |s| - 1); }
    } else {
      assert Pow10(|s|) <= Pow10(k) by { Pow10Monotone(|s|, k); }
    }
  }

  lemma {:induction false} Pow10Monotone(a: nat, b: nat)
    requires a <= b
    ensures Pow10(a) <= Pow10(b)
    decreases b - a
  {
    if a < b {
      Pow10Monotone(a, b - 1);
    }
  }

  /** `${n}` is exactly four characters long when n has four digits. */
  lemma NatToStringFourDigits(n: nat)
    ensures |NatToString(n)| == 4 <==> 1000 <= n <= 9999
  {
    NatToStringLength(n, 4);
    NatToStringLength(n, 3);
    assert Pow10(3) == 1000 && Pow10(4) == 10000;
  }

  /** Rendering a canonical digit run (no superfluous leading zero) gives it back. */
  lemma {:induction false} NatToStringOfDigits(s: string)
    requires AllDigits(s) && |s| >= 1
    requires |s| > 1 ==> s[0] != '0'
    ensures NatToString(DigitsValue(s)) == s
    decreases |s|
  {
    var n := DigitsValue(s);
    if |s| == 1 {
      assert s[..0] == [];
    } else {
      var p := s[..|s| - 1];
      assert p[0] == s[0];
      DigitsValueBound(p);
      assert DigitsValue(p) >= 1;
      assert n / 10 == DigitsValue(p) && n % 10 == s[|s| - 1] as int - '0' as int;
      NatToStringOfDigits(p);
      assert s == p + [s[|s| - 1]];
    }
  }

  // ---------------------------------------------------------------------
  // lodash padStart

  function Repeat(c: char, n: nat): (r: string)
    ensures |r| == n && forall i :: 0 <= i < n ==> r[i] == c
  {
    if n == 0 then [] else [c] + Repeat(c, n - 1)
  }

  /**
    lodash `padStart(s, width, [c])`: a text shorter than `width` is
    prefixed with copies of `c` up to that width; a longer one is unchanged.
   */
  function PadStart(s: string, width: nat, c: char): (r: string)
    ensures |r| == if |s| >= width then |s| else width
    ensures r[|r| - |s|..] == s
    ensures forall i :: 0 <= i < |r| - |s| ==> r[i] == c
  {
    if |s| >= width then s else Repeat(c, width - |s|) + s
  }

  /** A number below 100 rendered and padded to two digits. */
  function Pad2(n: nat): string {
    PadStart(NatToString(n), 2, '0')
  }

  /** Padding a number below 100 gives exactly two digits that denote it. */
  lemma Pad2Digits(n: nat)
    requires n < 100
    ensures |Pad2(n)| == 2 && AllDigits(Pad2(n))
    ensures DigitsValue(Pad2(n)) == n
  {
    NatToStringLength(n, 2);
    var s := Pad2(n);
    if n < 10 {
      assert s == "0" + NatToString(n);
      assert s[..1] == "0";
    }
  }

  /** Any two-digit text is the padded rendering of the number it denotes. */
  lemma Pad2OfDigits(s: string)
    requires |s| == 2 && AllDigits(s)
    ensures DigitsValue(s) < 100
    ensures Pad2(DigitsValue(s)) == s
  {
    DigitsValueBound(s);
    if s[0] == '0' {
      var t := s[1..];
      assert DigitsValue(s[..1]) == 0;
      assert DigitsValue(s) == DigitsValue(t) by {
        assert t[..0] == [];
      }
      NatToStringOfDigits(t);
      assert s == "0" + t;
    } else {
      NatToStringOfDigits(s);
    }
  }

  /** A number below 100 pads to its tens digit followed by its units digit. */
  lemma Pad2Chars(n: nat)
    requires n < 100
    ensures Pad2(n) == [DigitChar(n / 10), DigitChar(n % 10)]
  {
    if n >= 10 {
      assert NatToString(n / 10) == [DigitChar(n / 10)];
    }
  }

  /** The four decimal digits of a four-digit number add back up to it. */
  lemma FourDigitsValue(y: int)
    requires 1000 <= y <= 9999
    ensures y / 1000 * 1000 + y / 100 % 10 * 100 + y / 10 % 10 * 10 + y % 10 == y
  {
    var a, b := y / 10, y % 10;
    var c, d := a / 10, a % 10;
    assert y / 100 == c;
    assert y / 1000 == c / 10;
  }

  /** A four-digit year renders as its four decimal digits. */
  lemma FourDigitText(y: int)
    requires 1000 <= y <= 9999
    ensures IntToString(y) == [DigitChar(y / 1000), DigitChar(y / 100 % 10), DigitChar(y / 10 % 10), DigitChar(y % 10)]
  {
    assert y / 10 / 10 == y / 100 && y / 100 / 10 == y / 1000;
    assert NatToString(y / 1000) == [DigitChar(y / 1000)];
    assert NatToString(y / 100) == [DigitChar(y / 1000), DigitChar(y / 100 % 10)];
    assert NatToString(y / 10) == [DigitChar(y / 1000), DigitChar(y / 100 % 10), DigitChar(y / 10 % 10)];
  }

  // ---------------------------------------------------------------------
  // String.prototype.replace with a one-character string pattern

  /** Index of the first occurrence of `c` in `s`, if any. */
  function IndexOf(s: string, c: char): (r: int)
    ensures -1 <= r < |s|
    ensures r == -1 <==> c !in s
    ensures r >= 0 ==> s[r] == c && c !in s[..r]
  {
    if |s| == 0 then -1
    else if s[0] == c then 0
    else
      var k := IndexOf(s[1..], c);
      if k == -1 then
        assert s == [s[0]] + s[1..];
        -1
      else
        assert s[..k + 1] == [s[0]] + s[1..][..k];
        k + 1
  }

  /**
    `s.replace(p, rep)` for a one-character pattern `p`: only the first
    occurrence is replaced; without one the text is unchanged.
   */
  function ReplaceFirst(s: string, c: char, rep: string): (r: string)
    ensures c !in s ==> r == s
    ensures c in s ==> exists i :: 0 <= i < |s| && c !in s[..i] && s[i] == c && r == s[..i] + rep + s[i + 1..]
    ensures |r| == if c in s then |s| - 1 + |rep| else |s|
  {
    var i := IndexOf(s, c);
    if i == -1 then s else s[..i] + rep + s[i + 1..]
  }

  /** The replacement happens at the first occurrence of the pattern. */
  lemma ReplaceFirstAt(s: string, c: char, rep: string, i: nat)
    requires i < |s| && s[i] == c && c !in s[..i]
    ensures ReplaceFirst(s, c, rep) == s[..i] + rep + s[i + 1..]
  {
    var k := IndexOf(s, c);
    assert c in s by { assert s[i] == c; }
    assert forall j :: 0 <= j < i ==> s[..i][j] == s[j];
    assert forall j :: 0 <= j < k ==> s[..k][j] == s[j];
  }

  /** A first character that is not the pattern stays in front. */
  lemma ReplaceFirstHead(s: string, c: char, rep: string)
    ensures |s| > 0 && s[0] != c ==> |ReplaceFirst(s, c, rep)| > 0 && ReplaceFirst(s, c, rep)[0] == s[0]
  {
    var k := IndexOf(s, c);
    if |s| > 0 && s[0] != c && k != -1 {
      assert k > 0;
      assert (s[..k] + rep + s[k + 1..])[0] == s[..k][0];
    }
  }

  /** Characters other than the pattern and those of the replacement occur after exactly when before. */
  lemma ReplaceFirstKeeps(s: string, c: char, rep: string, d: char)
    requires d != c && d !in rep
    ensures d in ReplaceFirst(s, c, rep) <==> d in s
  {
    var k := IndexOf(s, c);
    if k != -1 {
      assert s == s[..k] + [c] + s[k + 1..];
      var r := s[..k] + rep + s[k + 1..];
      assert d in r <==> d in s[..k] || d in s[k + 1..];
      assert d in s <==> d in s[..k] || d in s[k + 1..];
    }
  }

  // ---------------------------------------------------------------------
  // Lower-casing

  function LowerChar(c: char): (d: char)
    ensures 'A' <= c <= 'Z' ==> d as int == c as int + 32
    ensures !('A' <= c <= 'Z') ==> d == c
  {
    if 'A' <= c <= 'Z' then (c as int + 32) as char else c
  }

  function UpperChar(c: char): (d: char)
    ensures 'a' <= c <= 'z' ==> d as int == c as int - 32
    ensures !('a' <= c <= 'z') ==> d == c
  {
    if 'a' <= c <= 'z' then (c as int - 32) as char else c
  }

  /** `s.toLowerCase()` restricted to the ASCII letters. */
  function Lower(s: string): (r: string)
    ensures |r| == |s|
    ensures forall i :: 0 <= i < |s| ==> r[i] == LowerChar(s[i])
  {
    seq(|s|, i requires 0 <= i < |s| => LowerChar(s[i]))
  }

  /** `s.toUpperCase()` restricted to the ASCII letters. */
  function Upper(s: string): (r: string)
    ensures |r| == |s|
    ensures forall i :: 0 <= i < |s| ==> r[i] == UpperChar(s[i])
  {
    seq(|s|, i requires 0 <= i < |s| => UpperChar(s[i]))
  }

  /** Lower-casing an upper-cased or lower-cased text is the same as lower-casing it. */
  lemma LowerAbsorbsCase(s: string)
    ensures Lower(Upper(s)) == Lower(s)
    ensures Lower(Lower(s)) == Lower(s)
  {
  }

  // ---------------------------------------------------------------------
  // UTF-16 code-unit order

  /**
    A rank of each character that orders characters as their UTF-16
    encodings compare unit by unit: characters below U+D800 first, then
    the supplementary characters (whose high surrogate lies in
    D800..DBFF), then U+E000..U+FFFF.
   */
  function CodeUnitRank(c: char): int {
    var n := c as int;
    if n < 0xD800 then n
    else if n >= 0x1_0000 then n - 0x1_0000 + 0xD800
    else n + 0x10_0000
  }

  lemma CodeUnitRankInjective(a: char, b: char)
    ensures CodeUnitRank(a) == CodeUnitRank(b) ==> a == b
  {
  }

  /** `a < b` on JavaScript strings: lexicographic in UTF-16 code units. */
  predicate Less(a: string, b: string) {
    if |a| == 0 then |b| > 0
    else if |b| == 0 then false
    else if a[0] != b[0] then CodeUnitRank(a[0]) < CodeUnitRank(b[0])
    else Less(a[1..], b[1..])
  }

  predicate LessEq(a: string, b: string) {
    a == b || Less(a, b)
  }

  lemma {:induction false} LessIrreflexive(a: string)
    ensures !Less(a, a)
    decreases |a|
  {
    if |a| > 0 {
      LessIrreflexive(a[1..]);
    }
  }

  lemma {:induction false} LessTransitive(a: string, b: string, c: string)
    requires Less(a, b) && Less(b, c)
    ensures Less(a, c)
    decreases |a|
  {
    if |a| > 0 && |b| > 0 && |c| > 0 && a[0] == b[0] && b[0] == c[0] {
      LessTransitive(a[1..], b[1..], c[1..]);
    } else if |a| > 0 && |b| > 0 && |c| > 0 {
      CodeUnitRankInjective(a[0], c[0]);
    }
  }

  /** Two distinct strings are always ordered one way or the other. */
  lemma {:induction false} LessTotal(a: string, b: string)
    ensures a == b || Less(a, b) || Less(b, a)
    decreases |a|
  {
    if |a| > 0 && |b| > 0 {
      if a[0] == b[0] {
        LessTotal(a[1..], b[1..]);
        if a[1..] == b[1..] {
          assert a == [a[0]] + a[1..] && b == [b[0]] + b[1..];
        }
      } else {
        CodeUnitRankInjective(a[0], b[0]);
      }
    }
  }

  lemma LessAsymmetric(a: string, b: string)
    requires Less(a, b)
    ensures !Less(b, a) && a != b
  {
    LessIrreflexive(a);
    if Less(b, a) {
      LessTransitive(a, b, a);
    }
  }

  // ---------------------------------------------------------------------
  // Array.prototype.sort with the default comparator

  predicate SortedSeq(s: seq<string>) {
    forall i, j :: 0 <= i < j < |s| ==> LessEq(s[i], s[j])
  }

  lemma LessEqTransitive(a: string, b: string, c: string)
    requires LessEq(a, b) && LessEq(b, c)
    ensures LessEq(a, c)
  {
    if Less(a, b) && Less(b, c) {
      LessTransitive(a, b, c);
    }
  }

  /** Inserting into a sorted sequence keeps it sorted and adds exactly one element. */
  function Insert(x: string, s: seq<string>): (r: seq<string>)
    requires SortedSeq(s)
    ensures SortedSeq(r)
    ensures multiset(r) == multiset(s) + multiset{x}
  {
    if |s| == 0 then [x]
    else if LessEq(x, s[0]) then
      HeadBelowAll(x, s);
      SortedCons(x, s);
      [x] + s
    else
      var rest := Insert(x, s[1..]);
      LessTotal(x, s[0]);
      HeadBelowAll(s[0], s[1..]);
      BelowAll(s[0], rest, s[1..], x);
      SortedCons(s[0], rest);
      assert s == [s[0]] + s[1..];
      [s[0]] + rest
  }

  /** The head of a sorted sequence, or anything below it, is at most every element. */
  lemma HeadBelowAll(b: string, s: seq<string>)
    requires SortedSeq(s)
    requires |s| > 0 ==> LessEq(b, s[0])
    ensures forall j :: 0 <= j < |s| ==> LessEq(b, s[j])
  {
    forall j | 0 <= j < |s|
      ensures LessEq(b, s[j])
    {
      if j > 0 { LessEqTransitive(b, s[0], s[j]); }
    }
  }

  /** A lower bound of s and of x bounds every element of a permutation of s plus x. */
  lemma BelowAll(b: string, r: seq<string>, s: seq<string>, x: string)
    requires forall j :: 0 <= j < |s| ==> LessEq(b, s[j])
    requires LessEq(b, x)
    requires multiset(r) == multiset(s) + multiset{x}
    ensures forall j :: 0 <= j < |r| ==> LessEq(b, r[j])
  {
    forall j | 0 <= j < |r|
      ensures LessEq(b, r[j])
    {
      assert r[j] in multiset(r);
      if r[j] != x {
        assert r[j] in multiset(s);
        var k :| 0 <= k < |s| && s[k] == r[j];
      }
    }
  }

  /** A lower bound put in front of a sorted sequence keeps it sorted. */
  lemma SortedCons(b: string, s: seq<string>)
    requires SortedSeq(s)
    requires forall j :: 0 <= j < |s| ==> LessEq(b, s[j])
    ensures SortedSeq([b] + s)
  {
    var r := [b] + s;
    forall i, j | 0 <= i < j < |r|
      ensures LessEq(r[i], r[j])
    {
      assert r[j] == s[j - 1];
      if i > 0 { assert r[i] == s[i - 1]; }
    }
  }

  /**
    `a.sort()` with no comparator: the elements in ascending UTF-16
    code-unit order, as a permutation of the input.
   */
  function SortStrings(s: seq<string>): (r: seq<string>)
    ensures SortedSeq(r)
    ensures multiset(r) == multiset(s)
  {
    if |s| == 0 then []
    else
      assert s == [s[0]] + s[1..];
      Insert(s[0], SortStrings(s[1..]))
  }

  /** Two sorted sequences with the same elements are equal. */
  lemma {:induction false} SortedUnique(s: seq<string>, t: seq<string>)
    requires SortedSeq(s) && SortedSeq(t)
    requires multiset(s) == multiset(t)
    ensures s == t
    decreases |s|
  {
    assert |s| == |multiset(s)| == |multiset(t)| == |t|;
    if |s| > 0 {
      SortedHeadsEqual(s, t);
      DropHead(s);
      DropHead(t);
      SortedUnique(s[1..], t[1..]);
      assert s == [s[0]] + s[1..] && t == [t[0]] + t[1..];
    }
  }

  /** The least element of two sorted sequences with the same elements is the same. */
  lemma SortedHeadsEqual(s: seq<string>, t: seq<string>)
    requires SortedSeq(s) && SortedSeq(t) && |s| > 0 && |t| > 0
    requires multiset(s) == multiset(t)
    ensures s[0] == t[0]
  {
    assert s[0] in multiset(t);
    assert t[0] in multiset(s);
    var i :| 0 <= i < |t| && t[i] == s[0];
    var j :| 0 <= j < |s| && s[j] == t[0];
    assert LessEq(s[0], s[j]) by { if j > 0 { } }
    assert LessEq(t[0], t[i]) by { if i > 0 { } }
    if s[0] != t[0] {
      LessAsymmetric(s[0], t[0]);
      assert false;
    }
  }

  /** Dropping the head of a sorted sequence leaves a sorted sequence of the remaining elements. */
  lemma DropHead(s: seq<string>)
    requires SortedSeq(s) && |s| > 0
    ensures SortedSeq(s[1..])
    ensures multiset(s[1..]) == multiset(s) - multiset{s[0]}
  {
    assert s == [s[0]] + s[1..];
    assert multiset(s) == multiset{s[0]} + multiset(s[1..]);
  }

  /** The sorted order does not depend on the order the elements come in. */
  lemma SortPermutationInvariant(s: seq<string>, t: seq<string>)
    requires multiset(s) == multiset(t)
    ensures SortStrings(s) == SortStrings(t)
  {
    SortedUnique(SortStrings(s), SortStrings(t));
  }

  // ---------------------------------------------------------------------
  // Joining

  /** `parts.join(sep)`: the parts with the separator between each neighbouring pair. */
  function Join(parts: seq<string>, sep: string): (r: string)
    ensures |parts| == 1 ==> r == parts[0]
    ensures |parts| > 1 ==> |r| >= |parts[0]| + |sep| && r[..|parts[0]| + |sep|] == parts[0] + sep
  {
    if |parts| == 0 then ""
    else if |parts| == 1 then parts[0]
    else parts[0] + sep + Join(parts[1..], sep)
  }

  /** The first occurrence of a character that the prefix does not hold is right after the prefix. */
  lemma IndexOfAfter(a: string, c: char, b: string)
    ensures IndexOf(a + [c] + b, c) == |a| <==> c !in a
  {
    var s := a + [c] + b;
    assert s[|a|] == c;
    assert s[..|a|] == a;
    var k := IndexOf(s, c);
    assert k <= |a| ==> s[..k] == a[..k];
  }

  /** No part holds the separator character. */
  predicate Unseparated(parts: seq<string>, c: char) {
    forall i :: 0 <= i < |parts| ==> c !in parts[i]
  }

  /**
    Joining with a one-character separator that no part holds loses
    nothing: equally many such parts joined to the same text are the same
    parts.
   */
  lemma {:induction false} JoinInjective(p: seq<string>, q: seq<string>, c: char)
    requires |p| == |q| && Unseparated(p, c) && Unseparated(q, c)
    requires Join(p, [c]) == Join(q, [c])
    ensures p == q
    decreases |p|
  {
    if |p| > 1 {
      var s := Join(p, [c]);
      IndexOfAfter(p[0], c, Join(p[1..], [c]));
      IndexOfAfter(q[0], c, Join(q[1..], [c]));
      assert |p[0]| == |q[0]| && p[0] == s[..|p[0]|] == q[0];
      assert Join(p[1..], [c]) == s[|p[0]| + 1..] == Join(q[1..], [c]);
      JoinInjective(p[1..], q[1..], c);
      assert p == [p[0]] + p[1..] && q == [q[0]] + q[1..];
    }
  }
}
