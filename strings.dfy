/**
  The handful of Python string built-ins the scraper relies on, modelled on
  `string` (= seq<char>):
  - `str.find` (IndexOf) and `str.split(sep)` with a non-empty separator (Split),
    with `sep.join` (Join) as the inverse that specifies Split;
  - `str(n)` for a natural number, as used by f-string interpolation (Decimal),
    with ParseDecimal as its inverse.
 */
module Strings {

  datatype Option<T> = None | Some(value: T)

  /** `pat` occurs in `s` starting at index `j`. */
  predicate OccursAt(s: string, pat: string, j: nat) {
    j + |pat| <= |s| && s[j..j + |pat|] == pat
  }

  /** `pat` occurs nowhere in `s`. */
  ghost predicate Avoids(s: string, pat: string) {
    forall j: nat :: !OccursAt(s, pat, j)
  }

  /** An occurrence inside a prefix of `s` is an occurrence in `s`. */
  lemma OccursInPrefix(s: string, pat: string, i: nat, j: nat)
    requires i <= |s| && OccursAt(s[..i], pat, j)
    ensures OccursAt(s, pat, j) && j + |pat| <= i
  {
    assert s[..i][j..j + |pat|] == s[j..j + |pat|];
  }

  /** Python's `s.find(pat, from)`: the first index at or after `from` where `pat` occurs. */
  function IndexFrom(s: string, pat: string, from: nat): (r: Option<nat>)
    requires pat != []
    ensures r.Some? ==> from <= r.value && r.value + |pat| <= |s|
    decreases |s| - from
  {
    if from + |pat| > |s| then None
    else if OccursAt(s, pat, from) then Some(from)
    else IndexFrom(s, pat, from + 1)
  }

  /** IndexFrom finds the first occurrence at or after `from`, and None means there is none. */
  lemma {:induction false} IndexFromFirst(s: string, pat: string, from: nat)
    requires pat != []
    ensures var r := IndexFrom(s, pat, from);
      && (r.Some? ==> from <= r.value && OccursAt(s, pat, r.value))
      && (r.Some? ==> forall j: nat :: from <= j < r.value ==> !OccursAt(s, pat, j))
      && (r.None? <==> forall j: nat :: from <= j ==> !OccursAt(s, pat, j))
    decreases |s| - from
  {
    if from + |pat| <= |s| && !OccursAt(s, pat, from) {
      IndexFromFirst(s, pat, from + 1);
    }
  }

  /** Python's `s.find(pat)`: the first index where `pat` occurs, None for -1. */
  function IndexOf(s: string, pat: string): (r: Option<nat>)
    requires pat != []
    ensures r.Some? ==> r.value + |pat| <= |s|
  {
    IndexFrom(s, pat, 0)
  }

  /** IndexOf finds the first occurrence, and None means `pat` does not occur. */
  lemma IndexOfFirst(s: string, pat: string)
    requires pat != []
    ensures var r := IndexOf(s, pat);
      && (r.Some? ==> OccursAt(s, pat, r.value))
      && (r.Some? ==> forall j: nat :: j < r.value ==> !OccursAt(s, pat, j))
      && (r.None? <==> Avoids(s, pat))
  {
    IndexFromFirst(s, pat, 0);
  }

  /** Python's `sep.join(parts)`. */
  function Join(parts: seq<string>, sep: string): string {
    if |parts| == 0 then ""
    else if |parts| == 1 then parts[0]
    else parts[0] + sep + Join(parts[1..], sep)
  }

  /** Python's `s.split(sep)` for a non-empty separator: cut at each occurrence, left to right. */
  function Split(s: string, sep: string): (parts: seq<string>)
    requires sep != []
    ensures |parts| >= 1
    decreases |s|
  {
    match IndexOf(s, sep)
    case None => [s]
    case Some(i) => [s[..i]] + Split(s[i + |sep|..], sep)
  }

  /** The fields of a split join back to `s`, and none of them contains the separator. */
  lemma {:induction false} SplitJoin(s: string, sep: string)
    requires sep != []
    ensures Join(Split(s, sep), sep) == s
    ensures forall k :: 0 <= k < |Split(s, sep)| ==> Avoids(Split(s, sep)[k], sep)
    decreases |s|
  {
    IndexOfFirst(s, sep);
    match IndexOf(s, sep)
    case None =>
    case Some(i) =>
      var head, rest := s[..i], s[i + |sep|..];
      SplitJoin(rest, sep);
      assert Avoids(head, sep) by {
        forall j: nat | OccursAt(head, sep, j) ensures false {
          OccursInPrefix(s, sep, i, j);
        }
      }
      var parts := Split(s, sep);
      assert parts == [head] + Split(rest, sep);
      assert parts[1..] == Split(rest, sep);
      assert Join(parts, sep) == head + sep + rest;
      assert s == head + sep + rest;
      forall k | 0 <= k < |parts| ensures Avoids(parts[k], sep) {
        if k > 0 {
          assert parts[k] == Split(rest, sep)[k - 1];
        }
      }
  }

  /** A one-character pattern occurs exactly where that character stands. */
  lemma OccursAtChar(s: string, c: char, j: nat)
    ensures OccursAt(s, [c], j) <==> j < |s| && s[j] == c
  {
  }

  /** A one-character separator is avoided exactly when the character is absent. */
  lemma AvoidsChar(s: string, c: char)
    ensures Avoids(s, [c]) <==> c !in s
  {
    if c in s {
      var j :| 0 <= j < |s| && s[j] == c;
      OccursAtChar(s, c, j);
    } else {
      forall j: nat ensures !OccursAt(s, [c], j) {
        OccursAtChar(s, c, j);
      }
    }
  }

  /** The first field of a split is everything before the first separator. */
  lemma SplitHead(s: string, sep: string)
    requires sep != []
    ensures IndexOf(s, sep).None? ==> Split(s, sep) == [s]
    ensures IndexOf(s, sep).Some? ==>
      |Split(s, sep)| >= 2 && Split(s, sep)[0] == s[..IndexOf(s, sep).value]
  {
  }

  /**
    The first field of a split is a prefix of `s` that the separator, or the
    end of `s`, follows.
   */
  lemma SplitFirst(s: string, sep: string)
    requires sep != []
    ensures var f := Split(s, sep)[0];
      f <= s && (|f| == |s| || OccursAt(s, sep, |f|))
  {
    SplitHead(s, sep);
    IndexOfFirst(s, sep);
  }

  /**
    With a one-character separator the first field is the longest prefix
    without that character.
   */
  lemma FirstFieldChar(s: string, c: char)
    ensures var f := Split(s, [c])[0];
      f <= s && c !in f && (|f| == |s| || s[|f|] == c)
  {
    var f := Split(s, [c])[0];
    SplitFirst(s, [c]);
    SplitJoin(s, [c]);
    AvoidsChar(f, c);
    if |f| < |s| {
      OccursAtChar(s, c, |f|);
    }
  }

  /** Splitting after the first separator: the second field heads the rest's split. */
  lemma SplitSecond(s: string, sep: string, i: nat)
    requires sep != [] && IndexOf(s, sep) == Some(i)
    ensures |Split(s, sep)| >= 2 && Split(s, sep)[1] == Split(s[i + |sep|..], sep)[0]
  {
    var rest := Split(s[i + |sep|..], sep);
    assert Split(s, sep) == [s[..i]] + rest;
    assert ([s[..i]] + rest)[1] == rest[0];
  }

  /** Joining one more field appends the separator and that field. */
  lemma {:induction false} JoinSnoc(parts: seq<string>, x: string, sep: string)
    requires |parts| >= 1
    ensures Join(parts + [x], sep) == Join(parts, sep) + sep + x
    decreases |parts|
  {
    if |parts| > 1 {
      assert (parts + [x])[1..] == parts[1..] + [x];
      JoinSnoc(parts[1..], x, sep);
    }
  }

  /**
    A join of two or more fields ends with the last two fields and the
    separator between them; what comes before is empty or ends with `sep`.
   */
  lemma JoinLastTwo(parts: seq<string>, sep: string)
    requires |parts| >= 2
    ensures var n := |parts|;
      var front := if n == 2 then "" else Join(parts[..n - 2], sep) + sep;
      Join(parts, sep) == front + (parts[n - 2] + sep + parts[n - 1])
  {
    var n := |parts|;
    var init, last := parts[..n - 1], parts[n - 1];
    assert parts == init + [last];
    JoinSnoc(init, last, sep);
    if n == 2 {
      assert Join(init, sep) == parts[0];
      assert Join(parts, sep) == parts[0] + sep + last;
    } else {
      var front, mid := parts[..n - 2], parts[n - 2];
      assert init == front + [mid];
      JoinSnoc(front, mid, sep);
      calc {
        Join(parts, sep);
        Join(init, sep) + sep + last;
        Join(front, sep) + sep + mid + sep + last;
        { ConcatAssoc(Join(front, sep) + sep, mid, sep); }
        (Join(front, sep) + sep) + (mid + sep) + last;
        { ConcatAssoc(Join(front, sep) + sep, mid + sep, last); }
        (Join(front, sep) + sep) + (mid + sep + last);
      }
    }
  }

  lemma ConcatAssoc(a: string, b: string, c: string)
    ensures a + b + c == a + (b + c)
  {
  }

  /**
    For a one-character separator Split is the only way to cut `s` into
    separator-free fields: any such fields that join back to `s` are Split(s).
   */
  lemma {:induction false} SplitCharUnique(parts: seq<string>, c: char)
    requires |parts| >= 1
    requires forall k :: 0 <= k < |parts| ==> c !in parts[k]
    ensures Split(Join(parts, [c]), [c]) == parts
    decreases |parts|
  {
    var s := Join(parts, [c]);
    IndexOfFirst(s, [c]);
    if |parts| == 1 {
      AvoidsChar(parts[0], c);
    } else {
      var p0 := parts[0];
      assert s == p0 + [c] + Join(parts[1..], [c]);
      OccursAtChar(s, c, |p0|);
      forall j: nat | j < |p0| ensures !OccursAt(s, [c], j) {
        OccursAtChar(s, c, j);
        assert s[j] == p0[j];
      }
      var i := IndexOf(s, [c]).value;
      assert i == |p0|;
      assert s[..i] == p0;
      assert s[i + 1..] == Join(parts[1..], [c]);
      SplitCharUnique(parts[1..], c);
    }
  }

  // ---------------------------------------------------------------------------
  // Decimal numerals, as produced by `str(n)` for n >= 0.

  predicate IsDigit(ch: char) {
    '0' <= ch <= '9'
  }

  predicate AllDigits(s: string) {
    forall k :: 0 <= k < |s| ==> IsDigit(s[k])
  }

  function DigitChar(d: nat): (ch: char)
    requires d < 10
    ensures IsDigit(ch)
  {
    (48 + d) as char
  }

  function DigitValue(ch: char): (d: nat)
    requires IsDigit(ch)
    ensures d < 10 && DigitChar(d) == ch
  {
    (ch as int - 48) as nat
  }

  /**
    `str(n)`: the canonical decimal numeral of `n`: non-empty, only digits, and
    no leading zero unless it is "0" itself.
   */
  function Decimal(n: nat): (s: string)
    ensures |s| >= 1 && AllDigits(s)
    ensures |s| > 1 ==> s[0] != '0'
  {
    if n < 10 then [DigitChar(n)]
    else Decimal(n / 10) + [DigitChar(n % 10)]
  }

  /** The value of a string of digits (`int(s)` on a digit string; 0 for ""). */
  function ParseDecimal(s: string): nat
    requires AllDigits(s)
  {
    if s == [] then 0
    else ParseDecimal(s[..|s| - 1]) * 10 + DigitValue(s[|s| - 1])
  }

  /** Reading a numeral back gives the number it was printed from. */
  lemma {:induction false} ParseDecimalOfDecimal(n: nat)
    ensures ParseDecimal(Decimal(n)) == n
    decreases n
  {
    var s := Decimal(n);
    if n >= 10 {
      assert s[..|s| - 1] == Decimal(n / 10);
      ParseDecimalOfDecimal(n / 10);
      assert DigitValue(s[|s| - 1]) == n % 10;
    }
  }

  /** A canonical numeral whose first digit is not '0' denotes a positive number. */
  lemma {:induction false} ParseDecimalPositive(s: string)
    requires |s| >= 1 && AllDigits(s) && s[0] != '0'
    ensures ParseDecimal(s) >= 1
    decreases |s|
  {
    if |s| > 1 {
      ParseDecimalPositive(s[..|s| - 1]);
    } else {
      assert DigitChar(DigitValue(s[0])) == s[0];
    }
  }

  /** Printing a canonical numeral's value gives the numeral back. */
  lemma {:induction false} DecimalOfParseDecimal(s: string)
    requires |s| >= 1 && AllDigits(s)
    requires |s| > 1 ==> s[0] != '0'
    ensures Decimal(ParseDecimal(s)) == s
    decreases |s|
  {
    var n := ParseDecimal(s);
    var d := DigitValue(s[|s| - 1]);
    if |s| == 1 {
      assert n == d;
    } else {
      var init := s[..|s| - 1];
      ParseDecimalPositive(init);
      DecimalOfParseDecimal(init);
      assert n / 10 == ParseDecimal(init) && n % 10 == d;
      assert s == init + [s[|s| - 1]];
    }
  }

  /** Distinct numbers print as distinct numerals. */
  lemma DecimalInjective(a: nat, b: nat)
    ensures Decimal(a) == Decimal(b) ==> a == b
  {
    ParseDecimalOfDecimal(a);
    ParseDecimalOfDecimal(b);
  }
}
