/**
 * The JavaScript string and array primitives the services rely on, written
 * out over `seq<char>`: `split` with a one-character separator, `join`,
 * decimal rendering of numbers, ASCII `toUpperCase`, `replace` with a string
 * pattern (first occurrence) and with a global pattern, and the
 * insertion-ordered de-duplication that `Array.from(new Set(xs))` performs.
 */
module Text {

  /** No element occurs twice. */
  ghost predicate Distinct<T>(s: seq<T>) {
    forall i, j :: 0 <= i < j < |s| ==> s[i] != s[j]
  }

  // ---------------------------------------------------------------- split / join

  /** `s.split(c)`: the pieces between occurrences of `c`; "" gives [""]. */
  function Split(s: string, c: char): (r: seq<string>)
    ensures |r| >= 1
    decreases |s|
  {
    if s == [] then [""]
    else if s[0] == c then [""] + Split(s[1..], c)
    else
      var t := Split(s[1..], c);
      [[s[0]] + t[0]] + t[1..]
  }

  /** `xs.join(sep)`: [] gives "", one element gives itself. */
  function Join(xs: seq<string>, sep: string): string
  {
    if |xs| == 0 then ""
    else if |xs| == 1 then xs[0]
    else xs[0] + sep + Join(xs[1..], sep)
  }

  /** No piece produced by `Split` contains the separator. */
  lemma {:induction false} SplitPiecesFree(s: string, c: char)
    ensures forall i :: 0 <= i < |Split(s, c)| ==> c !in Split(s, c)[i]
    decreases |s|
  {
    if s != [] {
      SplitPiecesFree(s[1..], c);
    }
  }

  /** Joining the pieces back with the separator restores the string. */
  lemma {:induction false} JoinSplit(s: string, c: char)
    ensures Join(Split(s, c), [c]) == s
    decreases |s|
  {
    if s != [] {
      JoinSplit(s[1..], c);
      var t := Split(s[1..], c);
      if s[0] == c {
        assert Split(s, c) == [""] + t;
        assert ([""] + t)[1..] == t;
      } else {
        var r := Split(s, c);
        assert r == [[s[0]] + t[0]] + t[1..];
        if |t| > 1 {
          assert r[1..] == t[1..];
          assert Join(t, [c]) == t[0] + [c] + Join(t[1..], [c]);
        }
      }
    }
  }

  /** A string without the separator is a single piece. */
  lemma {:induction false} SplitWithoutSeparator(s: string, c: char)
    requires c !in s
    ensures Split(s, c) == [s]
    decreases |s|
  {
    if s != [] {
      assert c !in s[1..];
      SplitWithoutSeparator(s[1..], c);
      assert [s[0]] + s[1..] == s;
    }
  }

  /** The first character of a string, when it is not the separator, starts the first piece. */
  lemma SplitConsPlain(x: char, s: string, c: char)
    requires x != c
    ensures Split([x] + s, c) == [[x] + Split(s, c)[0]] + Split(s, c)[1..]
  {
    assert ([x] + s)[1..] == s;
  }

  /** A leading separator closes an empty first piece. */
  lemma SplitConsSeparator(s: string, c: char)
    ensures Split([c] + s, c) == [""] + Split(s, c)
  {
    assert ([c] + s)[1..] == s;
  }

  lemma HeadExtend(x: char, p: seq<string>, q: seq<string>)
    requires |p| >= 1
    ensures [[x] + (p + q)[0]] + (p + q)[1..] == ([[x] + p[0]] + p[1..]) + q
  {
    assert (p + q)[1..] == p[1..] + q;
  }

  /** A separator between two strings splits them independently. */
  lemma {:induction false} SplitAround(a: string, b: string, c: char)
    ensures Split(a + [c] + b, c) == Split(a, c) + Split(b, c)
    decreases |a|
  {
    if a == [] {
      assert a + [c] + b == [c] + b;
      SplitConsSeparator(b, c);
    } else {
      var x, rest := a[0], a[1..] + [c] + b;
      assert a + [c] + b == [x] + rest;
      assert a == [x] + a[1..];
      SplitAround(a[1..], b, c);
      if x == c {
        SplitConsSeparator(rest, c);
        SplitConsSeparator(a[1..], c);
      } else {
        SplitConsPlain(x, rest, c);
        SplitConsPlain(x, a[1..], c);
        HeadExtend(x, Split(a[1..], c), Split(b, c));
      }
    }
  }

  /** Splitting a join of separator-free pieces gives the pieces back. */
  lemma {:induction false} SplitJoin(xs: seq<string>, c: char)
    requires |xs| >= 1
    requires forall i :: 0 <= i < |xs| ==> c !in xs[i]
    ensures Split(Join(xs, [c]), c) == xs
    decreases |xs|
  {
    if |xs| == 1 {
      SplitWithoutSeparator(xs[0], c);
    } else {
      SplitJoin(xs[1..], c);
      SplitWithoutSeparator(xs[0], c);
      SplitAround(xs[0], Join(xs[1..], [c]), c);
      assert [xs[0]] + xs[1..] == xs;
    }
  }

  /** Every joined element occurs inside the join, with the separator between neighbours. */
  lemma {:induction false} JoinCons(x: string, xs: seq<string>, sep: string)
    requires |xs| >= 1
    ensures Join([x] + xs, sep) == x + sep + Join(xs, sep)
  {
    assert ([x] + xs)[1..] == xs;
  }

  // ---------------------------------------------------------------- numbers

  /** The decimal digit character for `d`. */
  function DigitChar(d: nat): (c: char)
    requires d < 10
    ensures '0' <= c <= '9'
  {
    ('0' as int + d) as char
  }

  /** `String(n)` / `${n}` for a natural number: its decimal digits, no leading zeros. */
  function NatToString(n: nat): (r: string)
    ensures |r| >= 1
    ensures forall i :: 0 <= i < |r| ==> '0' <= r[i] <= '9'
  {
    if n < 10 then [DigitChar(n)] else NatToString(n / 10) + [DigitChar(n % 10)]
  }

  /** `String(i)` / `${i}` for an integer: a minus sign before negative numbers. */
  function IntToString(i: int): (r: string)
    ensures |r| >= 1
    ensures forall c :: c in r ==> c == '-' || '0' <= c <= '9'
  {
    if i < 0 then "-" + NatToString(-i) else NatToString(i)
  }

  /** Reads a string of decimal digits back as a number. */
  function ParseDigits(s: string): int
  {
    if s == [] then 0
    else ParseDigits(s[..|s| - 1]) * 10 + (s[|s| - 1] as int - '0' as int)
  }

  /** Decimal rendering is undone by reading the digits back. */
  lemma {:induction false} ParseNatToString(n: nat)
    ensures ParseDigits(NatToString(n)) == n
  {
    if n >= 10 {
      ParseNatToString(n / 10);
      var s := NatToString(n);
      assert s[..|s| - 1] == NatToString(n / 10);
    }
  }

  /** Distinct numbers render differently. */
  lemma NatToStringInjective(m: nat, n: nat)
    requires NatToString(m) == NatToString(n)
    ensures m == n
  {
    ParseNatToString(m);
    ParseNatToString(n);
  }

  // ---------------------------------------------------------------- characters

  /** `toUpperCase` on one character, for the ASCII letters. */
  function ToUpper(c: char): (u: char)
    ensures ('a' <= c <= 'z') ==> u as int == c as int - 32
    ensures !('a' <= c <= 'z') ==> u == c
    ensures u == ' ' <==> c == ' '
  {
    if 'a' <= c <= 'z' then (c as int - 32) as char else c
  }

  // ---------------------------------------------------------------- search / replace

  predicate StartsWith(s: string, p: string) {
    |p| <= |s| && s[..|p|] == p
  }

  /** `p` occurs somewhere in `s`. */
  predicate Contains(s: string, p: string)
    decreases |s|
  {
    StartsWith(s, p) || (s != [] && Contains(s[1..], p))
  }

  /** `s.replace(p, r)` with a string pattern: only the first occurrence is replaced. */
  function ReplaceFirst(s: string, p: string, r: string): string
    decreases |s|
  {
    if StartsWith(s, p) then r + s[|p|..]
    else if s == [] then s
    else [s[0]] + ReplaceFirst(s[1..], p, r)
  }

  /** A string that starts with the pattern loses exactly that prefix. */
  lemma ReplaceFirstAtStart(p: string, rest: string)
    ensures ReplaceFirst(p + rest, p, "") == rest
  {
    assert (p + rest)[..|p|] == p;
    assert (p + rest)[|p|..] == rest;
  }

  /** A string that does not contain the pattern is returned unchanged. */
  lemma {:induction false} ReplaceFirstAbsent(s: string, p: string, r: string)
    requires !Contains(s, p)
    ensures ReplaceFirst(s, p, r) == s
    decreases |s|
  {
    if s != [] {
      ReplaceFirstAbsent(s[1..], p, r);
      assert [s[0]] + s[1..] == s;
    }
  }

  /** `s.replace(/p/g, r)`: every non-overlapping occurrence, left to right. */
  function ReplaceAll(s: string, p: string, r: string): string
    requires |p| > 0
    decreases |s|
  {
    if StartsWith(s, p) then r + ReplaceAll(s[|p|..], p, r)
    else if s == [] then s
    else [s[0]] + ReplaceAll(s[1..], p, r)
  }

  /** If `?year`-replaced text starts with a `?`-free word, so did the original text. */
  lemma {:induction false} ReplaceYearPrefix(s: string, w: string)
    requires '?' !in w
    ensures StartsWith(ReplaceAll(s, "?year", "?y2"), w) ==> StartsWith(s, w)
    decreases |s|
  {
    var o := ReplaceAll(s, "?year", "?y2");
    if w == [] {
    } else if s == [] {
      assert o == [];
    } else if StartsWith(s, "?year") {
      assert o == "?y2" + ReplaceAll(s[5..], "?year", "?y2");
      assert o[0] == '?' != w[0];
    } else {
      var o' := ReplaceAll(s[1..], "?year", "?y2");
      assert o == [s[0]] + o';
      if StartsWith(o, w) {
        assert w[0] == o[0] == s[0];
        assert StartsWith(o', w[1..]) by {
          assert o'[..|w| - 1] == o[1..|w|];
        }
        ReplaceYearPrefix(s[1..], w[1..]);
        assert s[..|w|] == [s[0]] + s[1..][..|w| - 1];
      }
    }
  }

  /** After replacing every `?year` by `?y2`, no `?year` is left. */
  lemma {:induction false} ReplaceYearLeavesNone(s: string)
    ensures !Contains(ReplaceAll(s, "?year", "?y2"), "?year")
    decreases |s|
  {
    var o := ReplaceAll(s, "?year", "?y2");
    if s == [] {
      assert o == [];
    } else if StartsWith(s, "?year") {
      var t := ReplaceAll(s[5..], "?year", "?y2");
      ReplaceYearLeavesNone(s[5..]);
      assert o == "?y2" + t;
      NoYearAfterY2(t);
    } else {
      var t := ReplaceAll(s[1..], "?year", "?y2");
      ReplaceYearLeavesNone(s[1..]);
      assert o == [s[0]] + t;
      assert o[1..] == t;
      ReplaceYearPrefix(s[1..], "year");
      if s[0] == '?' {
        assert !StartsWith(s[1..], "year") by {
          if |s| >= 5 { assert s[..5] == [s[0]] + s[1..][..4]; }
        }
        assert !StartsWith(o, "?year") by {
          if |o| >= 5 { assert o[..5] == [o[0]] + t[..4]; }
        }
      }
    }
  }

  /** `?y2` followed by text without `?year` contains no `?year`. */
  lemma NoYearAfterY2(t: string)
    requires !Contains(t, "?year")
    ensures !Contains("?y2" + t, "?year")
  {
    var o := "?y2" + t;
    assert o[1..] == "y2" + t && o[2..] == "2" + t && o[3..] == t;
    assert !StartsWith(o, "?year") by { assert |o| < 5 || o[2] != "?year"[2]; }
    assert !StartsWith(o[1..], "?year") by { assert o[1..][0] != '?'; }
    assert !StartsWith(o[2..], "?year") by { assert o[2..][0] != '?'; }
    assert !Contains(o[2..], "?year");
    assert !Contains(o[1..], "?year");
  }

  /** `p` occurs in any text that has it between two other pieces. */
  lemma {:induction false} ContainsIn(a: string, p: string, b: string)
    ensures Contains(a + p + b, p)
    decreases |a|
  {
    if a == [] {
      assert a + p + b == p + b;
      assert (p + b)[..|p|] == p;
    } else {
      ContainsIn(a[1..], p, b);
      assert (a + p + b)[1..] == a[1..] + p + b;
    }
  }

  /** Text added in front keeps an occurrence. */
  lemma {:induction false} ContainsAfter(a: string, b: string, p: string)
    requires Contains(b, p)
    ensures Contains(a + b, p)
    decreases |a|
  {
    if a == [] {
      assert a + b == b;
    } else {
      ContainsAfter(a[1..], b, p);
      assert (a + b)[1..] == a[1..] + b;
    }
  }

  /** Text added behind keeps an occurrence. */
  lemma {:induction false} ContainsBefore(a: string, b: string, p: string)
    requires Contains(a, p)
    ensures Contains(a + b, p)
    decreases |a|
  {
    if StartsWith(a, p) {
      assert (a + b)[..|p|] == a[..|p|];
    } else {
      ContainsBefore(a[1..], b, p);
      assert (a + b)[1..] == a[1..] + b;
    }
  }

  /** An occurrence splits the text around it. */
  lemma {:induction false} ContainsSplit(s: string, p: string) returns (a: string, b: string)
    requires Contains(s, p)
    ensures s == a + p + b
    decreases |s|
  {
    if StartsWith(s, p) {
      a, b := "", s[|p|..];
      assert s == s[..|p|] + s[|p|..];
    } else {
      var a', b' := ContainsSplit(s[1..], p);
      a, b := [s[0]] + a', b';
      assert s == [s[0]] + s[1..];
    }
  }

  /** Both halves of an occurring concatenation occur. */
  lemma ContainsHalves(s: string, p: string, q: string)
    requires Contains(s, p + q)
    ensures Contains(s, p) && Contains(s, q)
  {
    var a, b := ContainsSplit(s, p + q);
    assert s == a + p + (q + b);
    ContainsIn(a, p, q + b);
    assert s == (a + p) + q + b;
    ContainsIn(a + p, q, b);
  }

  /** What occurs in an occurring text occurs in the whole. */
  lemma ContainsTrans(s: string, t: string, p: string)
    requires Contains(s, t) && Contains(t, p)
    ensures Contains(s, p)
  {
    var a, b := ContainsSplit(s, t);
    var c, d := ContainsSplit(t, p);
    assert s == (a + c) + p + (d + b);
    ContainsIn(a + c, p, d + b);
  }

  /** Where `a + c` occurs and `a` ends with `b`, `b + c` occurs. */
  lemma ContainsSeam(s: string, a: string, b: string, c: string)
    requires Contains(s, a + c) && EndsWith(a, b)
    ensures Contains(s, b + c)
  {
    var x := a[..|a| - |b|];
    assert a == x + b;
    ContainsRightPart(s, x, b, c);
  }

  /** The right part of an occurring three-piece concatenation occurs. */
  lemma ContainsRightPart(s: string, a: string, b: string, c: string)
    requires Contains(s, a + b + c)
    ensures Contains(s, b + c)
  {
    assert a + b + c == a + (b + c);
    ContainsHalves(s, a, b + c);
  }

  /** Without the pattern's first character nothing can be replaced. */
  lemma {:induction false} ReplaceAllUntouched(s: string, p: string, r: string)
    requires |p| > 0 && p[0] !in s
    ensures ReplaceAll(s, p, r) == s
    decreases |s|
  {
    if s != [] {
      assert !StartsWith(s, p) by { assert s[0] != p[0]; }
      ReplaceAllUntouched(s[1..], p, r);
      assert [s[0]] + s[1..] == s;
    }
  }

  /** A leading piece without the pattern's first character is copied as it is. */
  lemma {:induction false} ReplaceAllSkip(a: string, b: string, p: string, r: string)
    requires |p| > 0 && p[0] !in a
    ensures ReplaceAll(a + b, p, r) == a + ReplaceAll(b, p, r)
    decreases |a|
  {
    if a != [] {
      assert !StartsWith(a + b, p) by { assert (a + b)[0] == a[0] != p[0]; }
      ReplaceAllSkip(a[1..], b, p, r);
      assert (a + b)[1..] == a[1..] + b;
      assert [a[0]] + a[1..] == a;
    } else {
      assert a + b == b;
    }
  }

  /** A leading occurrence of the pattern is replaced. */
  lemma ReplaceAllAtStart(p: string, b: string, r: string)
    requires |p| > 0
    ensures ReplaceAll(p + b, p, r) == r + ReplaceAll(b, p, r)
  {
    assert (p + b)[..|p|] == p;
    assert (p + b)[|p|..] == b;
  }

  predicate EndsWith(s: string, p: string) {
    |p| <= |s| && s[|s| - |p|..] == p
  }

  lemma EndsWithAppend(a: string, p: string)
    ensures EndsWith(a + p, p)
  {
    assert (a + p)[|a|..] == p;
  }

  lemma EndsWithTrans(s: string, t: string, p: string)
    requires EndsWith(s, t) && EndsWith(t, p)
    ensures EndsWith(s, p)
  {
    assert s[|s| - |p|..] == s[|s| - |t|..][|t| - |p|..];
  }

  // ---------------------------------------------------------------- template literals

  /**
   * A template literal: its fixed strings with the substituted values in
   * between, `strings[0] + values[0] + strings[1] + … + strings[n]`.
   */
  function Fill(strings: seq<string>, values: seq<string>): string
    requires |strings| == |values| + 1
    decreases |values|
  {
    if values == [] then strings[0]
    else Fill(strings[..|values|], values[..|values| - 1]) + values[|values| - 1] + strings[|values|]
  }

  /** A filled template ends with its last fixed string. */
  lemma FillEnd(strings: seq<string>, values: seq<string>)
    requires |strings| == |values| + 1
    ensures EndsWith(Fill(strings, values), strings[|values|])
  {
    var r := Fill(strings, values);
    if values == [] {
      assert r[|r| - |strings[0]|..] == r;
    } else {
      EndsWithAppend(Fill(strings[..|values|], values[..|values| - 1]) + values[|values| - 1], strings[|values|]);
    }
  }

  /** Every fixed string of a template, followed by the value substituted after it, occurs in the result. */
  lemma {:induction false} FillSeam(strings: seq<string>, values: seq<string>, i: nat)
    requires |strings| == |values| + 1
    requires i < |values|
    ensures Contains(Fill(strings, values), strings[i] + values[i])
    decreases |values|
  {
    var n := |values|;
    var init, last := strings[..n], strings[n];
    var front := Fill(init, values[..n - 1]);
    if i == n - 1 {
      FillEnd(init, values[..n - 1]);
      var x := front[..|front| - |init[n - 1]|];
      assert front == x + init[n - 1];
      assert Fill(strings, values) == x + (strings[i] + values[i]) + last;
      ContainsIn(x, strings[i] + values[i], last);
    } else {
      FillSeam(init, values[..n - 1], i);
      ContainsBefore(front, values[n - 1], strings[i] + values[i]);
      ContainsBefore(front + values[n - 1], last, strings[i] + values[i]);
    }
  }

  /** Every substituted value occurs in the result. */
  lemma FillValue(strings: seq<string>, values: seq<string>, i: nat)
    requires |strings| == |values| + 1
    requires i < |values|
    ensures Contains(Fill(strings, values), values[i])
  {
    FillSeam(strings, values, i);
    ContainsHalves(Fill(strings, values), strings[i], values[i]);
  }

  /** Every fixed string occurs in the result. */
  lemma FillString(strings: seq<string>, values: seq<string>, i: nat)
    requires |strings| == |values| + 1
    requires i < |strings|
    ensures Contains(Fill(strings, values), strings[i])
  {
    var r := Fill(strings, values);
    if i < |values| {
      FillSeam(strings, values, i);
      ContainsHalves(r, strings[i], values[i]);
    } else {
      FillEnd(strings, values);
      ContainsIn(r[..|r| - |strings[i]|], strings[i], "");
      assert r == r[..|r| - |strings[i]|] + strings[i] + "";
    }
  }

  // ---------------------------------------------------------------- ordered sets

  /** Position of the first occurrence of `x`. */
  function IndexOf<T(==)>(xs: seq<T>, x: T): (i: nat)
    requires x in xs
    ensures i < |xs| && xs[i] == x
    ensures forall j :: 0 <= j < i ==> xs[j] != x
  {
    if xs[0] == x then 0 else 1 + IndexOf(xs[1..], x)
  }

  /** Appending does not move first occurrences. */
  lemma {:induction false} IndexOfAppend<T>(xs: seq<T>, y: T, x: T)
    requires x in xs
    ensures IndexOf(xs + [y], x) == IndexOf(xs, x)
  {
    var i := IndexOf(xs, x);
    var k := IndexOf(xs + [y], x);
    assert (xs + [y])[i] == x;
    assert k <= i;
    assert xs[k] == x;
  }

  /** `Array.from(new Set(xs))`: each element kept at its first occurrence. */
  function Dedup<T(==)>(xs: seq<T>): (d: seq<T>)
    ensures forall x :: x in d ==> x in xs
  {
    if xs == [] then []
    else
      var d := Dedup(xs[..|xs| - 1]);
      if xs[|xs| - 1] in d then d else d + [xs[|xs| - 1]]
  }

  /**
   * De-duplication keeps exactly the elements of its input, once each, in the
   * order of their first occurrences.
   */
  lemma {:induction false} DedupSpec<T>(xs: seq<T>)
    ensures forall x :: x in Dedup(xs) ==> x in xs
    ensures forall x :: x in xs ==> x in Dedup(xs)
    ensures Distinct(Dedup(xs))
    ensures forall i, j :: 0 <= i < j < |Dedup(xs)| ==>
              IndexOf(xs, Dedup(xs)[i]) < IndexOf(xs, Dedup(xs)[j])
  {
    if xs != [] {
      var init, last := xs[..|xs| - 1], xs[|xs| - 1];
      assert xs == init + [last];
      DedupSpec(init);
      var d := Dedup(init);
      forall x | x in d ensures IndexOf(xs, x) == IndexOf(init, x) {
        IndexOfAppend(init, last, x);
      }
      if last !in d {
        assert last !in init;
        assert IndexOf(xs, last) == |init|;
        forall i, j | 0 <= i < j < |d + [last]|
          ensures IndexOf(xs, (d + [last])[i]) < IndexOf(xs, (d + [last])[j])
        {
          if j == |d| {
            assert (d + [last])[i] == d[i];
          } else {
            assert (d + [last])[i] == d[i] && (d + [last])[j] == d[j];
          }
        }
      }
    }
  }
}
