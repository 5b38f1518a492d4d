/** Python `str` behaviour the report relies on: code-point ordering (used by
    `list.sort` and by pandas when it sorts column labels), zero-padded decimal
    fields (what `strftime` writes), decimal digit strings (what `int()` reads),
    `str.endswith` and `str.replace`. */
module Text {
  import opened Sequences

  /* ---------------- ordering ---------------- */

  /** `a < b` on Python strings: code points compared left to right, and a
      proper prefix sorts first. */
  predicate Less(a: string, b: string)
    decreases |a|
  {
    if |a| == 0 then |b| > 0
    else if |b| == 0 then false
    else a[0] < b[0] || (a[0] == b[0] && Less(a[1..], b[1..]))
  }

  lemma {:induction false} LessIrreflexive(a: string)
    ensures !Less(a, a)
  {
    if |a| > 0 {
      LessIrreflexive(a[1..]);
    }
  }

  lemma {:induction false} LessTransitive(a: string, b: string, c: string)
    requires Less(a, b) && Less(b, c)
    ensures Less(a, c)
  {
    if |a| > 0 && a[0] == b[0] && b[0] == c[0] {
      LessTransitive(a[1..], b[1..], c[1..]);
    }
  }

  lemma {:induction false} LessTotal(a: string, b: string)
    ensures a == b || Less(a, b) || Less(b, a)
  {
    if |a| > 0 && |b| > 0 && a[0] == b[0] {
      LessTotal(a[1..], b[1..]);
      if a[1..] == b[1..] {
        assert a == [a[0]] + a[1..] && b == [b[0]] + b[1..];
      }
    }
  }

  lemma LessAsymmetric(a: string, b: string)
    requires Less(a, b)
    ensures !Less(b, a)
  {
    if Less(b, a) {
      LessTransitive(a, b, a);
      LessIrreflexive(a);
    }
  }

  /** "not less than" is transitive too (it is `>=` on a total order). */
  lemma AtLeastTransitive(a: string, b: string, c: string)
    requires !Less(a, b) && !Less(b, c)
    ensures !Less(a, c)
  {
    LessTotal(a, b);
    LessTotal(b, c);
    if Less(a, c) {
      if Less(b, a) {
        LessTransitive(b, a, c);
      }
    }
  }

  /** Comparing two strings that start with equally long parts compares those
      parts first and the rests only on a tie. */
  lemma {:induction false} LessAppend(a1: string, b1: string, a2: string, b2: string)
    requires |a1| == |a2|
    ensures Less(a1 + b1, a2 + b2) <==> Less(a1, a2) || (a1 == a2 && Less(b1, b2))
  {
    if |a1| == 0 {
      assert a1 + b1 == b1 && a2 + b2 == b2;
    } else {
      assert (a1 + b1)[1..] == a1[1..] + b1;
      assert (a2 + b2)[1..] == a2[1..] + b2;
      LessAppend(a1[1..], b1, a2[1..], b2);
      assert a1 == [a1[0]] + a1[1..] && a2 == [a2[0]] + a2[1..];
      LessIrreflexive(a1);
    }
  }

  /* ---------------- decimal digits ---------------- */

  predicate IsDigit(c: char) {
    '0' <= c <= '9'
  }

  predicate AllDigits(s: string) {
    forall i :: 0 <= i < |s| ==> IsDigit(s[i])
  }

  function DigitChar(n: int): (c: char)
    requires 0 <= n < 10
    ensures IsDigit(c)
  {
    ('0' as int + n) as char
  }

  function DigitValue(c: char): (n: int)
    requires IsDigit(c)
    ensures 0 <= n < 10
    ensures DigitChar(n) == c
  {
    c as int - '0' as int
  }

  function Pow10(n: nat): (p: nat)
    ensures p >= 1
  {
    if n == 0 then 1 else 10 * Pow10(n - 1)
  }

  /** The number a string of decimal digits denotes (leading zeros allowed). */
  function Value(s: string): nat
    requires AllDigits(s)
  {
    if |s| == 0 then 0 else 10 * Value(s[..|s| - 1]) + DigitValue(s[|s| - 1])
  }

  /** The `width` low-order decimal digits of `n`, zero-padded on the left:
      what `strftime` writes for `%Y` (width 4), `%m`, `%d`, `%H`, `%M` (width 2). */
  function Pad(n: nat, width: nat): (s: string)
    ensures |s| == width
    ensures AllDigits(s)
  {
    if width == 0 then [] else Pad(n / 10, width - 1) + [DigitChar(n % 10)]
  }

  /** Reading a padded field back gives the number that was written. */
  lemma {:induction false} PadValue(n: nat, width: nat)
    requires n < Pow10(width)
    ensures Value(Pad(n, width)) == n
  {
    if width > 0 {
      var s := Pad(n, width);
      var q, c := n / 10, DigitChar(n % 10);
      DivTen(n, width);
      assert s == Pad(q, width - 1) + [c];
      assert s[..|s| - 1] == Pad(q, width - 1);
      PadValue(q, width - 1);
      assert DigitValue(c) == n % 10;
    }
  }

  /** Writing back the number a digit string denotes, at the string's
      width, gives the string again. */
  lemma {:induction false} PadOfValue(s: string)
    requires AllDigits(s)
    ensures Pad(Value(s), |s|) == s
  {
    if |s| > 0 {
      var init := s[..|s| - 1];
      PadOfValue(init);
      var v := Value(s);
      assert v / 10 == Value(init) && v % 10 == DigitValue(s[|s| - 1]);
      assert s == init + [s[|s| - 1]];
    }
  }

  lemma DivTen(n: nat, width: nat)
    requires 0 < width && n < Pow10(width)
    ensures n / 10 < Pow10(width - 1)
    ensures n == 10 * (n / 10) + n % 10
  {
  }

  lemma PadInjective(x: nat, y: nat, width: nat)
    requires x < Pow10(width) && y < Pow10(width)
    ensures Pad(x, width) == Pad(y, width) <==> x == y
  {
    PadValue(x, width);
    PadValue(y, width);
  }

  /** For numbers that fit, string order of padded fields is numeric order. */
  lemma {:induction false} PadOrder(x: nat, y: nat, width: nat)
    requires x < Pow10(width) && y < Pow10(width)
    ensures Less(Pad(x, width), Pad(y, width)) <==> x < y
  {
    if width == 0 {
    } else {
      var cx, cy := DigitChar(x % 10), DigitChar(y % 10);
      LessAppend(Pad(x / 10, width - 1), [cx], Pad(y / 10, width - 1), [cy]);
      PadOrder(x / 10, y / 10, width - 1);
      PadInjective(x / 10, y / 10, width - 1);
      assert Less([cx], [cy]) <==> x % 10 < y % 10;
    }
  }

  /** Three fields of fixed widths joined by a separator: string order is the
      lexicographic order of the fields, and the fields can be read back. */
  lemma JoinedFields(y1: string, m1: string, d1: string, y2: string, m2: string, d2: string, sep: string)
    requires |y1| == |y2| && |m1| == |m2| && |d1| == |d2|
    ensures Less(y1 + sep + m1 + sep + d1, y2 + sep + m2 + sep + d2)
            <==> Less(y1, y2) || (y1 == y2 && (Less(m1, m2) || (m1 == m2 && Less(d1, d2))))
    ensures y1 + sep + m1 + sep + d1 == y2 + sep + m2 + sep + d2 <==> y1 == y2 && m1 == m2 && d1 == d2
  {
    var r1, r2 := m1 + sep + d1, m2 + sep + d2;
    assert y1 + sep + m1 + sep + d1 == y1 + sep + r1;
    assert y2 + sep + m2 + sep + d2 == y2 + sep + r2;
    SeparatedLess(y1, r1, y2, r2, sep);
    SeparatedLess(m1, d1, m2, d2, sep);
    SeparatedEqual(y1, r1, y2, r2, sep);
    SeparatedEqual(m1, d1, m2, d2, sep);
  }

  /** Two fields joined by a separator, the first of equal widths. */
  lemma SeparatedLess(a1: string, b1: string, a2: string, b2: string, sep: string)
    requires |a1| == |a2|
    ensures Less(a1 + sep + b1, a2 + sep + b2) <==> Less(a1, a2) || (a1 == a2 && Less(b1, b2))
  {
    var t1, t2 := sep + b1, sep + b2;
    assert a1 + sep + b1 == a1 + t1 && a2 + sep + b2 == a2 + t2;
    LessAppend(a1, t1, a2, t2);
    LessAppend(sep, b1, sep, b2);
    LessIrreflexive(sep);
  }

  lemma SeparatedEqual(a1: string, b1: string, a2: string, b2: string, sep: string)
    requires |a1| == |a2|
    ensures a1 + sep + b1 == a2 + sep + b2 <==> a1 == a2 && b1 == b2
  {
    var s1, s2 := a1 + sep + b1, a2 + sep + b2;
    assert s1[..|a1|] == a1 && s1[|a1| + |sep|..] == b1;
    assert s2[..|a2|] == a2 && s2[|a2| + |sep|..] == b2;
  }

  /* ---------------- sorting ---------------- */

  /** Non-increasing in Python string order: what `sort(reverse=True)` and
      `sort_index(ascending=False)` leave behind. */
  predicate Descending(s: seq<string>) {
    forall i, j :: 0 <= i < j < |s| ==> !Less(s[i], s[j])
  }

  /** Each element strictly above the next one. */
  predicate StrictlyDescending(s: seq<string>) {
    forall i :: 0 <= i < |s| - 1 ==> Less(s[i + 1], s[i])
  }

  lemma {:induction false} StrictlyDescendingIsDescending(s: seq<string>)
    requires StrictlyDescending(s)
    ensures Descending(s)
    ensures forall i, j :: 0 <= i < j < |s| ==> s[i] != s[j]
  {
    if |s| > 1 {
      StrictlyDescendingIsDescending(s[1..]);
      forall j | 0 < j < |s|
        ensures Less(s[j], s[0])
      {
        if j > 1 {
          assert Less(s[1..][j - 1], s[1..][0]) by {
            AboveTail(s[1..], j - 1);
          }
          LessTransitive(s[j], s[1], s[0]);
        }
      }
      forall i, j | 0 <= i < j < |s|
        ensures !Less(s[i], s[j]) && s[i] != s[j]
      {
        if i == 0 {
          LessAsymmetric(s[j], s[0]);
          LessIrreflexive(s[0]);
        } else {
          assert s[i] == s[1..][i - 1] && s[j] == s[1..][j - 1];
        }
      }
    }
  }

  /** In a strictly descending sequence the head is above every later element. */
  lemma {:induction false} AboveTail(s: seq<string>, j: int)
    requires StrictlyDescending(s)
    requires 0 < j < |s|
    ensures Less(s[j], s[0])
    decreases j
  {
    if j > 1 {
      AboveTail(s, j - 1);
      LessTransitive(s[j], s[j - 1], s[0]);
    }
  }

  lemma ConsDescending(h: string, t: seq<string>)
    requires Descending(t)
    requires forall y :: y in multiset(t) ==> !Less(h, y)
    ensures Descending([h] + t)
  {
    forall i, j | 0 <= i < j < |[h] + t|
      ensures !Less(([h] + t)[i], ([h] + t)[j])
    {
      if i == 0 {
        assert t[j - 1] in multiset(t);
      }
    }
  }

  function InsertDescending(x: string, s: seq<string>): (r: seq<string>)
    requires Descending(s)
    ensures multiset(r) == multiset(s) + multiset{x}
    ensures Descending(r)
  {
    if |s| == 0 then [x]
    else if !Less(x, s[0]) then
      AtLeastHead(x, s);
      ConsDescending(x, s);
      [x] + s
    else
      var r := InsertDescending(x, s[1..]);
      assert s == [s[0]] + s[1..];
      AtLeastInserted(x, s, r);
      ConsDescending(s[0], r);
      [s[0]] + r
  }

  lemma AtLeastHead(x: string, s: seq<string>)
    requires Descending(s) && |s| > 0 && !Less(x, s[0])
    ensures forall y :: y in multiset(s) ==> !Less(x, y)
  {
    forall y | y in multiset(s)
      ensures !Less(x, y)
    {
      var k :| 0 <= k < |s| && s[k] == y;
      if k > 0 {
        AtLeastTransitive(x, s[0], y);
      }
    }
  }

  lemma AtLeastInserted(x: string, s: seq<string>, r: seq<string>)
    requires Descending(s) && |s| > 0 && Less(x, s[0])
    requires multiset(r) == multiset(s[1..]) + multiset{x}
    ensures forall y :: y in multiset(r) ==> !Less(s[0], y)
  {
    forall y | y in multiset(r)
      ensures !Less(s[0], y)
    {
      if y == x {
        LessAsymmetric(x, s[0]);
      } else {
        assert y in multiset(s[1..]);
        var k :| 0 <= k < |s[1..]| && s[1..][k] == y;
        assert s[k + 1] == y;
      }
    }
  }

  /** Python's `sorted(s, reverse=True)` on strings. */
  function SortDescending(s: seq<string>): (r: seq<string>)
    ensures multiset(r) == multiset(s)
    ensures Descending(r)
  {
    if |s| == 0 then []
    else
      assert s == [s[0]] + s[1..];
      InsertDescending(s[0], SortDescending(s[1..]))
  }

  /** A descending arrangement of a multiset of strings is unique, so any
      descending permutation of `s` is what Python's sort returns. */
  lemma {:induction false} DescendingUnique(a: seq<string>, b: seq<string>)
    requires Descending(a) && Descending(b)
    requires multiset(a) == multiset(b)
    ensures a == b
  {
    PermutationLength(a, b);
    if |a| > 0 {
      DescendingHeads(a, b);
      MultisetTail(a);
      MultisetTail(b);
      DescendingTail(a);
      DescendingTail(b);
      DescendingUnique(a[1..], b[1..]);
      SameHeadAndTail(a, b);
    }
  }

  /** Two descending permutations of each other start alike. */
  lemma DescendingHeads(a: seq<string>, b: seq<string>)
    requires Descending(a) && Descending(b)
    requires multiset(a) == multiset(b)
    requires |a| > 0 && |b| > 0
    ensures a[0] == b[0]
  {
    assert a[0] in multiset(b);
    var j :| 0 <= j < |b| && b[j] == a[0];
    assert b[0] in multiset(a);
    var i :| 0 <= i < |a| && a[i] == b[0];
    assert !Less(a[0], b[0]) by {
      if i == 0 {
        LessIrreflexive(a[0]);
      }
    }
    assert !Less(b[0], a[0]) by {
      if j == 0 {
        LessIrreflexive(b[0]);
      }
    }
    LessTotal(a[0], b[0]);
  }

  lemma DescendingTail(s: seq<string>)
    requires Descending(s) && |s| > 0
    ensures Descending(s[1..])
  {
    forall i, j | 0 <= i < j < |s[1..]|
      ensures !Less(s[1..][i], s[1..][j])
    {
      assert s[1..][i] == s[i + 1] && s[1..][j] == s[j + 1];
    }
  }

  /** Sorting a sequence that is already strictly descending leaves it alone. */
  lemma SortStrictlyDescending(s: seq<string>, t: seq<string>)
    requires StrictlyDescending(s)
    requires multiset(t) == multiset(s)
    ensures SortDescending(t) == s
  {
    StrictlyDescendingIsDescending(s);
    DescendingUnique(SortDescending(t), s);
  }

  /* ---------------- str methods ---------------- */

  /** Python's `s.endswith(suffix)`. */
  predicate EndsWith(s: string, suffix: string) {
    |s| >= |suffix| && s[|s| - |suffix|..] == suffix
  }

  /** Python's `s.replace(pat, rep)`: every non-overlapping occurrence of a
      non-empty `pat`, scanning left to right. */
  function ReplaceAll(s: string, pat: string, rep: string): string
    requires |pat| > 0
    decreases |s|
  {
    if |s| < |pat| then s
    else if s[..|pat|] == pat then rep + ReplaceAll(s[|pat|..], pat, rep)
    else [s[0]] + ReplaceAll(s[1..], pat, rep)
  }

  /** When `pat` occurs only as the suffix (no earlier character can start it),
      replacing swaps just that suffix. */
  lemma {:induction false} ReplaceSuffix(a: string, pat: string, rep: string)
    requires |pat| > 0
    requires forall i :: 0 <= i < |a| ==> a[i] != pat[0]
    ensures ReplaceAll(a + pat, pat, rep) == a + rep
  {
    var s := a + pat;
    if |a| == 0 {
      assert s == pat;
      assert s[..|pat|] == pat;
      assert s[|pat|..] == [];
      assert rep + [] == rep;
    } else {
      assert s[..|pat|][0] == a[0];
      assert s[..|pat|] != pat;
      assert s[1..] == a[1..] + pat;
      ReplaceSuffix(a[1..], pat, rep);
      assert a + rep == [a[0]] + (a[1..] + rep);
    }
  }
}
