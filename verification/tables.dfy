/** The few `pandas.DataFrame` operations the report performs, on a table
    kept as a list of column labels and a list of rows. Row labels are the
    default `0, 1, 2, ...` throughout, so rows are matched by position. */
module Tables {
  import opened Wrappers
  import opened Sequences

  /** One cell: the ticker text, or a number, with `NaN` as `None`. */
  datatype Cell = Str(text: string) | Num(amount: Option<real>)

  datatype Table = Table(labels: seq<string>, rows: seq<seq<Cell>>)

  /** Every row has one cell per column. */
  predicate WellFormed(t: Table) {
    forall k :: 0 <= k < |t.rows| ==> |t.rows[k]| == |t.labels|
  }

  /** The position of the first column labelled `l`. */
  function IndexOf(labels: seq<string>, l: string): (i: nat)
    requires l in labels
    ensures i < |labels| && labels[i] == l
    ensures forall j :: 0 <= j < i ==> labels[j] != l
  {
    if labels[0] == l then 0 else 1 + IndexOf(labels[1..], l)
  }

  /** Where labels do not repeat, a label's position is where it was found. */
  lemma IndexOfDistinct(labels: seq<string>, i: int)
    requires Distinct(labels) && 0 <= i < |labels|
    ensures IndexOf(labels, labels[i]) == i
  {
  }

  predicate AllIn(cols: seq<string>, labels: seq<string>) {
    forall k :: 0 <= k < |cols| ==> cols[k] in labels
  }

  /** Columns that rearrange (some of) `labels` are all found there. */
  lemma PermutationAllIn(cols: seq<string>, labels: seq<string>)
    requires multiset(cols) <= multiset(labels)
    ensures AllIn(cols, labels)
  {
    forall k | 0 <= k < |cols|
      ensures cols[k] in labels
    {
      assert cols[k] in multiset(cols);
    }
  }

  lemma AllInTransitive(a: seq<string>, b: seq<string>, c: seq<string>)
    requires AllIn(a, b) && AllIn(b, c)
    ensures AllIn(a, c)
  {
    forall k | 0 <= k < |a|
      ensures a[k] in c
    {
      var i :| 0 <= i < |b| && b[i] == a[k];
    }
  }

  /** One row of `df[cols]`. */
  function SelectRow(labels: seq<string>, row: seq<Cell>, cols: seq<string>): (r: seq<Cell>)
    requires |row| == |labels| && AllIn(cols, labels)
    ensures |r| == |cols|
    ensures forall j :: 0 <= j < |cols| ==> r[j] == row[IndexOf(labels, cols[j])]
  {
    if |cols| == 0 then [] else [row[IndexOf(labels, cols[0])]] + SelectRow(labels, row, cols[1..])
  }

  /** `df[cols]`: the columns named by `cols`, in the order of `cols`; a
      label that occurs more than once in `df` selects its first column. */
  function Select(t: Table, cols: seq<string>): (r: Table)
    requires WellFormed(t) && AllIn(cols, t.labels)
    ensures WellFormed(r) && r.labels == cols && |r.rows| == |t.rows|
    ensures forall k, j :: 0 <= k < |t.rows| && 0 <= j < |cols| ==>
              r.rows[k][j] == t.rows[k][IndexOf(t.labels, cols[j])]
  {
    Table(cols, seq(|t.rows|, k requires 0 <= k < |t.rows| => SelectRow(t.labels, t.rows[k], cols)))
  }

  /** Where labels do not repeat, a selected column is the one its label
      names. */
  lemma SelectDistinct(t: Table, cols: seq<string>, k: int, j: int, m: int)
    requires WellFormed(t) && AllIn(cols, t.labels) && Distinct(t.labels)
    requires 0 <= k < |t.rows| && 0 <= j < |cols| && 0 <= m < |t.labels| && cols[j] == t.labels[m]
    ensures Select(t, cols).rows[k][j] == t.rows[k][m]
  {
    IndexOfDistinct(t.labels, m);
  }

  /** `pd.concat([a, b], axis=1)`: the columns of `a`, then those of `b`. */
  function Concat(a: Table, b: Table): (r: Table)
    requires WellFormed(a) && WellFormed(b) && |a.rows| == |b.rows|
    ensures WellFormed(r) && r.labels == a.labels + b.labels && |r.rows| == |a.rows|
    ensures forall k :: 0 <= k < |a.rows| ==> r.rows[k][..|a.labels|] == a.rows[k]
    ensures forall k :: 0 <= k < |a.rows| ==> r.rows[k][|a.labels|..] == b.rows[k]
  {
    Table(a.labels + b.labels, seq(|a.rows|, k requires 0 <= k < |a.rows| => a.rows[k] + b.rows[k]))
  }

  /** Selecting from a selection is selecting from the original. */
  lemma SelectSelect(t: Table, a: seq<string>, b: seq<string>)
    requires WellFormed(t) && AllIn(a, t.labels) && AllIn(b, a)
    ensures AllIn(b, t.labels)
    ensures Select(Select(t, a), b) == Select(t, b)
  {
    var s := Select(t, a);
    var l, r := Select(s, b), Select(t, b);
    forall k | 0 <= k < |t.rows|
      ensures l.rows[k] == r.rows[k]
    {
      forall j | 0 <= j < |b|
        ensures l.rows[k][j] == r.rows[k][j]
      {
        var i := IndexOf(a, b[j]);
        assert l.rows[k][j] == s.rows[k][i];
      }
    }
  }

  /* ---------------- strides and pairs ---------------- */

  /** `s[0::2]`: every other element, starting with the first. */
  function StepTwo<T>(s: seq<T>): (r: seq<T>)
    ensures |r| == (|s| + 1) / 2
    ensures forall i :: 0 <= i < |r| ==> r[i] == s[2 * i]
  {
    if |s| <= 1 then s else [s[0]] + StepTwo(s[2..])
  }

  /** `[x for idx, _ in enumerate(seconds) for x in [firsts[idx], seconds[idx]]]`
      (line 154); `firsts` must be at least as long, or Python raises
      `IndexError`. */
  function Pairs<T>(firsts: seq<T>, seconds: seq<T>): (r: seq<T>)
    requires |seconds| <= |firsts|
    ensures |r| == 2 * |seconds|
    ensures forall i :: 0 <= i < |seconds| ==> r[2 * i] == firsts[i] && r[2 * i + 1] == seconds[i]
  {
    if |seconds| == 0 then [] else [firsts[0], seconds[0]] + Pairs(firsts[1..], seconds[1..])
  }

  /** Position `p` of a paired list holds element `p / 2` of the first list
      when `p` is even and of the second when it is odd. */
  lemma PairsAt<T>(a: seq<T>, b: seq<T>, p: int) returns (q: nat, first: bool)
    requires |b| <= |a| && 0 <= p < 2 * |b|
    ensures q == p / 2 && first == (p % 2 == 0) && q < |b|
    ensures Pairs(a, b)[p] == if first then a[q] else b[q]
  {
    q, first := p / 2, p % 2 == 0;
    if first {
      assert p == 2 * q;
    } else {
      assert p == 2 * q + 1;
    }
  }

  /** Pairing two lists rearranges their elements. */
  lemma {:induction false} PairsMultiset<T>(a: seq<T>, b: seq<T>)
    requires |a| == |b|
    ensures multiset(Pairs(a, b)) == multiset(a) + multiset(b)
  {
    if |a| > 0 {
      var rest := Pairs(a[1..], b[1..]);
      PairsMultiset(a[1..], b[1..]);
      assert Pairs(a, b) == [a[0], b[0]] + rest;
      MultisetTail(a);
      MultisetTail(b);
      assert multiset([a[0], b[0]] + rest) == multiset{a[0], b[0]} + multiset(rest);
    }
  }

  /** Each neighbouring pair swapped: `[b, a, d, c, ...]` from `[a, b, c, d, ...]`. */
  function SwapPairs<T>(s: seq<T>): (r: seq<T>)
    requires |s| % 2 == 0
    ensures |r| == |s|
    ensures forall x :: x in r ==> x in s
  {
    if |s| == 0 then [] else [s[1], s[0]] + SwapPairs(s[2..])
  }

  /** `s[1::2]` paired with `s[0::2]` swaps the neighbours of `s`. */
  lemma {:induction false} StridesSwap<T>(s: seq<T>)
    requires |s| % 2 == 0
    ensures |StepTwo(s)| == |StepTwo(Drop(s, 1))|
    ensures Pairs(StepTwo(Drop(s, 1)), StepTwo(s)) == SwapPairs(s)
  {
    if |s| > 0 {
      StridesSwap(s[2..]);
      assert StepTwo(s) == [s[0]] + StepTwo(s[2..]);
      assert StepTwo(Drop(s, 1)) == [s[1]] + StepTwo(Drop(s[2..], 1)) by {
        if |s| > 2 {
          assert Drop(s, 1)[2..] == Drop(s[2..], 1);
        }
      }
    }
  }

  lemma {:induction false} SwapPairsTwice<T>(s: seq<T>)
    requires |s| % 2 == 0
    ensures SwapPairs(SwapPairs(s)) == s
  {
    if |s| > 0 {
      SwapPairsTwice(s[2..]);
      assert SwapPairs(s)[2..] == SwapPairs(s[2..]);
      assert s == [s[0], s[1]] + s[2..];
    }
  }

  /** Swapping the neighbours of a paired list pairs the lists the other way round. */
  lemma {:induction false} SwapPairsOfPairs<T>(a: seq<T>, b: seq<T>)
    requires |a| == |b|
    ensures SwapPairs(Pairs(a, b)) == Pairs(b, a)
  {
    if |a| > 0 {
      SwapPairsOfPairs(a[1..], b[1..]);
      assert Pairs(a, b)[2..] == Pairs(a[1..], b[1..]);
    }
  }

  /** The columns of `a` and `b` side by side, then the first two columns of
      `a` followed by each later column of `a` paired with the column of `b`
      at the same position. */
  function PairedLabels(a: Table, b: Table): (r: seq<string>)
    requires |a.labels| == |b.labels| + 2
    ensures AllIn(r, a.labels + b.labels)
  {
    var r := a.labels[..2] + Pairs(a.labels[2..], b.labels);
    assert AllIn(r, a.labels + b.labels) by {
      forall j | 0 <= j < |r|
        ensures r[j] in a.labels + b.labels
      {
        if j < 2 {
          assert r[j] == (a.labels + b.labels)[j];
        } else {
          var q, first := PairsAt(a.labels[2..], b.labels, j - 2);
          if first {
            assert r[j] == (a.labels + b.labels)[2 + q];
          } else {
            assert r[j] == (a.labels + b.labels)[|a.labels| + q];
          }
        }
      }
    }
    r
  }

  /** Pairing rearranges the two sequences without losing or adding any
      element. */
  lemma PairedPermutation<T>(x: seq<T>, y: seq<T>)
    requires |x| == |y| + 2
    ensures multiset(x[..2] + Pairs(x[2..], y)) == multiset(x + y)
  {
    assert x[..2] + x[2..] == x;
    PairsMultiset(x[2..], y);
    ConcatPermutation(x[..2], x[2..], y, Pairs(x[2..], y));
  }

  lemma ConcatPermutation<T>(front: seq<T>, rest: seq<T>, y: seq<T>, p: seq<T>)
    requires multiset(p) == multiset(rest) + multiset(y)
    ensures multiset(front + p) == multiset(front + rest + y)
  {
  }

  /** Where no label repeats, selecting the paired columns from the two
      tables side by side pairs up the cells of each row the same way. */
  lemma SelectPaired(a: Table, b: Table)
    requires WellFormed(a) && WellFormed(b) && |a.rows| == |b.rows|
    requires |a.labels| == |b.labels| + 2 && Distinct(a.labels + b.labels)
    ensures forall k :: 0 <= k < |a.rows| ==>
              Select(Concat(a, b), PairedLabels(a, b)).rows[k] == a.rows[k][..2] + Pairs(a.rows[k][2..], b.rows[k])
  {
    var cols := PairedLabels(a, b);
    var r := Select(Concat(a, b), cols);
    forall k | 0 <= k < |a.rows|
      ensures r.rows[k] == a.rows[k][..2] + Pairs(a.rows[k][2..], b.rows[k])
    {
      forall j | 0 <= j < |cols|
        ensures r.rows[k][j] == (a.rows[k][..2] + Pairs(a.rows[k][2..], b.rows[k]))[j]
      {
        SelectPairedCell(a, b, k, j);
      }
    }
  }

  lemma SelectPairedCell(a: Table, b: Table, k: int, j: int)
    requires WellFormed(a) && WellFormed(b) && |a.rows| == |b.rows|
    requires |a.labels| == |b.labels| + 2 && Distinct(a.labels + b.labels)
    requires 0 <= k < |a.rows| && 0 <= j < |PairedLabels(a, b)|
    ensures Select(Concat(a, b), PairedLabels(a, b)).rows[k][j] == (a.rows[k][..2] + Pairs(a.rows[k][2..], b.rows[k]))[j]
  {
    var m := PairedIndex(j, |a.labels|);
    PairedAt(a.labels, b.labels, j);
    SelectDistinct(Concat(a, b), PairedLabels(a, b), k, j, m);
    assert Concat(a, b).rows[k] == a.rows[k] + b.rows[k];
    PairedAt(a.rows[k], b.rows[k], j);
  }

  /** Where position `j` of `x[:2]` followed by `x[2:]` paired with `y`
      sits in `x + y`. */
  function PairedIndex(j: int, n: int): int {
    if j < 2 then j else if (j - 2) % 2 == 0 then 2 + (j - 2) / 2 else n + (j - 2) / 2
  }

  lemma PairedAt<T>(x: seq<T>, y: seq<T>, j: int)
    requires |x| == |y| + 2 && 0 <= j < |x| + |y|
    ensures 0 <= PairedIndex(j, |x|) < |x| + |y|
    ensures (x[..2] + Pairs(x[2..], y))[j] == (x + y)[PairedIndex(j, |x|)]
  {
    if j < 2 {
      assert (x[..2] + Pairs(x[2..], y))[j] == x[..2][j];
    } else {
      var q, first := PairsAt(x[2..], y, j - 2);
      assert (x[..2] + Pairs(x[2..], y))[j] == Pairs(x[2..], y)[j - 2];
      if first {
        assert PairedIndex(j, |x|) == 2 + q;
        assert x[2..][q] == (x + y)[2 + q];
      } else {
        assert PairedIndex(j, |x|) == |x| + q;
        assert y[q] == (x + y)[|x| + q];
      }
    }
  }
}
