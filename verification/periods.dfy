/** Classification of the period arguments (`30`, `90`, `2y`, ...) into day
    counts and year counts, historical_stock_growth.py lines 42-51, with
    Python's `int()` on strings written out. */
module Periods {
  import opened Wrappers
  import opened Text

  /* ---------------- Python int() on a str ---------------- */

  /** The ASCII white space `int()` skips around the number: the space and
      `\t \n \v \f \r`. (`str.isspace()` also accepts the separators
      0x1C-0x1F, but `int()` does not skip them.) */
  predicate IsSpace(c: char) {
    c == ' ' || 9 <= c as int <= 13
  }

  function TrimStart(s: string): (t: string)
    ensures |t| <= |s|
  {
    if |s| > 0 && IsSpace(s[0]) then TrimStart(s[1..]) else s
  }

  function TrimEnd(s: string): (t: string)
    ensures |t| <= |s|
  {
    if |s| > 0 && IsSpace(s[|s| - 1]) then TrimEnd(s[..|s| - 1]) else s
  }

  function Strip(s: string): string {
    TrimEnd(TrimStart(s))
  }

  /** Decimal digits with single underscores between them, as `int()` accepts. */
  predicate IsDigitPart(s: string) {
    && |s| > 0
    && IsDigit(s[0])
    && IsDigit(s[|s| - 1])
    && (forall i :: 0 <= i < |s| ==> IsDigit(s[i]) || s[i] == '_')
    && (forall i :: 0 <= i < |s| - 1 && s[i] == '_' ==> IsDigit(s[i + 1]))
  }

  /** The digits of a digit part, underscores removed. */
  function Digits(s: string): (d: string)
    requires forall i :: 0 <= i < |s| ==> IsDigit(s[i]) || s[i] == '_'
    ensures AllDigits(d)
  {
    if |s| == 0 then []
    else if s[0] == '_' then Digits(s[1..])
    else [s[0]] + Digits(s[1..])
  }

  /** The most decimal digits `int()` converts
      (`sys.int_info.default_max_str_digits`, Python 3.11 onwards); longer
      digit strings raise `ValueError`. Underscores do not count. */
  const MaxStrDigits := 4300

  /** The number a digit part denotes, or `None` past the digit limit. */
  function DigitPartValue(s: string): Option<nat>
    requires IsDigitPart(s)
  {
    if |Digits(s)| <= MaxStrDigits then Some(Value(Digits(s))) else None
  }

  /** `int(s)` for a `str` argument: `None` where Python raises `ValueError`. */
  function ParseInt(s: string): Option<int> {
    var t := Strip(s);
    if |t| > 0 && (t[0] == '+' || t[0] == '-') then
      var body := t[1..];
      if IsDigitPart(body) then
        match DigitPartValue(body)
        case Some(n) =>
          var v: int := n;
          Some(if t[0] == '-' then -v else v)
        case None => None
      else None
    else if IsDigitPart(t) then DigitPartValue(t)
    else None
  }

  /** `|n|`. */
  function Abs(n: int): nat {
    if n < 0 then -n else n
  }

  /** `str(n)`: the canonical decimal form of an integer. */
  function Show(n: int): string {
    if n < 0 then "-" + ShowNat(-n) else ShowNat(n)
  }

  function ShowNat(n: nat): (s: string)
    ensures |s| > 0 && AllDigits(s)
  {
    if n < 10 then [DigitChar(n)] else ShowNat(n / 10) + [DigitChar(n % 10)]
  }

  lemma {:induction false} ShowNatValue(n: nat)
    ensures Value(ShowNat(n)) == n
    ensures Digits(ShowNat(n)) == ShowNat(n)
  {
    var s := ShowNat(n);
    if n >= 10 {
      ShowNatValue(n / 10);
      assert s[..|s| - 1] == ShowNat(n / 10);
    }
    DigitsOfDigits(s);
  }

  lemma {:induction false} DigitsOfDigits(s: string)
    requires AllDigits(s)
    ensures Digits(s) == s
  {
    if |s| > 0 {
      DigitsOfDigits(s[1..]);
      assert s == [s[0]] + s[1..];
    }
  }

  lemma StripDigits(s: string)
    requires |s| > 0 && AllDigits(s)
    ensures Strip(s) == s
  {
    assert TrimStart(s) == s;
  }

  lemma DigitPartOfDigits(s: string)
    requires |s| > 0 && AllDigits(s)
    ensures IsDigitPart(s)
  {
  }

  /** `int(str(n)) == n` for every integer of at most 4300 digits. */
  lemma ParseShow(n: int)
    requires |ShowNat(Abs(n))| <= MaxStrDigits
    ensures ParseInt(Show(n)) == Some(n)
  {
    if n < 0 {
      ParseShowNegative(n);
    } else {
      var digits := ShowNat(n);
      ShowNatValue(n);
      StripDigits(digits);
      DigitPartOfDigits(digits);
    }
  }

  lemma ParseShowNegative(n: int)
    requires n < 0 && |ShowNat(-n)| <= MaxStrDigits
    ensures ParseInt(Show(n)) == Some(n)
  {
    var digits := ShowNat(-n);
    ShowNatValue(-n);
    DigitPartOfDigits(digits);
    assert DigitPartValue(digits) == Some(-n);
    var s := Show(n);
    assert s[0] == '-' && s[1..] == digits;
    assert s[|s| - 1] == digits[|digits| - 1];
    NoSpaceAtEnds(s);
    ParseMinus(s);
  }

  /** A stripped `-` followed by a digit part is that part's value, negated. */
  lemma ParseMinus(s: string)
    requires |s| > 1 && s[0] == '-' && Strip(s) == s
    requires IsDigitPart(s[1..]) && DigitPartValue(s[1..]).Some?
    ensures ParseInt(s) == Some(-(DigitPartValue(s[1..]).value as int))
  {
  }

  /** `strip()` leaves a string alone that neither starts nor ends in space. */
  lemma NoSpaceAtEnds(s: string)
    requires |s| > 0 && !IsSpace(s[0]) && !IsSpace(s[|s| - 1])
    ensures Strip(s) == s
  {
    assert TrimStart(s) == s;
  }

  /** A string holding any character that cannot occur in an integer
      literal (a letter, say) is rejected. */
  lemma ParseRejectsStrayCharacter(s: string, i: int)
    requires 0 <= i < |s|
    requires !(IsDigit(s[i]) || IsSpace(s[i]) || s[i] == '+' || s[i] == '-' || s[i] == '_')
    ensures ParseInt(s) == None
  {
    var a := TrimStart(s);
    var k := i - (|s| - |a|);
    TrimStartSuffix(s);
    TrimStartRemovesSpaces(s);
    assert 0 <= k < |a| && a[k] == s[i];
    var t := TrimEnd(a);
    TrimEndPrefix(a);
    assert k < |t| by {
      if k >= |t| {
        TrimEndRemovesSpaces(a);
      }
    }
    assert t[k] == s[i];
    if |t| > 0 && (t[0] == '+' || t[0] == '-') {
      assert k > 0;
      assert t[1..][k - 1] == s[i];
    }
  }

  /** A count of more than 4300 digits is rejected, however it is written. */
  lemma ParseRejectsLongCount(s: string)
    requires |s| > MaxStrDigits && AllDigits(s)
    ensures ParseInt(s) == None
  {
    StripDigits(s);
    DigitsOfDigits(s);
  }

  lemma {:induction false} TrimStartSuffix(s: string)
    ensures TrimStart(s) == s[|s| - |TrimStart(s)|..]
  {
    if |s| > 0 && IsSpace(s[0]) {
      TrimStartSuffix(s[1..]);
    }
  }

  lemma {:induction false} TrimStartRemovesSpaces(s: string)
    ensures forall j :: 0 <= j < |s| - |TrimStart(s)| ==> IsSpace(s[j])
  {
    if |s| > 0 && IsSpace(s[0]) {
      TrimStartRemovesSpaces(s[1..]);
      forall j | 1 <= j < |s| - |TrimStart(s)|
        ensures IsSpace(s[j])
      {
        assert s[j] == s[1..][j - 1];
      }
    }
  }

  lemma {:induction false} TrimEndPrefix(s: string)
    ensures TrimEnd(s) == s[..|TrimEnd(s)|]
  {
    if |s| > 0 && IsSpace(s[|s| - 1]) {
      TrimEndPrefix(s[..|s| - 1]);
    }
  }

  lemma {:induction false} TrimEndRemovesSpaces(s: string)
    ensures forall j :: |TrimEnd(s)| <= j < |s| ==> IsSpace(s[j])
  {
    if |s| > 0 && IsSpace(s[|s| - 1]) {
      TrimEndRemovesSpaces(s[..|s| - 1]);
    }
  }

  /* ---------------- period arguments ---------------- */

  /** A look-back distance: `N` days or `N` calendar years. */
  datatype Period = Days(count: int) | Years(count: int)

  /** One period argument: a trailing `y` makes it a year count, anything
      else is a day count; `None` where `int()` raises. */
  function ParsePeriod(arg: string): (r: Option<Period>)
    ensures r.Some? ==> (r.value.Years? <==> EndsWith(arg, "y"))
  {
    if EndsWith(arg, "y") then
      match ParseInt(arg[..|arg| - 1])
      case Some(n) => Some(Years(n))
      case None => None
    else
      match ParseInt(arg)
      case Some(n) => Some(Days(n))
      case None => None
  }

  /** How a period is written on the command line. */
  function ShowPeriod(p: Period): string {
    match p
    case Days(n) => Show(n)
    case Years(n) => Show(n) + "y"
  }

  lemma ParsePeriodShow(p: Period)
    requires |ShowNat(Abs(p.count))| <= MaxStrDigits
    ensures ParsePeriod(ShowPeriod(p)) == Some(p)
  {
    ParseShow(p.count);
    var s := Show(p.count);
    var m := Abs(p.count);
    assert s[|s| - 1] == ShowNat(m)[|ShowNat(m)| - 1];
    assert !EndsWith(s, "y");
    if p.Years? {
      assert (s + "y")[..|s + "y"| - 1] == s;
    }
  }

  datatype PeriodLists = PeriodLists(years: seq<int>, days: seq<int>)

  datatype ArgError = MissingPeriods | InvalidPeriod(arg: string)

  /** Prepending a valid period to the lists puts its count at the front of
      the list it belongs to. */
  function Push(p: Period, lists: PeriodLists): PeriodLists {
    if p.Years? then PeriodLists([p.count] + lists.years, lists.days)
    else PeriodLists(lists.years, [p.count] + lists.days)
  }

  /** Every argument classified on its own. */
  function ParseEach(args: seq<string>): (ps: seq<Option<Period>>)
    ensures |ps| == |args|
    ensures forall i :: 0 <= i < |args| ==> ps[i] == ParsePeriod(args[i])
  {
    if |args| == 0 then [] else [ParsePeriod(args[0])] + ParseEach(args[1..])
  }

  /** `arg`, at position `i`, is the first argument whose classification failed. */
  predicate FirstInvalid(args: seq<string>, ps: seq<Option<Period>>, arg: string)
    requires |ps| == |args|
  {
    exists i :: 0 <= i < |args| && args[i] == arg && ps[i].None?
                && forall j :: 0 <= j < i ==> ps[j].Some?
  }

  /** The list building of the loop at lines 42-51, over arguments already
      classified: the first failure ends the run, otherwise each count is
      appended to its list. */
  function Gather(args: seq<string>, ps: seq<Option<Period>>): (r: Result<PeriodLists, ArgError>)
    requires |ps| == |args|
    ensures r.Ok? <==> forall i :: 0 <= i < |ps| ==> ps[i].Some?
    ensures r.Ok? ==> |r.value.years| + |r.value.days| == |args|
    ensures r.Err? ==> r.error.InvalidPeriod? && FirstInvalid(args, ps, r.error.arg)
  {
    if |args| == 0 then Ok(PeriodLists([], []))
    else
      match ps[0]
      case None => Err(InvalidPeriod(args[0]))
      case Some(p) =>
        var rest := Gather(args[1..], ps[1..]);
        if rest.Err? then rest else Ok(Push(p, rest.value))
  }

  lemma {:induction false} GatherAppend(a: seq<string>, pa: seq<Option<Period>>,
                                        b: seq<string>, pb: seq<Option<Period>>)
    requires |pa| == |a| && |pb| == |b|
    requires Gather(a, pa).Ok? && Gather(b, pb).Ok?
    ensures Gather(a + b, pa + pb) == Ok(Join(Gather(a, pa).value, Gather(b, pb).value))
  {
    var rb := Gather(b, pb).value;
    if |a| > 0 {
      assert (a + b)[1..] == a[1..] + b && (pa + pb)[1..] == pa[1..] + pb;
      assert (pa + pb)[0] == pa[0];
      GatherAppend(a[1..], pa[1..], b, pb);
      GatherCons(a, pa);
      GatherCons(a + b, pa + pb);
      PushJoin(pa[0].value, Gather(a[1..], pa[1..]).value, rb);
    } else {
      assert a + b == b && pa + pb == pb;
      assert [] + rb.years == rb.years && [] + rb.days == rb.days;
    }
  }

  /** The two lists of `x` followed by the two lists of `y`. */
  function Join(x: PeriodLists, y: PeriodLists): PeriodLists {
    PeriodLists(x.years + y.years, x.days + y.days)
  }

  lemma GatherCons(args: seq<string>, ps: seq<Option<Period>>)
    requires |ps| == |args| && |args| > 0
    requires ps[0].Some? && Gather(args[1..], ps[1..]).Ok?
    ensures Gather(args, ps) == Ok(Push(ps[0].value, Gather(args[1..], ps[1..]).value))
  {
  }

  lemma PushJoin(p: Period, x: PeriodLists, y: PeriodLists)
    ensures Push(p, Join(x, y)) == Join(Push(p, x), y)
  {
    if p.Years? {
      assert [p.count] + (x.years + y.years) == ([p.count] + x.years) + y.years;
    } else {
      assert [p.count] + (x.days + y.days) == ([p.count] + x.days) + y.days;
    }
  }

  /** The loop at lines 42-51: every argument lands in exactly one of the two
      lists, in command-line order; the first argument `int()` rejects ends
      the run with its text. */
  function ParsePeriods(args: seq<string>): (r: Result<PeriodLists, ArgError>)
    ensures r.Ok? <==> forall i :: 0 <= i < |args| ==> ParsePeriod(args[i]).Some?
    ensures r.Ok? ==> |r.value.years| + |r.value.days| == |args|
    ensures r.Err? ==> exists i :: 0 <= i < |args| && r.error == InvalidPeriod(args[i])
                                   && ParsePeriod(args[i]).None?
                                   && forall j :: 0 <= j < i ==> ParsePeriod(args[j]).Some?
  {
    Gather(args, ParseEach(args))
  }

  /** A single argument goes to the list its suffix selects. */
  lemma ParsePeriodsSingle(arg: string)
    ensures ParsePeriod(arg) == None ==> ParsePeriods([arg]) == Err(InvalidPeriod(arg))
    ensures ParsePeriod(arg).Some? && EndsWith(arg, "y") ==>
      ParsePeriods([arg]) == Ok(PeriodLists([ParsePeriod(arg).value.count], []))
    ensures ParsePeriod(arg).Some? && !EndsWith(arg, "y") ==>
      ParsePeriods([arg]) == Ok(PeriodLists([], [ParsePeriod(arg).value.count]))
  {
    var ps := ParseEach([arg]);
    assert ps == [ParsePeriod(arg)];
    assert [arg][1..] == [] && ps[1..] == [];
    assert Gather([arg][1..], ps[1..]) == Ok(PeriodLists([], []));
    if ParsePeriod(arg).Some? {
      var n := ParsePeriod(arg).value.count;
      assert [n] + [] == [n];
    }
  }

  /** Classification distributes over concatenation of the argument list, so
      each list keeps the arguments' command-line order. */
  lemma ParsePeriodsAppend(a: seq<string>, b: seq<string>)
    requires ParsePeriods(a).Ok? && ParsePeriods(b).Ok?
    ensures ParsePeriods(a + b) == Ok(Join(ParsePeriods(a).value, ParsePeriods(b).value))
  {
    ParseEachAppend(a, b);
    GatherAppend(a, ParseEach(a), b, ParseEach(b));
  }

  /** Every argument's count lands in the list its suffix selects. */
  lemma ParsePeriodsMember(args: seq<string>, i: int)
    requires ParsePeriods(args).Ok? && 0 <= i < |args|
    ensures ParsePeriod(args[i]).Some?
    ensures EndsWith(args[i], "y") ==> ParsePeriod(args[i]).value.count in ParsePeriods(args).value.years
    ensures !EndsWith(args[i], "y") ==> ParsePeriod(args[i]).value.count in ParsePeriods(args).value.days
  {
    var a, m, b := args[..i], [args[i]], args[i + 1..];
    assert args == (a + m) + b;
    assert ParsePeriods(a).Ok? by {
      forall j | 0 <= j < |a|
        ensures ParsePeriod(a[j]).Some?
      {
        assert a[j] == args[j];
      }
    }
    assert ParsePeriods(b).Ok? by {
      forall j | 0 <= j < |b|
        ensures ParsePeriod(b[j]).Some?
      {
        assert b[j] == args[i + 1 + j];
      }
    }
    ParsePeriodsSingle(args[i]);
    ParsePeriodsAppend(a, m);
    ParsePeriodsAppend(a + m, b);
  }

  lemma {:induction false} ParseEachAppend(a: seq<string>, b: seq<string>)
    ensures ParseEach(a + b) == ParseEach(a) + ParseEach(b)
  {
    if |a| == 0 {
      assert a + b == b;
    } else {
      assert (a + b)[0] == a[0] && (a + b)[1..] == a[1..] + b;
      ParseEachAppend(a[1..], b);
    }
  }
}
