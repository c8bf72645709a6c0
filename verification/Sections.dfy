/** The row order of the requirement tables (spec/markdown.go). Numbers are Go's 64-bit `int`. */
module Sections {
  import opened GoStrings

  datatype Requirement = Requirement(spec: string, section: string)

  /** strings.Split at '.'. */
  function Split(s: string): (parts: seq<string>)
    ensures parts != []
    decreases |s|
  {
    var i := Index(s, '.');
    if i < 0 then [s] else [s[..i]] + Split(s[i + 1..])
  }

  predicate Numeric(s: string) { s != "" && AllDigits(s) }

  // ----- 64-bit integers -----

  const TWO_63 := 0x8000_0000_0000_0000
  const TWO_64 := 0x1_0000_0000_0000_0000

  /** The 64-bit two's complement number that an integer wraps around to. */
  function Wrap(n: int): int {
    var m := n % TWO_64;
    if m < TWO_63 then m else m - TWO_64
  }

  lemma WrapShifts(n: int, k: int)
    ensures Wrap(n + k * TWO_64) == Wrap(n)
  {
  }

  /** Wrapping at every digit comes to the same as wrapping once. */
  lemma WrapDigit(n: int, d: int)
    ensures Wrap(Wrap(n) * 10 + d) == Wrap(n * 10 + d)
  {
    var k := if n % TWO_64 < TWO_63 then n / TWO_64 else n / TWO_64 + 1;
    assert n == Wrap(n) + k * TWO_64;
    WrapShifts(Wrap(n) * 10 + d, k * 10);
  }

  /** The number that a digit string is parsed to. */
  function Parsed(s: string): int
    requires AllDigits(s)
  {
    Wrap(DecValue(s))
  }

  // ----- the order -----

  function PartCompare(x: string, y: string): (r: int)
    ensures -1 <= r <= 1
  {
    if Numeric(x) && Numeric(y) then (if Parsed(x) < Parsed(y) then -1 else if Parsed(x) > Parsed(y) then 1 else 0)
    else Compare(x, y)
  }

  function PartsCompare(xs: seq<string>, ys: seq<string>): (r: int)
  {
    if xs == [] || ys == [] then |xs| - |ys|
    else
      var c := PartCompare(xs[0], ys[0]);
      if c != 0 then c else PartsCompare(xs[1..], ys[1..])
  }

  function RowOrder(a: Requirement, b: Requirement): (r: int)
  {
    if a.spec != b.spec then Compare(a.spec, b.spec)
    else PartsCompare(Split(a.section), Split(b.section))
  }

  // ----- the code -----

  /** Parses a digit string to its value, wrapped around where that does not fit 64 bits. */
  method ParseNum(s: string) returns (ok: bool, n: int)
    ensures ok <==> Numeric(s)
    ensures ok ==> n == Parsed(s) && (n == DecValue(s) <==> DecValue(s) < TWO_63)
  {
    n := 0;
    if |s| == 0 {
      return false, 0;
    }
    for i := 0 to |s|
      invariant AllDigits(s[..i]) && n == Parsed(s[..i])
    {
      if s[i] < '0' || s[i] > '9' {
        return false, 0;
      }
      n := Wrap(n * 10 + (s[i] as int - '0' as int));
      assert s[..i + 1][..i] == s[..i];
      WrapDigit(DecValue(s[..i]), s[i] as int - '0' as int);
    }
    assert s[..|s|] == s;
    ok := true;
  }

  method SectionCompare(a: string, b: string) returns (r: int)
    ensures r == PartsCompare(Split(a), Split(b))
  {
    var xs, ys := Split(a), Split(b);
    var i := 0;
    while i < |xs| && i < |ys|
      invariant 0 <= i <= |xs| && i <= |ys|
      invariant PartsCompare(xs, ys) == PartsCompare(xs[i..], ys[i..])
    {
      var aNum, an := ParseNum(xs[i]);
      var bNum, bn := ParseNum(ys[i]);
      if aNum && bNum {
        if an != bn {
          return if an < bn then -1 else 1;
        }
      } else {
        var c := Compare(xs[i], ys[i]);
        if c != 0 {
          return c;
        }
      }
      assert xs[i..][1..] == xs[i + 1..] && ys[i..][1..] == ys[i + 1..];
      i := i + 1;
    }
    r := |xs| - |ys|;
  }

  // ----- which components order well -----

  /** A run of '9's, possibly empty, and then a byte above '9': such a text is above every number. */
  ghost predicate High(c: string) {
    exists k :: 0 <= k < |c| && c[k] > '9' && forall i :: 0 <= i < k ==> c[i] == '9'
  }

  /** Below every number: empty, or beginning below '0'. */
  predicate Low(c: string) { c == "" || c[0] < '0' }

  /** Components that sit consistently among the numbers. */
  ghost predicate Safe(c: string) { Low(c) || Numeric(c) || High(c) }

  lemma {:induction false} NumberBelowHigh(n: string, c: string)
    requires AllDigits(n) && High(c)
    ensures Compare(n, c) == -1
  {
    var k :| 0 <= k < |c| && c[k] > '9' && forall i :: 0 <= i < k ==> c[i] == '9';
    if n != [] && k > 0 && n[0] == '9' {
      assert c[1..][k - 1] > '9' && forall i :: 0 <= i < k - 1 ==> c[1..][i] == '9';
      NumberBelowHigh(n[1..], c[1..]);
    }
  }

  lemma PartFlips(x: string, y: string)
    ensures PartCompare(x, y) == -PartCompare(y, x)
  {
    CompareFlips(x, y);
  }

  lemma PartPlaced(n: string, c: string)
    requires Numeric(n) && Safe(c) && !Numeric(c)
    ensures PartCompare(n, c) == if Low(c) then 1 else -1
    ensures PartCompare(c, n) == if Low(c) then -1 else 1
  {
    CompareFlips(n, c);
    if !Low(c) { NumberBelowHigh(n, c); }
  }

  lemma PartTransitive(x: string, y: string, z: string)
    requires Safe(x) && Safe(y) && Safe(z)
    requires PartCompare(x, y) <= 0 && PartCompare(y, z) <= 0
    ensures PartCompare(x, z) <= 0
  {
    match (Numeric(x), Numeric(y), Numeric(z))
    case (true, true, true) =>
    case (true, true, false) => PartPlaced(x, z); PartPlaced(y, z);
    case (true, false, true) => PartPlaced(x, y); PartPlaced(z, y);
    case (false, true, true) => PartPlaced(y, x); PartPlaced(z, x);
    case (true, false, false) => PartPlaced(x, y); PartPlaced(x, z); LowBelowHigh(y, z);
    case (false, true, false) => PartPlaced(y, x); PartPlaced(y, z); LowBelowHigh(x, z);
    case (false, false, true) => PartPlaced(z, x); PartPlaced(z, y); LowBelowHigh(x, y);
    case (false, false, false) => CompareTransitive(x, y, z);
  }

  lemma LowBelowHigh(x: string, y: string)
    requires Safe(x) && Safe(y) && !Numeric(x) && !Numeric(y)
    ensures Low(x) && !Low(y) ==> Compare(x, y) == -1
    ensures !Low(x) && Low(y) ==> Compare(x, y) == 1
  {
  }

  // ----- total preorder -----

  ghost predicate SafeParts(xs: seq<string>) { forall i :: 0 <= i < |xs| ==> Safe(xs[i]) }

  lemma {:induction false} PartsFlip(xs: seq<string>, ys: seq<string>)
    ensures PartsCompare(xs, ys) == -PartsCompare(ys, xs)
  {
    if xs != [] && ys != [] {
      PartFlips(xs[0], ys[0]);
      PartsFlip(xs[1..], ys[1..]);
    }
  }

  lemma {:induction false} PartsTransitive(xs: seq<string>, ys: seq<string>, zs: seq<string>)
    requires SafeParts(xs) && SafeParts(ys) && SafeParts(zs)
    requires PartsCompare(xs, ys) <= 0 && PartsCompare(ys, zs) <= 0
    ensures PartsCompare(xs, zs) <= 0
  {
    if xs != [] && ys != [] && zs != [] {
      var x, y, z := xs[0], ys[0], zs[0];
      PartTransitive(x, y, z);
      PartFlips(x, y);
      PartFlips(y, z);
      PartFlips(x, z);
      if PartCompare(x, z) == 0 {
        PartTransitive(z, x, y);
        PartTransitive(y, z, x);
        PartsTransitive(xs[1..], ys[1..], zs[1..]);
      }
    }
  }

  /** On requirements whose section components are safe, the row order is a total preorder:
      reflexive, total and transitive. */
  lemma RowOrderIsPreorder(a: Requirement, b: Requirement, c: Requirement)
    requires SafeParts(Split(a.section)) && SafeParts(Split(b.section)) && SafeParts(Split(c.section))
    ensures RowOrder(a, a) == 0
    ensures RowOrder(a, b) <= 0 || RowOrder(b, a) <= 0
    ensures RowOrder(a, b) <= 0 && RowOrder(b, c) <= 0 ==> RowOrder(a, c) <= 0
  {
    PartsFlip(Split(a.section), Split(a.section));
    PartsFlip(Split(a.section), Split(b.section));
    CompareFlips(a.spec, b.spec);
    CompareFlips(b.spec, c.spec);
    CompareIsZero(a.spec, b.spec);
    CompareIsZero(b.spec, c.spec);
    if RowOrder(a, b) <= 0 && RowOrder(b, c) <= 0 {
      if a.spec == b.spec == c.spec {
        PartsTransitive(Split(a.section), Split(b.section), Split(c.section));
      } else {
        CompareTransitive(a.spec, b.spec, c.spec);
        if a.spec == c.spec { CompareFlips(a.spec, b.spec); }
      }
    }
  }

  // ----- what comes before what -----

  lemma IndexJoined(a: string, b: string)
    ensures Index(a + "." + b, '.') == if Index(a, '.') < 0 then |a| else Index(a, '.')
  {
    var s, i := a + "." + b, Index(a, '.');
    assert s[|a|] == '.' && forall j :: 0 <= j < |a| ==> s[j] == a[j];
  }

  /** Splitting at dots: what is joined by one comes apart there. */
  lemma {:induction false} SplitJoined(a: string, b: string)
    ensures Split(a + "." + b) == Split(a) + Split(b)
    decreases |a|
  {
    var s, i := a + "." + b, Index(a, '.');
    IndexJoined(a, b);
    if i < 0 {
      assert s[..|a|] == a && s[|a| + 1..] == b;
    } else {
      assert s[..i] == a[..i] && s[i + 1..] == a[i + 1..] + "." + b;
      SplitJoined(a[i + 1..], b);
    }
  }

  lemma {:induction false} SamePrefix(xs: seq<string>, ys: seq<string>, zs: seq<string>)
    ensures PartsCompare(xs + ys, xs + zs) == PartsCompare(ys, zs)
  {
    if xs == [] {
      assert xs + ys == ys && xs + zs == zs;
    } else {
      CompareIsZero(xs[0], xs[0]);
      SamePrefix(xs[1..], ys, zs);
      assert (xs + ys)[1..] == xs[1..] + ys && (xs + zs)[1..] == xs[1..] + zs;
    }
  }

  /** A section comes before its subsections. */
  lemma SubsectionsFollow(spec: string, section: string, rest: string)
    ensures RowOrder(Requirement(spec, section), Requirement(spec, section + "." + rest)) < 0
  {
    SplitJoined(section, rest);
    assert Split(section) == Split(section) + [];
    SamePrefix(Split(section), [], Split(rest));
  }

  /** Siblings with numbers that fit are in order of these. */
  lemma SiblingsByNumber(spec: string, parent: string, x: string, y: string)
    requires Numeric(x) && Numeric(y) && DecValue(x) < TWO_63 && DecValue(y) < TWO_63
    ensures RowOrder(Requirement(spec, parent + "." + x), Requirement(spec, parent + "." + y)) < 0
            <==> DecValue(x) < DecValue(y)
  {
    assert '.' !in x && '.' !in y;
    SiblingsApart(spec, parent, x, y);
    NumbersInOrder(x, y);
  }

  lemma NumbersInOrder(x: string, y: string)
    requires Numeric(x) && Numeric(y) && DecValue(x) < TWO_63 && DecValue(y) < TWO_63
    ensures PartCompare(x, y) < 0 <==> DecValue(x) < DecValue(y)
  {
  }

  /** Other siblings are in order of their bytes. */
  lemma SiblingsByText(spec: string, parent: string, x: string, y: string)
    requires '.' !in x && '.' !in y && !(Numeric(x) && Numeric(y))
    ensures RowOrder(Requirement(spec, parent + "." + x), Requirement(spec, parent + "." + y)) < 0
            <==> Compare(x, y) < 0
  {
    SiblingsApart(spec, parent, x, y);
  }

  lemma SiblingsApart(spec: string, parent: string, x: string, y: string)
    requires '.' !in x && '.' !in y
    ensures var r := RowOrder(Requirement(spec, parent + "." + x), Requirement(spec, parent + "." + y));
            r < 0 <==> PartCompare(x, y) < 0
  {
    SplitJoined(parent, x);
    SplitJoined(parent, y);
    assert Split(x) == [x] && Split(y) == [y];
    SamePrefix(Split(parent), [x], [y]);
    assert PartsCompare([x][1..], [y][1..]) == 0;
  }

  /** Requirements of different documents are in order of the documents. */
  lemma DocumentsFirst(a: Requirement, b: Requirement)
    requires a.spec != b.spec
    ensures RowOrder(a, b) < 0 <==> Compare(a.spec, b.spec) < 0
  {
  }

  // ----- the restriction is exact -----

  function Pow10(n: nat): nat { if n == 0 then 1 else 10 * Pow10(n - 1) }

  lemma {:induction false} Pow10Sum(a: nat, b: nat)
    ensures Pow10(a + b) == Pow10(a) * Pow10(b)
  {
    if a > 0 {
      Pow10Sum(a - 1, b);
      Associate(10, Pow10(a - 1), Pow10(b));
    }
  }

  lemma Associate(x: nat, y: nat, z: nat)
    ensures x * (y * z) == (x * y) * z
  {
  }

  /** The 64th power of five, with which 2^64 makes 10^64. */
  const FIVE_64 := 542101086242752217003726400434970855712890625

  lemma Pow10At64()
    ensures Pow10(64) == FIVE_64 * TWO_64
  {
    assert Pow10(1) == 10;
    Pow10Sum(1, 1);
    Pow10Sum(2, 2);
    Pow10Sum(4, 4);
    Pow10Sum(8, 8);
    Pow10Sum(16, 16);
    Pow10Sum(32, 32);
  }

  lemma {:induction false} ValueOfConcat(a: string, b: string)
    requires AllDigits(a) && AllDigits(b)
    ensures AllDigits(a + b) && DecValue(a + b) == DecValue(a) * Pow10(|b|) + DecValue(b)
  {
    if b == [] {
      assert a + b == a;
    } else {
      var n := |b| - 1;
      ValueOfConcat(a, b[..n]);
      assert (a + b)[..|a + b| - 1] == a + b[..n] && (a + b)[|a + b| - 1] == b[n];
      Associate(DecValue(a), Pow10(n), 10);
    }
  }

  lemma ValueOfTail(a: string, b: string)
    requires AllDigits(a) && AllDigits(b) && DecValue(a) == 0
    ensures AllDigits(a + b) && DecValue(a + b) == DecValue(b)
  {
    ValueOfConcat(a, b);
  }

  /** Digits in front of 64 others are lost. */
  lemma FrontIsLost(a: string, b: string)
    requires AllDigits(a) && AllDigits(b) && |b| >= 64
    ensures AllDigits(a + b) && Parsed(a + b) == Parsed(b)
  {
    ValueOfConcat(a, b);
    Pow10Sum(|b| - 64, 64);
    Pow10At64();
    Associate(DecValue(a), Pow10(|b| - 64), Pow10(64));
    Associate(DecValue(a) * Pow10(|b| - 64), FIVE_64, TWO_64);
    WrapShifts(DecValue(b), DecValue(a) * Pow10(|b| - 64) * FIVE_64);
  }

  /** 64 zeros. */
  function Zeros(): (z: string)
    ensures |z| == 64 && forall i :: 0 <= i < |z| ==> z[i] == '0'
  {
    seq(64, _ => '0')
  }

  lemma {:induction false} ValueOfZeros(a: string)
    requires forall i :: 0 <= i < |a| ==> a[i] == '0'
    ensures AllDigits(a) && DecValue(a) == 0
  {
    if a != [] { ValueOfZeros(a[..|a| - 1]); }
  }

  /** The length of the longest prefix of `s` made of `c`. */
  function Run(s: string, c: char): (k: nat)
    ensures k <= |s| && (forall i :: 0 <= i < k ==> s[i] == c) && (k < |s| ==> s[k] != c)
  {
    if s == [] || s[0] != c then 0 else 1 + Run(s[1..], c)
  }

  function DigitRun(s: string): (k: nat)
    ensures k <= |s| && (forall i :: 0 <= i < k ==> IsDigit(s[i])) && (k < |s| ==> !IsDigit(s[k]))
  {
    if s == [] || !IsDigit(s[0]) then 0 else 1 + DigitRun(s[1..])
  }

  /** Numbers `x` and `y` that `c` contradicts: x is not above y, y is below c, and c is below x. */
  ghost predicate Breaks(c: string, x: string, y: string) {
    && Numeric(x) && Numeric(y)
    && PartCompare(x, y) <= 0 && PartCompare(y, c) < 0 && PartCompare(c, x) < 0
  }

  /** Digits, the first `k` of them '9' and the next one not, before a byte above '9'. */
  lemma BreaksAbove(c: string, d: nat, k: nat) returns (x: string, y: string)
    requires k < d < |c| && AllDigits(c[..d]) && c[d] > '9' && c[k] < '9'
    ensures Breaks(c, x, y)
  {
    var p := c[..d];
    x := c[..k] + "9";
    y := p + (Zeros() + x);
    assert c[..k] == p[..k];
    ValueOfZeros(Zeros());
    ValueOfTail(Zeros(), x);
    FrontIsLost(p, Zeros() + x);
    assert y[..d] == p && y[d] == '0';
    CompareAt(y, c, d);
    assert x[..k] == c[..k];
    CompareAt(c, x, k);
    assert !IsDigit(c[d]);
  }

  /** Digits, the first `j` of them '0' and the next one, if any, not, before a byte below '0'. */
  lemma BreaksBelow(c: string, d: nat, j: nat) returns (x: string, y: string)
    requires 0 < d < |c| && AllDigits(c[..d]) && c[d] < '0'
    requires j <= d && (forall i :: 0 <= i < j ==> c[i] == '0') && (j < d ==> c[j] > '0')
    ensures Breaks(c, x, y)
  {
    var p := c[..d];
    x := p + "0";
    assert x[..d] == p;
    CompareAt(c, x, d);
    assert !IsDigit(c[d]);
    if j == d {
      y := p;
      ValueOfZeros(x);
      ValueOfZeros(y);
      CompareAt(y, c, d);
    } else {
      var zeros := c[..j] + "0";
      y := zeros + x;
      ValueOfZeros(zeros);
      ValueOfTail(zeros, x);
      assert y[..j] == c[..j];
      CompareAt(y, c, j);
    }
  }

  /** A component that is not safe is above one number and below a smaller or equal one. */
  lemma UnsafeBreaks(c: string) returns (x: string, y: string)
    requires !Safe(c)
    ensures Breaks(c, x, y)
  {
    var d, k := DigitRun(c), Run(c, '9');
    if c[d] > '9' {
      x, y := BreaksAbove(c, d, k);
    } else {
      var j := Run(c[..d], '0');
      assert forall i :: 0 <= i < d ==> c[i] == c[..d][i];
      x, y := BreaksBelow(c, d, j);
    }
  }

  /** Safe components are exactly those that break the order of no two numbers. */
  lemma SafeExactly(c: string)
    ensures Safe(c) <==> !exists x, y :: Breaks(c, x, y)
  {
    if Safe(c) {
      forall x, y | Breaks(c, x, y) ensures false {
        PartTransitive(x, y, c);
        PartFlips(c, x);
      }
    } else {
      var x, y := UnsafeBreaks(c);
    }
  }

  /** The smallest cycle: 9 is before 10, 10 before 1a, and 1a before 9. */
  lemma NineTenOneA()
    ensures var row := (section: string) => Requirement("RFC 1", section);
            && RowOrder(row("9"), row("10")) < 0
            && RowOrder(row("10"), row("1a")) < 0
            && RowOrder(row("1a"), row("9")) < 0
  {
    assert DecValue("9") == 9;
    assert DecValue("10") == 10 by { assert "10"[..1] == "1" && DecValue("1") == 1; }
    assert "1a"[1] == 'a';
    assert !AllDigits("1a");
    assert Compare("10", "1a") == -1 by { CompareAt("10", "1a", 1); }
    assert Compare("1a", "9") == -1 by { CompareAt("1a", "9", 0); }
    assert Split("9") == ["9"] && Split("10") == ["10"] && Split("1a") == ["1a"];
  }
}
