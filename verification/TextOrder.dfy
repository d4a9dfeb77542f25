/** The order in which SQLite's BINARY collation and Go's sort.Strings compare texts, and the
    fixed-width decimal fields from which every stored date and file name is assembled. */
module TextOrder {
  import opened Wrappers

  predicate Less(a: string, b: string) {
    b != [] && (a == [] || a[0] < b[0] || (a[0] == b[0] && Less(a[1..], b[1..])))
  }

  predicate AtMost(a: string, b: string) {
    a == b || Less(a, b)
  }

  lemma {:induction false} LessIsIrreflexive(a: string)
    ensures !Less(a, a)
  {
    if a != [] {
      LessIsIrreflexive(a[1..]);
    }
  }

  lemma {:induction false} LessIsTransitive(a: string, b: string, c: string)
    requires Less(a, b) && Less(b, c)
    ensures Less(a, c)
  {
    if a != [] && a[0] == b[0] == c[0] {
      LessIsTransitive(a[1..], b[1..], c[1..]);
    }
  }

  lemma {:induction false} LessIsTotal(a: string, b: string)
    ensures Less(a, b) || a == b || Less(b, a)
  {
    if a != [] && b != [] && a[0] == b[0] {
      LessIsTotal(a[1..], b[1..]);
      assert a == [a[0]] + a[1..] && b == [b[0]] + b[1..];
    }
  }

  /** Texts with equally long first parts compare by those parts first. */
  lemma {:induction false} LessByParts(a: string, b: string, x: string, y: string)
    requires |a| == |b|
    ensures Less(a + x, b + y) <==> Less(a, b) || (a == b && Less(x, y))
  {
    if a == [] {
      assert a + x == x && b + y == y;
    } else {
      assert (a + x)[1..] == a[1..] + x && (b + y)[1..] == b[1..] + y;
      LessByParts(a[1..], b[1..], x, y);
      assert a == [a[0]] + a[1..] && b == [b[0]] + b[1..];
      if a[0] == b[0] {
        assert a == b <==> a[1..] == b[1..];
      }
    }
  }

  /** A shared first part does not affect the comparison. */
  lemma LessAfterSeparator(c: string, x: string, y: string)
    ensures Less(c + x, c + y) <==> Less(x, y)
  {
    LessByParts(c, c, x, y);
    LessIsIrreflexive(c);
  }

  /** The first character that differs decides, and a text precedes its own continuations. */
  lemma {:induction false} LessIsLexicographic(a: string, b: string)
    ensures Less(a, b) <==>
            exists k: nat :: k <= |a| && k < |b| && a[..k] == b[..k] && (k == |a| || a[k] < b[k])
  {
    forall k: nat | 0 < k <= |a| && k <= |b| && a[..k] == b[..k]
      ensures a[0] == b[0]
    {
      assert a[0] == a[..k][0] && b[0] == b[..k][0];
    }
    if a != [] && b != [] && a[0] == b[0] {
      var (x, y) := (a[1..], b[1..]);
      LessIsLexicographic(x, y);
      if k: nat :| k <= |x| && k < |y| && x[..k] == y[..k] && (k == |x| || x[k] < y[k]) {
        var n := k + 1;
        assert a[..n] == [a[0]] + x[..k] && b[..n] == [b[0]] + y[..k];
        assert n <= |a| && n < |b| && a[..n] == b[..n] && (n == |a| || a[n] < b[n]);
      }
      if n: nat :| n <= |a| && n < |b| && a[..n] == b[..n] && (n == |a| || a[n] < b[n]) {
        var k: nat := n - 1;
        assert x[..k] == a[..n][1..] && y[..k] == b[..n][1..];
      }
    } else if b != [] {
      assert a[..0] == b[..0];
    }
  }

  // Quotients.

  lemma ProductSteps(p: int, q: int, k: nat)
    ensures p < q ==> (p + 1) * k <= q * k
  {
  }

  lemma QuotientIs(n: nat, k: nat, q: nat, r: nat)
    requires k > 0 && n == q * k + r && r < k
    ensures n / k == q
  {
    ProductSteps(n / k, q, k);
    ProductSteps(q, n / k, k);
    assert n == n / k * k + n % k;
  }

  // Fixed-width decimal fields.

  function Pow10(width: nat): (p: nat)
    ensures p > 0
  {
    if width == 0 then 1 else 10 * Pow10(width - 1)
  }

  function Digit(d: nat): (c: char)
    requires d < 10
    ensures '0' <= c <= '9'
  {
    '0' + d as char
  }

  predicate IsDigit(c: char) {
    '0' <= c <= '9'
  }

  predicate AllDigits(s: string) {
    forall i :: 0 <= i < |s| ==> IsDigit(s[i])
  }

  /** `n` in decimal, left-padded with zeros to `width` characters. */
  function Pad(n: nat, width: nat): (s: string)
    ensures |s| == width && AllDigits(s)
  {
    if width == 0 then "" else Pad(n / 10, width - 1) + [Digit(n % 10)]
  }

  lemma TwoDigits(n: nat)
    requires n < 100
    ensures Pad(n, 2)[0] as int == '0' as int + n / 10 && Pad(n, 2)[1] as int == '0' as int + n % 10
  {
    var front := Pad(n / 10, 1);
    assert Pad(n / 10 / 10, 0) == "" && front == "" + [Digit(n / 10 % 10)];
    assert Pad(n, 2) == front + [Digit(n % 10)];
  }

  lemma FourDigits(n: nat)
    requires n < 10000
    ensures Pad(n, 4)[0] as int == '0' as int + n / 1000 && Pad(n, 4)[1] as int == '0' as int + n / 100 % 10
    ensures Pad(n, 4)[2] as int == '0' as int + n / 10 % 10 && Pad(n, 4)[3] as int == '0' as int + n % 10
  {
    var front := Pad(n / 100, 2);
    TwoDigits(n / 100);
    assert n / 10 / 10 == n / 100 && n / 100 / 10 == n / 1000;
    assert Pad(n / 10, 3) == front + [Digit(n / 10 % 10)];
    assert Pad(n, 4) == Pad(n / 10, 3) + [Digit(n % 10)];
  }

  function Number(s: string): (n: nat)
    requires AllDigits(s)
  {
    if s == [] then 0
    else Number(s[..|s| - 1]) * 10 + (s[|s| - 1] as int - '0' as int)
  }

  const MAX_INT: int := 0x7fff_ffff_ffff_ffff

  /** Go's strconv.ParseInt for base 10 and 64 bits, and strconv.Atoi: an optional sign and digits. */
  function ParseInt(s: string): Option<int> {
    var digits := if s != [] && s[0] in {'+', '-'} then s[1..] else s;
    if digits == [] || !AllDigits(digits) then None
    else
      var n := if s[0] == '-' then -(Number(digits) as int) else Number(digits);
      if -MAX_INT - 1 <= n <= MAX_INT then Some(n) else None
  }

  /** Digits give their number, "+" before them changes nothing, "-" negates it, and the result must
      lie between -2^63 and 2^63 - 1. */
  lemma ParseIntOfSigned(digits: string)
    requires digits != "" && AllDigits(digits)
    ensures var n := Number(digits);
            && ParseInt(digits) == (if n < 9_223_372_036_854_775_808 then Some(n) else None)
            && ParseInt("+" + digits) == (if n < 9_223_372_036_854_775_808 then Some(n) else None)
            && ParseInt("-" + digits) == (if n <= 9_223_372_036_854_775_808 then Some(-(n as int)) else None)
  {
    assert ("+" + digits)[1..] == digits && ("-" + digits)[1..] == digits;
    assert IsDigit(digits[0]);
  }

  /** Nothing else is a number. */
  lemma ParseIntNeedsDigits(s: string)
    requires ParseInt(s).Some?
    ensures exists digits :: digits != "" && AllDigits(digits) && s in {digits, "+" + digits, "-" + digits}
  {
    if s[0] in {'+', '-'} {
      assert s == [s[0]] + s[1..];
      assert s in {s[1..], "+" + s[1..], "-" + s[1..]};
    } else {
      assert s in {s, "+" + s, "-" + s};
    }
  }

  lemma TenTimesQuotient(n: nat, d: nat, p: nat)
    requires p > 0 && d < 10
    ensures (n * 10 + d) / (10 * p) == n / p
  {
    var (q, r) := (n / p, n % p);
    assert n == q * p + r;
    assert n * 10 + d == q * (10 * p) + (r * 10 + d);
    assert r * 10 + d < 10 * p;
    QuotientIs(n * 10 + d, 10 * p, q, r * 10 + d);
  }

  /** The digit at position i of a number's text, counted from the left. */
  lemma {:induction false} NumberInDigits(s: string, i: nat)
    requires AllDigits(s) && i < |s|
    ensures Number(s) / Pow10(|s| - 1 - i) % 10 == s[i] as int - '0' as int
    decreases |s|
  {
    var (front, last) := (s[..|s| - 1], s[|s| - 1] as int - '0' as int);
    if i < |s| - 1 {
      NumberInDigits(front, i);
      var p := Pow10(|front| - 1 - i);
      assert Pow10(|s| - 1 - i) == 10 * p;
      TenTimesQuotient(Number(front), last, p);
    } else {
      assert Pow10(0) == 1;
    }
  }

  /** `n` in decimal, without leading zeros. */
  function Decimal(n: nat): (s: string)
    ensures s != [] && AllDigits(s) && (s[0] == '0' <==> n == 0)
  {
    if n < 10 then [Digit(n)] else Decimal(n / 10) + [Digit(n % 10)]
  }

  lemma {:induction false} NumberOfDecimal(n: nat)
    ensures Number(Decimal(n)) == n
  {
    var s := Decimal(n);
    if n < 10 {
      assert s[..|s| - 1] == [];
      assert Number([]) == 0;
    } else {
      NumberOfDecimal(n / 10);
      assert s[..|s| - 1] == Decimal(n / 10);
    }
  }

  lemma ParseOfDecimal(n: nat)
    requires n <= MAX_INT
    ensures ParseInt(Decimal(n)) == Some(n)
  {
    NumberOfDecimal(n);
    assert IsDigit(Decimal(n)[0]);
  }

  lemma {:induction false} NumberOfPad(n: nat, width: nat)
    requires n < Pow10(width)
    ensures Number(Pad(n, width)) == n
  {
    if width != 0 {
      NumberOfPad(n / 10, width - 1);
      var s := Pad(n, width);
      assert s[..|s| - 1] == Pad(n / 10, width - 1);
    }
  }

  lemma {:induction false} PadOfNumber(s: string)
    requires AllDigits(s)
    ensures Number(s) < Pow10(|s|)
    ensures Pad(Number(s), |s|) == s
  {
    if s != [] {
      var front, d := s[..|s| - 1], s[|s| - 1] as int - '0' as int;
      PadOfNumber(front);
      assert Number(s) / 10 == Number(front) && Number(s) % 10 == d;
      assert Digit(d) == s[|s| - 1];
      assert s == front + [s[|s| - 1]];
    }
  }

  /** Equally wide fields compare as texts exactly as their numbers do. */
  lemma {:induction false} PadOrder(m: nat, n: nat, width: nat)
    requires m < Pow10(width) && n < Pow10(width)
    ensures Less(Pad(m, width), Pad(n, width)) <==> m < n
    ensures Pad(m, width) == Pad(n, width) <==> m == n
  {
    NumberOfPad(m, width);
    NumberOfPad(n, width);
    if width != 0 {
      PadOrder(m / 10, n / 10, width - 1);
      LessByParts(Pad(m / 10, width - 1), Pad(n / 10, width - 1), [Digit(m % 10)], [Digit(n % 10)]);
    }
  }

  /** A field decides the comparison unless the fields agree; then what follows it does. */
  lemma FieldFirst(m: nat, n: nat, width: nat, x: string, y: string)
    requires m < Pow10(width) && n < Pow10(width)
    ensures Less(Pad(m, width) + x, Pad(n, width) + y) <==> m < n || (m == n && Less(x, y))
  {
    PadOrder(m, n, width);
    LessByParts(Pad(m, width), Pad(n, width), x, y);
  }

  lemma SeparatedFieldFirst(c: string, m: nat, n: nat, width: nat, x: string, y: string)
    requires m < Pow10(width) && n < Pow10(width)
    ensures Less(c + (Pad(m, width) + x), c + (Pad(n, width) + y))
            <==> m < n || (m == n && Less(x, y))
  {
    LessAfterSeparator(c, Pad(m, width) + x, Pad(n, width) + y);
    FieldFirst(m, n, width, x, y);
  }
}
