/** What the command-line tools print while they run: when a report is due,
    and the status line of the standalone tool's `display_stats` with its
    found-wallets message. The rate (a float) reaches the line as text. */
module Console {

  // ---------------------------------------------------------------------
  // Python integer division

  /** `a // b`: Python rounds the quotient towards minus infinity. */
  function PyDiv(a: int, b: int): (q: int)
    requires b != 0
    ensures b * q <= a < b * q + b || b * q + b < a <= b * q
  {
    if b > 0 || a % b == 0 then a / b else a / b - 1
  }

  /** `a % b`: Python's remainder takes the sign of the divisor. */
  function PyMod(a: int, b: int): (r: int)
    requires b != 0
    ensures a == b * PyDiv(a, b) + r
    ensures b > 0 ==> 0 <= r < b
    ensures b < 0 ==> b < r <= 0
  {
    a - b * PyDiv(a, b)
  }

  lemma MulAtLeast(b: int, t: int)
    requires b > 0 && t >= 1
    ensures b * t >= b
  {
  }

  /** A non-zero multiple of `b` is at least as far from zero as `b`. */
  lemma MulNonZero(b: int, t: int)
    requires b != 0 && t != 0
    ensures b * t >= b || b * t <= -b
    ensures b * t <= b || b * t >= -b
  {
    if b > 0 && t > 0 { MulAtLeast(b, t); }
    else if b > 0 { MulAtLeast(b, -t); assert b * t == -(b * -t); }
    else if t > 0 { MulAtLeast(-b, t); assert b * t == -(-b * t); }
    else { MulAtLeast(-b, -t); assert b * t == -b * -t; }
  }

  lemma ModOfMultiple(m: int, b: int)
    requires b != 0
    ensures (b * m) % b == 0
  {
    var x := b * m;
    var q := x / b;
    var r := x % b;
    assert x == b * q + r;
    assert b * (m - q) == r by { assert b * m - b * q == b * (m - q); }
    if m - q != 0 { MulNonZero(b, m - q); }
  }

  /** Quotient and remainder are the only pair that rebuilds the dividend. */
  lemma DivModUnique(x: int, k: int, q: int, r: int)
    requires k > 0 && 0 <= r < k && x == k * q + r
    ensures x / k == q && x % k == r
  {
    var q' := x / k;
    var r' := x % k;
    assert x == k * q' + r';
    assert k * (q - q') == r' - r by { assert k * q - k * q' == k * (q - q'); }
    if q - q' != 0 { MulNonZero(k, q - q'); }
  }

  /** Python's remainder is zero exactly when Dafny's is: both say that the
      divisor goes into the dividend. */
  lemma PyModZero(a: int, b: int)
    requires b != 0
    ensures PyMod(a, b) == 0 <==> a % b == 0
  {
    assert a == b * (a / b) + a % b;
    if b < 0 && a % b != 0 {
      assert PyMod(a, b) == a % b + b by {
        assert a - b * (a / b - 1) == a - b * (a / b) + b;
      }
    } else {
      assert PyMod(a, b) == a % b;
    }
  }

  // ---------------------------------------------------------------------
  // Report triggers

  /** What one pass of the loop reports once it reaches the trigger: the
      status line, and whether the statistics are also logged. A zero
      interval makes `%` raise `ZeroDivisionError`; the loop's
      `except Exception` logs it and carries on, so nothing is reported. */
  datatype Report = DivisionByZero | Due(status: bool, log: bool)

  /** The standalone tool: the status line every `interval` attempts, and a
      log line as well every fifty status lines. */
  function StandaloneReport(attempts: int, interval: int): (r: Report)
    ensures r.DivisionByZero? <==> interval == 0
    ensures r.Due? ==> (r.status <==> PyMod(attempts, interval) == 0)
  {
    if interval == 0 then DivisionByZero
    else
      var status := PyMod(attempts, interval) == 0;
      Due(status, status && PyMod(attempts, interval * 50) == 0)
  }

  /** The nested test loses no log line: the statistics are logged exactly
      when the attempts are a multiple of fifty intervals. */
  lemma StandaloneLogExactly(attempts: int, interval: int)
    requires interval != 0
    ensures StandaloneReport(attempts, interval).log <==> PyMod(attempts, interval * 50) == 0
  {
    PyModZero(attempts, interval);
    PyModZero(attempts, interval * 50);
    if attempts % (interval * 50) == 0 {
      var k := attempts / (interval * 50);
      assert attempts == interval * (50 * k) by {
        assert attempts == (interval * 50) * k + attempts % (interval * 50);
        assert (interval * 50) * k == interval * (50 * k);
      }
      ModOfMultiple(50 * k, interval);
    }
  }

  /** The comma-option tool logs its statistics every `interval` attempts. */
  function BruteForceReport(attempts: int, interval: int): (r: Report)
    ensures r.DivisionByZero? <==> interval == 0
    ensures r.Due? ==> !r.status && (r.log <==> PyMod(attempts, interval) == 0)
  {
    if interval == 0 then DivisionByZero else Due(false, PyMod(attempts, interval) == 0)
  }

  /** Whether the trigger fires after `attempts` attempts. The interval is
      any non-zero `int`: the option parser accepts a negative one. */
  predicate Fires(attempts: nat, interval: int)
    requires interval != 0
  {
    PyMod(attempts, interval) == 0
  }

  /** How many of the attempts 1 to `n` fire the trigger. */
  function FiringsUpTo(n: nat, interval: int): nat
    requires interval != 0
    decreases n
  {
    if n == 0 then 0 else FiringsUpTo(n - 1, interval) + (if Fires(n, interval) then 1 else 0)
  }

  /** The distance of the interval from zero. */
  function Magnitude(interval: int): (m: nat)
    ensures m == interval || m == -interval
  {
    if interval >= 0 then interval else -interval
  }

  /** The sign of the interval does not decide whether the trigger fires. */
  lemma FiresMagnitude(a: nat, b: int)
    requires b != 0
    ensures Fires(a, b) <==> Fires(a, Magnitude(b))
  {
    PyModZero(a, b);
    PyModZero(a, -b);
    if a % b == 0 {
      assert a == (-b) * -(a / b) by { assert a == b * (a / b); }
      ModOfMultiple(-(a / b), -b);
    }
    if a % -b == 0 {
      assert a == b * -(a / -b) by { assert a == (-b) * (a / -b); }
      ModOfMultiple(-(a / -b), b);
    }
  }

  lemma DivStep(n: nat, k: nat)
    requires k > 0
    ensures (n + 1) / k == n / k + (if (n + 1) % k == 0 then 1 else 0)
  {
    var q := n / k;
    var r := n % k;
    assert n == k * q + r && 0 <= r < k;
    if r + 1 < k {
      DivModUnique(n + 1, k, q, r + 1);
    } else {
      assert n + 1 == k * (q + 1) + 0 by { assert k * (q + 1) == k * q + k; }
      DivModUnique(n + 1, k, q + 1, 0);
    }
  }

  /** Over the first `n` attempts a report comes every `interval` attempts,
      `n // interval` of them in all for a positive interval. A negative one
      fires just as often: every `-interval` attempts. */
  lemma {:induction false} FiringsCount(n: nat, interval: int)
    requires interval != 0
    ensures FiringsUpTo(n, interval) == n / Magnitude(interval)
    ensures interval > 0 ==> FiringsUpTo(n, interval) == PyDiv(n, interval)
    decreases n
  {
    if n > 0 {
      FiringsCount(n - 1, interval);
      FiresMagnitude(n, interval);
      PyModZero(n, Magnitude(interval));
      DivStep(n - 1, Magnitude(interval));
    }
  }

  // ---------------------------------------------------------------------
  // The status line

  function DigitChar(d: nat): (c: char)
    requires d < 10
    ensures '0' <= c <= '9'
  {
    "0123456789"[d]
  }

  function DigitValue(c: char): (d: nat)
    requires '0' <= c <= '9'
    ensures d < 10 && DigitChar(d) == c
  {
    (c as int - '0' as int)
  }

  predicate AllDigits(s: string) {
    forall i :: 0 <= i < |s| ==> '0' <= s[i] <= '9'
  }

  /** `str(n)` for a natural number. */
  function Decimal(n: nat): (s: string)
    ensures |s| >= 1 && AllDigits(s)
    ensures s[0] == '0' ==> n == 0
    decreases n
  {
    if n < 10 then [DigitChar(n)] else Decimal(n / 10) + [DigitChar(n % 10)]
  }

  /** `int(s)` for a string of digits. */
  function ParseDecimal(s: string): nat
    requires AllDigits(s)
    decreases |s|
  {
    if |s| == 0 then 0 else ParseDecimal(s[..|s| - 1]) * 10 + DigitValue(s[|s| - 1])
  }

  lemma DigitRoundTrip(d: nat)
    requires d < 10
    ensures DigitValue(DigitChar(d)) == d
  {
  }

  /** Reading back the decimal text of a count gives the count. */
  lemma {:induction false} DecimalRoundTrip(n: nat)
    ensures ParseDecimal(Decimal(n)) == n
    decreases n
  {
    var s := Decimal(n);
    if n < 10 {
      DigitRoundTrip(n);
      assert s[..0] == [];
    } else {
      DecimalRoundTrip(n / 10);
      DigitRoundTrip(n % 10);
      assert s[..|s| - 1] == Decimal(n / 10);
    }
  }

  /** `n` as three digits with leading zeros: one group of `f"{n:,}"`. */
  function Group(n: nat): (s: string)
    requires n < 1000
    ensures |s| == 3 && AllDigits(s)
  {
    [DigitChar(n / 100), DigitChar(n / 10 % 10), DigitChar(n % 10)]
  }

  /** `f"{n:,}"`: the decimal digits in groups of three, separated by commas. */
  function Grouped(n: nat): (s: string)
    ensures |s| >= 1
    ensures forall i :: 0 <= i < |s| ==> s[i] == ',' || '0' <= s[i] <= '9'
    decreases n
  {
    if n < 1000 then Decimal(n) else Grouped(n / 1000) + "," + Group(n % 1000)
  }

  /** The text with its commas taken out. */
  function Ungroup(s: string): (r: string)
    ensures (forall i :: 0 <= i < |s| ==> s[i] == ',' || '0' <= s[i] <= '9') ==> AllDigits(r)
    decreases |s|
  {
    if |s| == 0 then [] else (if s[0] == ',' then [] else [s[0]]) + Ungroup(s[1..])
  }

  lemma {:induction false} UngroupAppend(a: string, b: string)
    ensures Ungroup(a + b) == Ungroup(a) + Ungroup(b)
    decreases |a|
  {
    if |a| > 0 {
      assert (a + b)[1..] == a[1..] + b;
      UngroupAppend(a[1..], b);
    } else {
      assert a + b == b;
    }
  }

  lemma UngroupDigits(s: string)
    requires AllDigits(s)
    ensures Ungroup(s) == s
    decreases |s|
  {
  }

  function Pow10(k: nat): nat {
    if k == 0 then 1 else 10 * Pow10(k - 1)
  }

  /** Appending a digit multiplies by ten and adds it. */
  lemma ParseSnoc(s: string, c: char)
    requires AllDigits(s) && '0' <= c <= '9'
    ensures AllDigits(s + [c])
    ensures ParseDecimal(s + [c]) == ParseDecimal(s) * 10 + DigitValue(c)
  {
    assert (s + [c])[..|s|] == s;
  }

  lemma {:induction false} ParseAppend(a: string, b: string)
    requires AllDigits(a) && AllDigits(b)
    ensures AllDigits(a + b)
    ensures ParseDecimal(a + b) == ParseDecimal(a) * Pow10(|b|) + ParseDecimal(b)
    decreases |b|
  {
    if |b| > 0 {
      var b', c := b[..|b| - 1], b[|b| - 1];
      assert b == b' + [c];
      assert AllDigits(b');
      ParseAppend(a, b');
      ParseAppendLast(a, b', c);
    } else {
      assert a + b == a;
    }
  }

  /** One more digit at the end of `b`, given the claim for `b`. */
  lemma ParseAppendLast(a: string, b: string, c: char)
    requires AllDigits(a) && AllDigits(b) && '0' <= c <= '9'
    requires AllDigits(a + b)
    requires ParseDecimal(a + b) == ParseDecimal(a) * Pow10(|b|) + ParseDecimal(b)
    ensures AllDigits(a + (b + [c])) && AllDigits(b + [c])
    ensures ParseDecimal(a + (b + [c])) == ParseDecimal(a) * Pow10(|b + [c]|) + ParseDecimal(b + [c])
  {
    assert a + (b + [c]) == (a + b) + [c];
    ParseSnoc(a + b, c);
    ParseSnoc(b, c);
    AppendStep(ParseDecimal(a + (b + [c])), ParseDecimal(a + b), ParseDecimal(a), Pow10(|b|),
               ParseDecimal(b), DigitValue(c), ParseDecimal(b + [c]), Pow10(|b + [c]|));
  }

  /** The arithmetic of one step of `ParseAppend`, on plain numbers. */
  lemma AppendStep(whole: int, init: int, p: int, w: int, v: int, d: int, last: int, w10: int)
    requires whole == init * 10 + d && init == p * w + v
    requires last == v * 10 + d && w10 == 10 * w
    ensures whole == p * w10 + last
  {
    Distribute(p, w, v, d);
  }

  lemma Distribute(p: int, w: int, v: int, d: int)
    ensures (p * w + v) * 10 + d == p * (10 * w) + (v * 10 + d)
  {
  }

  lemma ParseThree(d0: nat, d1: nat, d2: nat)
    requires d0 < 10 && d1 < 10 && d2 < 10
    ensures ParseDecimal([DigitChar(d0), DigitChar(d1), DigitChar(d2)]) == 100 * d0 + 10 * d1 + d2
  {
    var s := [DigitChar(d0), DigitChar(d1), DigitChar(d2)];
    DigitRoundTrip(d0);
    DigitRoundTrip(d1);
    DigitRoundTrip(d2);
    assert s[..2] == [DigitChar(d0), DigitChar(d1)];
    assert s[..2][..1] == [DigitChar(d0)];
    assert [DigitChar(d0)][..0] == [];
    assert ParseDecimal([DigitChar(d0)]) == d0;
    assert ParseDecimal(s[..2]) == 10 * d0 + d1;
  }

  /** The three digits of a number below a thousand. */
  lemma ThreeDigits(n: nat)
    requires n < 1000
    ensures n / 10 % 10 < 10 && 100 * (n / 100) + 10 * (n / 10 % 10) + n % 10 == n
  {
    var q1, r0 := n / 10, n % 10;
    var q2, r1 := q1 / 10, q1 % 10;
    assert n == 10 * q1 + r0;
    assert q1 == 10 * q2 + r1;
    assert n == 100 * q2 + (10 * r1 + r0);
    DivModUnique(n, 100, q2, 10 * r1 + r0);
  }

  lemma GroupValue(n: nat)
    requires n < 1000
    ensures ParseDecimal(Group(n)) == n
  {
    ThreeDigits(n);
    ParseThree(n / 100, n / 10 % 10, n % 10);
  }

  /** Removing the thousands separators from `f"{n:,}"` leaves digits that
      read back as `n`. */
  lemma {:induction false} GroupedRoundTrip(n: nat)
    ensures AllDigits(Ungroup(Grouped(n)))
    ensures ParseDecimal(Ungroup(Grouped(n))) == n
    decreases n
  {
    if n < 1000 {
      UngroupDigits(Decimal(n));
      DecimalRoundTrip(n);
    } else {
      GroupedRoundTrip(n / 1000);
      var head, g := Ungroup(Grouped(n / 1000)), Group(n % 1000);
      assert Ungroup(Grouped(n)) == head + g by {
        UngroupAppend(Grouped(n / 1000) + ",", g);
        UngroupAppend(Grouped(n / 1000), ",");
        UngroupDigits(g);
        assert Ungroup(",") == [];
      }
      assert ParseDecimal(head + g) == (n / 1000) * 1000 + n % 1000 by {
        ParseAppend(head, g);
        GroupValue(n % 1000);
        assert Pow10(3) == 1000;
      }
    }
  }

  const FoundSuffix: string := " WALLETS FOUND! Check found_wallets.txt"
  const NothingFound: string := "No wallets with balance found yet"

  /** The found-wallets part of the status line. */
  function FoundText(found: nat): string {
    if found > 0 then Decimal(found) + FoundSuffix else NothingFound
  }

  /** The line announces found wallets exactly when there are some, and then
      its leading digits are the number found. */
  lemma FoundTextSays(found: nat)
    ensures found > 0 <==> FoundText(found) != NothingFound
    ensures found > 0 ==> exists k :: 0 < k < |FoundText(found)| && FoundText(found)[k..] == FoundSuffix
                                      && AllDigits(FoundText(found)[..k])
                                      && ParseDecimal(FoundText(found)[..k]) == found
  {
    if found > 0 {
      var d := Decimal(found);
      var t := FoundText(found);
      assert t[..|d|] == d && t[|d|..] == FoundSuffix;
      DecimalRoundTrip(found);
      assert |t| > |d|;
    } else {
      assert FoundText(found) == NothingFound;
    }
  }

  /** `display_stats`: `[<attempts with commas> attempts] [Rate: <rate>/sec] [<found text>]`,
      written over the current line. */
  function StatusLine(attempts: nat, rate: string, found: nat): (line: string)
    ensures |line| >= 1 && line[0] == '\r'
  {
    "\r[" + Grouped(attempts) + " attempts] [Rate: " + rate + "/sec] [" + FoundText(found) + "]"
  }

  /** The attempts count can be read back from the status line: the text
      between the opening `[` and ` attempts]`, without its commas, is its
      decimal form. */
  lemma StatusLineAttempts(attempts: nat, rate: string, found: nat)
    ensures var line := StatusLine(attempts, rate, found);
      exists k :: 2 <= k && k + 10 <= |line| && line[..2] == "\r[" && line[k..k + 10] == " attempts]"
        && AllDigits(Ungroup(line[2..k])) && ParseDecimal(Ungroup(line[2..k])) == attempts
  {
    var line := StatusLine(attempts, rate, found);
    var g := Grouped(attempts);
    var k := 2 + |g|;
    Pieces("\r[", g, " attempts] [Rate: ", rate, "/sec] [", FoundText(found), "]");
    assert " attempts] [Rate: "[..10] == " attempts]";
    GroupedRoundTrip(attempts);
  }

  /** Where the first three pieces of a seven-piece text sit. */
  lemma Pieces(a: string, g: string, b: string, r: string, c: string, f: string, d: string)
    requires |b| >= 10
    ensures var l := a + g + b + r + c + f + d;
      && |l| >= |a| + |g| + 10
      && l[..|a|] == a && l[|a|..|a| + |g|] == g && l[|a| + |g|..|a| + |g| + 10] == b[..10]
  {
  }
}
