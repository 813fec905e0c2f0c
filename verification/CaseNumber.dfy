/** Case numbers `CASE-{year}-{seq:04d}` (api/v1/endpoints/cases.py): the next number is
    derived from the lexicographically greatest one of the year. */
module CaseNumber {
  import opened Basics

  const DIGITS: string := "0123456789"

  function Decimal(n: nat): string {
    if n < 10 then [DIGITS[n]] else Decimal(n / 10) + [DIGITS[n % 10]]
  }

  function Zeros(k: nat): string { seq(k, _ => '0') }

  /** `f"{n:04d}"`. */
  function Pad4(n: nat): string {
    var d := Decimal(n);
    if |d| < 4 then Zeros(4 - |d|) + d else d
  }

  predicate IsDigit(c: char) { '0' <= c <= '9' }

  function DigitValue(c: char): nat
    requires IsDigit(c)
  {
    (c - '0') as int
  }

  predicate AllDigits(s: string) { s != "" && forall i | 0 <= i < |s| :: IsDigit(s[i]) }

  /** `int(suffix)` on digits. */
  function Parse(s: string): nat
    requires forall i | 0 <= i < |s| :: IsDigit(s[i])
  {
    if s == "" then 0 else 10 * Parse(s[..|s| - 1]) + DigitValue(s[|s| - 1])
  }

  lemma DigitIs(k: nat)
    requires k < 10
    ensures IsDigit(DIGITS[k]) && DigitValue(DIGITS[k]) == k
  { }

  lemma ParseAppend(s: string, c: char)
    requires AllDigits(s) && IsDigit(c)
    ensures AllDigits(s + [c]) && Parse(s + [c]) == 10 * Parse(s) + DigitValue(c)
  {
    assert (s + [c])[..|s|] == s;
  }

  lemma {:induction false} DecimalParses(n: nat)
    ensures AllDigits(Decimal(n)) && Parse(Decimal(n)) == n
  {
    DigitIs(n % 10);
    if n < 10 {
      assert Decimal(n)[..0] == "";
    } else {
      DecimalParses(n / 10);
      ParseAppend(Decimal(n / 10), DIGITS[n % 10]);
      hide Parse, AllDigits, IsDigit, DigitValue;
    }
  }

  lemma {:induction false} LeadingZeros(k: nat, s: string)
    requires AllDigits(s)
    ensures AllDigits(Zeros(k) + s) && Parse(Zeros(k) + s) == Parse(s)
    decreases |s|
  {
    var z := Zeros(k) + s;
    assert z[..|z| - 1] == Zeros(k) + s[..|s| - 1];
    if |s| == 1 {
      assert Zeros(k) + s[..0] == Zeros(k);
      ZerosParse(k);
    } else {
      LeadingZeros(k, s[..|s| - 1]);
    }
  }

  lemma {:induction false} ZerosParse(k: nat)
    ensures Parse(Zeros(k)) == 0
  {
    if k > 0 {
      ZerosParse(k - 1);
      assert Zeros(k)[..k - 1] == Zeros(k - 1);
    }
  }

  /** Reading a formatted sequence number gives it back. */
  lemma PadParses(n: nat)
    ensures AllDigits(Pad4(n)) && Parse(Pad4(n)) == n
  {
    DecimalParses(n);
    var d := Decimal(n);
    if |d| < 4 { LeadingZeros(4 - |d|, d); }
  }

  /** The `k` last digits of `n`, most significant first. */
  function Fixed(k: nat, n: nat): (s: string)
    ensures |s| == k
  {
    if k == 0 then "" else Fixed(k - 1, n / 10) + [DIGITS[n % 10]]
  }

  lemma {:induction false} FixedZero(k: nat)
    ensures Fixed(k, 0) == Zeros(k)
  {
    if k > 0 { FixedZero(k - 1); }
  }

  lemma {:induction false} FixedIsPadded(k: nat, n: nat)
    requires |Decimal(n)| <= k
    ensures Fixed(k, n) == Zeros(k - |Decimal(n)|) + Decimal(n)
  {
    if n < 10 {
      FixedZero(k - 1);
    } else {
      FixedIsPadded(k - 1, n / 10);
    }
  }

  lemma {:induction false} DecimalLength(n: nat)
    ensures |Decimal(n)| >= 1 && (n < 10 ==> |Decimal(n)| <= 1) && (n < 100 ==> |Decimal(n)| <= 2)
    ensures (n < 1000 ==> |Decimal(n)| <= 3) && (n < 10000 ==> |Decimal(n)| <= 4)
  {
    if n >= 10 { DecimalLength(n / 10); }
  }

  lemma {:induction false} PadIsFixed(n: nat)
    requires n <= 9999
    ensures Pad4(n) == Fixed(4, n)
  {
    DecimalLength(n);
    FixedIsPadded(4, n);
    assert Zeros(0) + Decimal(n) == Decimal(n);
  }

  /** Equal-length texts compare first by all but the last character. */
  lemma {:induction false} StrLeLast(s: string, t: string, c: char, d: char)
    requires |s| == |t|
    ensures StrLe(s + [c], t + [d]) <==> (s != t && StrLe(s, t)) || (s == t && c <= d)
  {
    var u, v := s + [c], t + [d];
    if s == "" {
      assert u[1..] == "" && v[1..] == "";
    } else {
      assert u[1..] == s[1..] + [c] && v[1..] == t[1..] + [d];
      assert s == [s[0]] + s[1..] && t == [t[0]] + t[1..];
      StrLeLast(s[1..], t[1..], c, d);
    }
  }

  lemma DigitOrder(a: nat, b: nat)
    requires a <= b < 10
    ensures DIGITS[a] <= DIGITS[b]
  { }

  lemma {:induction false} FixedOrder(k: nat, a: nat, b: nat)
    requires a <= b && FitsIn(k, b)
    ensures StrLe(Fixed(k, a), Fixed(k, b))
  {
    if k > 0 {
      FixedOrder(k - 1, a / 10, b / 10);
      StrLeLast(Fixed(k - 1, a / 10), Fixed(k - 1, b / 10), DIGITS[a % 10], DIGITS[b % 10]);
      if Fixed(k - 1, a / 10) == Fixed(k - 1, b / 10) {
        FixedInjective(k - 1, a / 10, b / 10);
        DigitOrder(a % 10, b % 10);
      }
    }
  }

  /** `n` has at most `k` digits. */
  ghost predicate FitsIn(k: nat, n: nat) {
    if k == 0 then n == 0 else FitsIn(k - 1, n / 10)
  }

  lemma {:induction false} FixedInjective(k: nat, a: nat, b: nat)
    requires a <= b && FitsIn(k, b) && Fixed(k, a) == Fixed(k, b)
    ensures a == b
  {
    if k > 0 {
      assert Fixed(k, a)[..k - 1] == Fixed(k - 1, a / 10) && Fixed(k, b)[..k - 1] == Fixed(k - 1, b / 10);
      assert Fixed(k, a)[k - 1] == DIGITS[a % 10] && Fixed(k, b)[k - 1] == DIGITS[b % 10];
      FixedInjective(k - 1, a / 10, b / 10);
    }
  }

  /** Up to 9999 the order of the padded texts is the order of the numbers. */
  lemma PadOrder(a: nat, b: nat)
    requires a <= b <= 9999
    ensures StrLe(Pad4(a), Pad4(b))
  {
    PadIsFixed(a);
    PadIsFixed(b);
    assert FitsIn(1, b / 10 / 10 / 10) && FitsIn(2, b / 10 / 10) && FitsIn(3, b / 10);
    FixedOrder(4, a, b);
  }

  /** Five digits sort before the four-digit 9999: its own text is the greatest. */
  lemma TenThousandSortsBelow()
    ensures Decimal(10000) == "10000" && StrLe(Pad4(10000), Pad4(9999)) && !StrLe(Pad4(9999), Pad4(10000))
  {
    assert Decimal(9) == "9" && Decimal(99) == "99" && Decimal(999) == "999" && Decimal(9999) == "9999";
    assert Decimal(1) == "1" && Decimal(10) == "10" && Decimal(100) == "100" && Decimal(1000) == "1000";
  }

  // ---- Generation ----------------------------------------------------------

  /** The stored suffixes of one year, as the set of formatted sequence numbers. */
  function Greatest(suffixes: seq<string>): string
    requires suffixes != []
  {
    if |suffixes| == 1 then suffixes[0]
    else
      var rest := Greatest(suffixes[1..]);
      if StrLe(rest, suffixes[0]) then suffixes[0] else rest
  }

  /** `_generate_case_number` over the year's rows; the suffix of the number it returns. */
  function Generate(suffixes: seq<string>): string {
    if suffixes == [] then Pad4(1)
    else
      var last := Greatest(suffixes);
      if AllDigits(last) then Pad4(Parse(last) + 1) else Pad4(1)
  }

  lemma {:induction false} GreatestIsMax(suffixes: seq<string>, m: string)
    requires m in suffixes && forall s :: s in suffixes ==> StrLe(s, m)
    ensures Greatest(suffixes) == m
  {
    if |suffixes| > 1 {
      if m in suffixes[1..] {
        GreatestIsMax(suffixes[1..], m);
        if StrLe(m, suffixes[0]) { StrLeAntisymmetric(m, suffixes[0]); }
      } else {
        GreatestMember(suffixes[1..]);
      }
    }
  }

  lemma {:induction false} GreatestMember(suffixes: seq<string>)
    requires suffixes != []
    ensures Greatest(suffixes) in suffixes
  {
    if |suffixes| > 1 { GreatestMember(suffixes[1..]); }
  }

  /** The next number follows the greatest text, if that is a number, and else starts again. */
  lemma NextFollowsGreatest(suffixes: seq<string>, m: string)
    requires m in suffixes && forall s :: s in suffixes ==> StrLe(s, m)
    ensures (m != "" && forall i :: 0 <= i < |m| ==> '0' <= m[i] <= '9') ==>
      AllDigits(m) && Generate(suffixes) == Pad4(Parse(m) + 1)
    ensures (m == "" || exists i :: 0 <= i < |m| && !('0' <= m[i] <= '9')) ==> Generate(suffixes) == "0001"
    ensures Generate([]) == "0001" && Pad4(42) == "0042" && Pad4(9999) == "9999"
  {
    GreatestIsMax(suffixes, m);
    FirstPads();
    hide Pad4, Greatest;
  }

  lemma FirstPads()
    ensures Pad4(1) == "0001" && Pad4(42) == "0042" && Pad4(9999) == "9999"
  {
    assert Decimal(4) == "4" && Decimal(42) == "42";
    assert Decimal(9) == "9" && Decimal(99) == "99" && Decimal(999) == "999" && Decimal(9999) == "9999";
  }

  function Pads(ns: seq<nat>): seq<string> { seq(|ns|, i requires 0 <= i < |ns| => Pad4(ns[i])) }

  lemma BelowTop(n: nat, top: nat)
    requires n <= top <= 9999
    ensures StrLe(Pad4(n), Pad4(top)) && Pad4(n) != Pad4(top + 1)
  {
    PadOrder(n, top);
    PadParses(n);
    PadParses(top + 1);
  }

  lemma {:induction false} NextOfGreatest(suffixes: seq<string>, top: nat)
    requires suffixes != [] && Greatest(suffixes) == Pad4(top)
    ensures Generate(suffixes) == Pad4(top + 1)
  {
    PadParses(top);
  }

  /** Whatever numbers the year holds, the next one is unused and one above the highest
      while that highest number is at most 9999. */
  lemma FreshWhileSmall(ns: seq<nat>, top: nat)
    requires top in ns && top <= 9999 && forall n :: n in ns ==> n <= top
    ensures Generate(Pads(ns)) == Pad4(top + 1) && Pad4(top + 1) !in Pads(ns)
  {
    var t := Pads(ns);
    var j :| 0 <= j < |ns| && ns[j] == top;
    assert t[j] == Pad4(top);
    forall i | 0 <= i < |ns| ensures StrLe(t[i], Pad4(top)) && t[i] != Pad4(top + 1) {
      assert ns[i] in ns;
      BelowTop(ns[i], top);
    }
    GreatestIsMax(t, Pad4(top));
    NextOfGreatest(t, top);
  }

  /** The table after the first `n` cases of the year. */
  function Issued(n: nat): seq<string> { seq(n, (i: nat) => Pad4(i + 1)) }

  /** While at most 9999 cases exist the next number is one more than the last, and new. */
  lemma NextInOrder(n: nat)
    requires n <= 9999
    ensures Generate(Issued(n)) == Pad4(n + 1) && Pad4(n + 1) !in Issued(n)
  {
    if n > 0 {
      var ns := seq(n, (i: nat) => i + 1);
      assert ns[n - 1] == n && Issued(n) == Pads(ns);
      FreshWhileSmall(ns, n);
    }
  }

  /** With 10000 cases the greatest text is still 9999, so 10000 is generated again. */
  lemma StuckAtTenThousand(n: nat)
    requires n == 10000
    ensures Generate(Issued(n)) == Pad4(n) && Pad4(n) in Issued(n)
  {
    TenThousandSortsBelow();
    PadParses(n - 1);
    hide Pad4, StrLe, Decimal, Greatest, Parse, Generate, Issued;
    var t, top := Issued(n), Pad4(n - 1);
    IssuedAt(n, n - 2);
    IssuedAt(n, n - 1);
    forall s | s in t ensures StrLe(s, top) { BelowTenThousand(n, s); }
    GreatestIsMax(t, top);
    NextOfGreatest(t, n - 1);
  }

  lemma IssuedAt(n: nat, i: nat)
    requires i < n
    ensures |Issued(n)| == n && Issued(n)[i] == Pad4(i + 1)
  { }

  lemma BelowTenThousand(n: nat, s: string)
    requires n == 10000 && s in Issued(n)
    ensures StrLe(s, Pad4(n - 1))
  {
    TenThousandSortsBelow();
    hide Pad4, StrLe, Decimal;
    var i :| 0 <= i < n && Issued(n)[i] == s;
    if i < n - 1 { PadOrder(i + 1, n - 1); }
  }

  /** One `create_case`: the unique index on the number refuses a repeat. */
  function CreateCase(suffixes: seq<string>): seq<string> {
    if Generate(suffixes) in suffixes then suffixes else suffixes + [Generate(suffixes)]
  }

  function CreateCases(attempts: nat): seq<string> {
    if attempts == 0 then [] else CreateCase(CreateCases(attempts - 1))
  }

  lemma CreateNext(n: nat)
    requires n <= 9999
    ensures CreateCase(Issued(n)) == Issued(n + 1)
  {
    NextInOrder(n);
    assert Issued(n) + [Pad4(n + 1)] == Issued(n + 1);
  }

  lemma CreateBlocked(n: nat)
    requires n == 10000
    ensures CreateCase(Issued(n)) == Issued(n)
  {
    StuckAtTenThousand(n);
  }

  function Capped(n: nat): nat { if n <= 9999 then n else 10000 }

  lemma CreateOneMore(n: nat)
    ensures CreateCase(Issued(Capped(n))) == Issued(Capped(n + 1))
  {
    hide Issued, CreateCase;
    if n <= 9999 { CreateNext(n); } else { CreateBlocked(10000); }
  }

  /** Every run of case creations in one year: the n-th attempt takes number n, up to
      10000; from then on every attempt collides. */
  lemma {:induction false} CasesOfAYear(attempts: nat)
    ensures CreateCases(attempts) == Issued(Capped(attempts))
  {
    hide CreateCase, Pad4;
    if attempts == 0 {
      assert Issued(0) == [];
    } else {
      hide Issued, Capped;
      CasesOfAYear(attempts - 1);
      CreateOneMore(attempts - 1);
    }
  }

  /** The generated number is unused exactly while at most 9999 cases exist. */
  lemma {:induction false} FreshExactly(attempts: nat)
    ensures Generate(CreateCases(attempts)) !in CreateCases(attempts) <==> |CreateCases(attempts)| <= 9999
  {
    CasesOfAYear(attempts);
    var n := Capped(attempts);
    if n <= 9999 {
      NextInOrder(n);
    } else {
      StuckAtTenThousand(n);
    }
  }
}
