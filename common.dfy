/** Vocabulary shared by every page script of the library: optional values,
    the errors a handler reports, JavaScript-like string helpers, decimal
    identifiers and the list operations (filter, findIndex, sort, slice) the
    scripts use on their stored collections. */
module Common {

  datatype Option<T> = None | Some(value: T)

  /** What a handler reports with an error alert instead of saving. */
  datatype Error =
    | Validation   // a required field is empty or malformed
    | NotFound     // an id does not name a stored record
    | Conflict     // the record is in the wrong state (book not Available)
    | Duplicate    // username or e-mail already registered

  /** The outcome of a handler: the new stored state, or the error it reported
      (in which case nothing was saved). */
  datatype Result<T> = Ok(value: T) | Err(error: Error)

  function Min(a: int, b: int): int { if a <= b then a else b }
  function Max(a: int, b: int): int { if a >= b then a else b }

  /** Math.ceil(x / d) for a positive divisor, in exact integer arithmetic. */
  function CeilDiv(x: int, d: int): (q: int)
    requires d > 0
    ensures d * (q - 1) < x <= d * q
  {
    var q := (x + d - 1) / d;
    var r := (x + d - 1) % d;
    assert x + d - 1 == d * q + r && 0 <= r < d;
    assert d * (q - 1) == d * q - d;
    q
  }

  // ---------------------------------------------------------------------
  // Strings

  /** String.prototype.toLowerCase on one character (ASCII letters only). */
  function LowerChar(c: char): char
  {
    if 'A' <= c <= 'Z' then (c as int + 32) as char else c
  }

  function Lower(s: string): (r: string)
    ensures |r| == |s|
    ensures forall i :: 0 <= i < |s| ==> r[i] == LowerChar(s[i])
  {
    if s == [] then [] else [LowerChar(s[0])] + Lower(s[1..])
  }

  /** String.prototype.includes, written as a scan over the start positions. */
  function Includes(s: string, sub: string): bool
    decreases |s|
  {
    sub <= s || (|s| > 0 && Includes(s[1..], sub))
  }

  /** `sub` occurs in `s` starting at position i. */
  predicate OccursAt(s: string, sub: string, i: nat)
  {
    i + |sub| <= |s| && s[i..i + |sub|] == sub
  }

  /** The scan finds `sub` exactly when it occurs at some position of `s`. */
  lemma {:induction false} IncludesAt(s: string, sub: string)
    ensures Includes(s, sub) <==> exists i: nat :: OccursAt(s, sub, i)
    decreases |s|
  {
    if Includes(s, sub) {
      IncludesWitness(s, sub);
    } else {
      forall i: nat ensures !OccursAt(s, sub, i) {
        NotIncludesAt(s, sub, i);
      }
    }
  }

  lemma {:induction false} IncludesWitness(s: string, sub: string)
    requires Includes(s, sub)
    ensures exists i: nat :: OccursAt(s, sub, i)
    decreases |s|
  {
    if sub <= s {
      assert OccursAt(s, sub, 0);
    } else {
      var t := s[1..];
      IncludesWitness(t, sub);
      var i: nat :| OccursAt(t, sub, i);
      assert s[i + 1..i + 1 + |sub|] == t[i..i + |sub|];
      assert OccursAt(s, sub, i + 1);
    }
  }

  lemma {:induction false} NotIncludesAt(s: string, sub: string, i: nat)
    requires !Includes(s, sub)
    ensures !OccursAt(s, sub, i)
    decreases |s|
  {
    if i > 0 && OccursAt(s, sub, i) {
      OccursShift(s, sub, i);
      NotIncludesAt(s[1..], sub, i - 1);
    }
  }

  lemma OccursShift(s: string, sub: string, i: nat)
    requires 1 <= i && OccursAt(s, sub, i)
    ensures OccursAt(s[1..], sub, i - 1)
  {
    assert s[1..][i - 1..i - 1 + |sub|] == s[i..i + |sub|];
  }

  /** `fields.some((f) => f.toLowerCase().includes(q))`. */
  function AnyIncludes(fields: seq<string>, q: string): (m: bool)
    ensures m ==> exists k: nat, i: nat :: k < |fields| && OccursAt(Lower(fields[k]), q, i)
    ensures (exists k: nat, i: nat :: k < |fields| && OccursAt(Lower(fields[k]), q, i)) ==> m
  {
    if fields == [] then false
    else
      IncludesAt(Lower(fields[0]), q);
      OccursInFields(fields, q);
      Includes(Lower(fields[0]), q) || AnyIncludes(fields[1..], q)
  }

  /** An occurrence in a list of fields is one in the first field or one in
      the rest. */
  lemma OccursInFields(fields: seq<string>, q: string)
    requires fields != []
    ensures (exists k: nat, i: nat :: k < |fields| && OccursAt(Lower(fields[k]), q, i))
        <==> ((exists i: nat :: OccursAt(Lower(fields[0]), q, i))
          || (exists k: nat, i: nat :: k < |fields[1..]| && OccursAt(Lower(fields[1..][k]), q, i)))
  {
    if exists k: nat, i: nat :: k < |fields| && OccursAt(Lower(fields[k]), q, i) {
      var k: nat, i: nat :| k < |fields| && OccursAt(Lower(fields[k]), q, i);
      if k > 0 { assert OccursAt(Lower(fields[1..][k - 1]), q, i); }
    }
    if exists k: nat, i: nat :: k < |fields[1..]| && OccursAt(Lower(fields[1..][k]), q, i) {
      var k: nat, i: nat :| k < |fields[1..]| && OccursAt(Lower(fields[1..][k]), q, i);
      assert OccursAt(Lower(fields[k + 1]), q, i);
    }
  }

  /** The search clause every list filter uses: `!term || f1.toLowerCase()
      .includes(term) || ...` where term is already lower-cased. It holds
      exactly when the lower-cased term is empty or sits at some position of
      one lower-cased field. */
  function SearchMatches(term: string, fields: seq<string>): (m: bool)
    ensures m && Lower(term) != [] ==>
      exists k: nat, i: nat :: k < |fields| && OccursAt(Lower(fields[k]), Lower(term), i)
    ensures Lower(term) == [] ==> m
    ensures (exists k: nat, i: nat :: k < |fields| && OccursAt(Lower(fields[k]), Lower(term), i)) ==> m
  {
    Lower(term) == [] || AnyIncludes(fields, Lower(term))
  }

  /** JavaScript's `\s` and the characters `String.prototype.trim` removes:
      the ASCII tab, line feed, vertical tab, form feed, carriage return and
      space, and the Unicode spaces and line terminators. */
  predicate IsSpace(c: char)
  {
    || c == ' ' || c == '\t' || c == '\n' || c == '\r'
    || c as int == 0x0B || c as int == 0x0C || c as int == 0xA0 || c as int == 0x1680
    || (0x2000 <= c as int <= 0x200A) || c as int == 0x2028 || c as int == 0x2029
    || c as int == 0x202F || c as int == 0x205F || c as int == 0x3000 || c as int == 0xFEFF
  }

  /** `String.prototype.trim`: no space is left at either end, and only a
      string of spaces trims to nothing. */
  function Trim(s: string): (r: string)
    ensures |r| <= |s|
    ensures r != [] ==> !IsSpace(r[0]) && !IsSpace(r[|r| - 1])
    ensures r == [] <==> forall k :: 0 <= k < |s| ==> IsSpace(s[k])
  {
    TrimBothEnds(s);
    TrimEnd(TrimStart(s))
  }

  lemma TrimBothEnds(s: string)
    ensures var r := TrimEnd(TrimStart(s));
      && (r != [] ==> !IsSpace(r[0]))
      && (r == [] <==> forall k :: 0 <= k < |s| ==> IsSpace(s[k]))
  {
    var t := TrimStart(s);
    var r := TrimEnd(t);
    if r != [] {
      assert r[0] == t[0];
    }
    if t != [] {
      assert t[0] == s[|s| - |t|];
    }
  }

  function TrimStart(s: string): (r: string)
    ensures |r| <= |s| && r == s[|s| - |r|..]
    ensures r != [] ==> !IsSpace(r[0])
    ensures forall k :: 0 <= k < |s| - |r| ==> IsSpace(s[k])
  {
    if s != [] && IsSpace(s[0]) then TrimStart(s[1..]) else s
  }

  function TrimEnd(s: string): (r: string)
    ensures |r| <= |s| && r == s[..|r|]
    ensures r != [] ==> !IsSpace(r[|r| - 1])
    ensures forall k :: |r| <= k < |s| ==> IsSpace(s[k])
  {
    if s != [] && IsSpace(s[|s| - 1]) then TrimEnd(s[..|s| - 1]) else s
  }

  // ---------------------------------------------------------------------
  // Decimal numbers and identifiers

  predicate IsDigit(c: char) { '0' <= c <= '9' }

  predicate AllDigits(s: string) { forall i :: 0 <= i < |s| ==> IsDigit(s[i]) }

  function Digit(d: nat): (c: char)
    requires d < 10
    ensures IsDigit(c)
  {
    ('0' as int + d) as char
  }

  function DigitValue(c: char): nat
    requires IsDigit(c)
  {
    c as int - '0' as int
  }

  /** Number.prototype.toString for a non-negative integer. */
  function Decimal(n: nat): (s: string)
    ensures |s| >= 1 && AllDigits(s)
    ensures s[0] == '0' ==> n == 0
  {
    if n < 10 then [Digit(n)] else Decimal(n / 10) + [Digit(n % 10)]
  }

  /** The value of a string of decimal digits, most significant first. */
  function DecimalValue(s: string): nat
    requires AllDigits(s)
  {
    if s == [] then 0 else DecimalValue(s[..|s| - 1]) * 10 + DigitValue(s[|s| - 1])
  }

  lemma {:induction false} DecimalRoundTrip(n: nat)
    ensures DecimalValue(Decimal(n)) == n
  {
    if n >= 10 {
      DecimalRoundTrip(n / 10);
      var s := Decimal(n);
      assert s[..|s| - 1] == Decimal(n / 10);
    }
  }

  function Pow10(k: nat): (p: nat)
    ensures p >= 1
  {
    if k == 0 then 1 else 10 * Pow10(k - 1)
  }

  /** A number below 10^k is written with at most k digits. */
  lemma {:induction false} DecimalLength(n: nat, k: nat)
    requires 1 <= k && n < Pow10(k)
    ensures |Decimal(n)| <= k
  {
    if n >= 10 {
      assert n / 10 < Pow10(k - 1);
      DecimalLength(n / 10, k - 1);
    }
  }

  /** A number of at least 10^k is written with more than k digits. */
  lemma {:induction false} DecimalLengthAtLeast(n: nat, k: nat)
    requires n >= Pow10(k)
    ensures |Decimal(n)| > k
  {
    if k >= 1 {
      assert n / 10 >= Pow10(k - 1);
      DecimalLengthAtLeast(n / 10, k - 1);
    }
  }

  /** String.prototype.padStart(width, "0"). */
  function PadZeros(s: string, width: nat): (r: string)
    ensures |r| == Max(|s|, width)
    ensures r[|r| - |s|..] == s
    decreases width - |s|
  {
    if |s| >= width then s
    else
      var r := PadZeros("0" + s, width);
      assert r[|r| - |s|..] == r[|r| - |s| - 1..][1..];
      r
  }

  /** Leading zeros do not change the value of a digit string. */
  lemma {:induction false} PadZerosValue(s: string, width: nat)
    requires AllDigits(s)
    ensures AllDigits(PadZeros(s, width)) && DecimalValue(PadZeros(s, width)) == DecimalValue(s)
    decreases width - |s|
  {
    if |s| < width {
      LeadingZeroValue(s);
      PadZerosValue("0" + s, width);
    }
  }

  lemma {:induction false} LeadingZeroValue(s: string)
    requires AllDigits(s)
    ensures AllDigits("0" + s) && DecimalValue("0" + s) == DecimalValue(s)
    decreases |s|
  {
    if s != [] {
      var z := "0" + s;
      assert z[..|z| - 1] == "0" + s[..|s| - 1];
      LeadingZeroValue(s[..|s| - 1]);
    }
  }

  /** String.prototype.slice(-k) for k > 0: the last k characters, or all of them. */
  function Last(s: string, k: nat): (r: string)
    ensures |r| == Min(k, |s|) && r == s[|s| - |r|..]
  {
    s[|s| - Min(k, |s|)..]
  }

  /** Euclidean division is unique: any quotient and in-range remainder are
      the ones `/` and `%` give. */
  lemma DivModUnique(n: int, m: int, q: int, r: int)
    requires m > 0 && n == m * q + r && 0 <= r < m
    ensures n / m == q && n % m == r
  {
    var d, e := n / m, n % m;
    if q > d {
      MulAtLeast(m, q - d);
    } else if q < d {
      MulAtLeast(m, d - q);
    }
  }

  lemma {:induction false} MulAtLeast(m: nat, k: nat)
    requires k >= 1
    ensures m * k >= m
    decreases k
  {
    if k > 1 {
      MulAtLeast(m, k - 1);
      assert m * k == m * (k - 1) + m;
    }
  }

  /** Dropping the last digit, reducing modulo p, and putting the digit back
      reduces modulo 10p. */
  lemma ModShift(n: nat, p: nat)
    requires p >= 1
    ensures ((n / 10) % p) * 10 + n % 10 == n % (10 * p)
  {
    var a, b := (n / 10) / p, (n / 10) % p;
    assert n == 10 * (n / 10) + n % 10;
    assert n / 10 == p * a + b;
    assert n == (10 * p) * a + (10 * b + n % 10);
    DivModUnique(n, 10 * p, a, 10 * b + n % 10);
  }

  /** The last k decimal digits of n are digits and read back as n mod 10^k. */
  predicate LastDigitsReadBack(n: nat, k: nat)
  {
    AllDigits(Last(Decimal(n), k)) && DecimalValue(Last(Decimal(n), k)) == n % Pow10(k)
  }

  /** The last k digits of n, read as a number, are n modulo 10^k
      (`Date.now().toString().slice(-6)` keeps the timestamp modulo 10^6). */
  lemma {:induction false} LastDecimalValue(n: nat, k: nat)
    ensures LastDigitsReadBack(n, k)
    decreases k
  {
    if k >= 1 && n >= 10 {
      LastDecimalValue(n / 10, k - 1);
    }
    LastDecimalCases(n, k);
  }

  /** The cases of LastDecimalValue, given the claim for n / 10 and k - 1. */
  lemma LastDecimalCases(n: nat, k: nat)
    requires k >= 1 && n >= 10 ==> LastDigitsReadBack(n / 10, k - 1)
    ensures LastDigitsReadBack(n, k)
  {
    if k == 0 {
      LastOfNoDigits(n);
    } else if n < 10 {
      LastOfOneDigit(n, k);
    } else {
      LastDecimalStep(n, k);
    }
  }

  lemma LastOfNoDigits(n: nat)
    ensures AllDigits(Last(Decimal(n), 0)) && DecimalValue(Last(Decimal(n), 0)) == n % Pow10(0)
  {
    assert Last(Decimal(n), 0) == [];
  }

  /** A one-digit number is its own last k digits. */
  lemma LastOfOneDigit(n: nat, k: nat)
    requires n < 10 && k >= 1
    ensures AllDigits(Last(Decimal(n), k)) && DecimalValue(Last(Decimal(n), k)) == n % Pow10(k)
  {
    var s := Decimal(n);
    assert Last(s, k) == s == [Digit(n)];
    DecimalSnoc([], Digit(n));
    assert Pow10(k) == 10 * Pow10(k - 1);
    DivModUnique(n, Pow10(k), 0, n);
  }

  /** The last k digits of n are the last k - 1 digits of n / 10 followed
      by the last digit of n. */
  lemma LastDecimalStep(n: nat, k: nat)
    requires n >= 10 && k >= 1
    requires AllDigits(Last(Decimal(n / 10), k - 1))
    requires DecimalValue(Last(Decimal(n / 10), k - 1)) == (n / 10) % Pow10(k - 1)
    ensures AllDigits(Last(Decimal(n), k)) && DecimalValue(Last(Decimal(n), k)) == n % Pow10(k)
  {
    var h := Decimal(n / 10);
    var c := Digit(n % 10);
    assert Decimal(n) == h + [c];
    LastSnoc(h, c, k);
    DecimalSnoc(Last(h, k - 1), c);
    ModShift(n, Pow10(k - 1));
  }

  lemma LastSnoc(h: string, c: char, k: nat)
    requires k >= 1
    ensures Last(h + [c], k) == Last(h, k - 1) + [c]
  {
  }

  lemma DecimalSnoc(l: string, c: char)
    requires AllDigits(l) && IsDigit(c)
    ensures AllDigits(l + [c]) && DecimalValue(l + [c]) == DecimalValue(l) * 10 + DigitValue(c)
  {
    assert (l + [c])[..|l|] == l;
  }

  /** `${prefix}${n}`: a prefix followed by the decimal form of n. */
  function PrefixedId(prefix: string, n: nat): string
  {
    prefix + Decimal(n)
  }

  /** The id starts with its prefix, continues with digits only, and those
      digits spell n back. */
  lemma PrefixedIdFormat(prefix: string, n: nat)
    ensures var id := PrefixedId(prefix, n);
      && prefix <= id && |id| > |prefix|
      && AllDigits(id[|prefix|..]) && DecimalValue(id[|prefix|..]) == n
  {
    var id := PrefixedId(prefix, n);
    assert id[|prefix|..] == Decimal(n);
    DecimalRoundTrip(n);
  }

  /** The six-digit clock stamp of a stamped id: the last six digits of
      the clock reading. */
  lemma StampDigits(now: nat)
    ensures var stamp := Last(Decimal(now), 6);
      1 <= |stamp| <= 6 && AllDigits(stamp) && DecimalValue(stamp) == now % 1000000
  {
    assert Pow10(6) == 1000000 by {
      assert Pow10(2) == 100;
      assert Pow10(4) == 10000;
    }
    LastDecimalValue(now, 6);
  }

  /** A clock reading of six digits or more fills the whole stamp. */
  lemma FullClockStamp(now: nat)
    ensures now >= 100000 ==> |Decimal(now)| >= 6
  {
    if now >= 100000 {
      assert Pow10(5) == 100000 by {
        assert Pow10(2) == 100;
      }
      DecimalLengthAtLeast(now, 5);
    }
  }

  /** The three-digit random tail of a stamped id. */
  lemma TailDigits(rand: nat)
    requires rand < 1000
    ensures var tail := PadZeros(Decimal(rand), 3);
      |tail| == 3 && AllDigits(tail) && DecimalValue(tail) == rand
  {
    assert Pow10(3) == 1000 by {
      assert Pow10(2) == 100;
    }
    DecimalLength(rand, 3);
    PadZerosValue(Decimal(rand), 3);
    DecimalRoundTrip(rand);
  }

  /** [prefix] + stamp + tail splits back into its two digit groups. */
  lemma IdSplit(prefix: char, stamp: string, tail: string)
    ensures var id := [prefix] + stamp + tail;
      && id[0] == prefix && id[1..] == stamp + tail
      && id[1..|id| - |tail|] == stamp && id[|id| - |tail|..] == tail
  {
  }

  /** A prefix letter, the last six digits of a clock reading and a number
      below 1000 padded to three digits: the shape of transaction and user
      ids. */
  function StampedId(prefix: char, now: nat, rand: nat): (id: string)
    requires rand < 1000
    ensures 5 <= |id| <= 10 && id[0] == prefix && AllDigits(id[1..])
    ensures |id| == 4 + Min(6, |Decimal(now)|)
    ensures now >= 100000 ==> |id| == 10
  {
    var stamp := Last(Decimal(now), 6);
    var tail := PadZeros(Decimal(rand), 3);
    FullClockStamp(now);
    StampDigits(now);
    TailDigits(rand);
    IdSplit(prefix, stamp, tail);
    [prefix] + stamp + tail
  }

  /** A stamped id reads back as its two numbers: the digits before the last
      three give the clock reading modulo 1000000, the last three give the
      random number. */
  lemma StampedIdValue(prefix: char, now: nat, rand: nat)
    requires rand < 1000
    ensures var id := StampedId(prefix, now, rand);
      && AllDigits(id[1..|id| - 3]) && DecimalValue(id[1..|id| - 3]) == now % 1000000
      && AllDigits(id[|id| - 3..]) && DecimalValue(id[|id| - 3..]) == rand
  {
    var stamp := Last(Decimal(now), 6);
    var tail := PadZeros(Decimal(rand), 3);
    StampDigits(now);
    TailDigits(rand);
    IdSplit(prefix, stamp, tail);
  }

  // ---------------------------------------------------------------------
  // List operations

  /** Array.prototype.filter. */
  function Filter<T>(s: seq<T>, keep: T -> bool): (r: seq<T>)
    ensures |r| <= |s|
    ensures forall x :: x in r ==> x in s && keep(x)
    ensures forall i :: 0 <= i < |s| && keep(s[i]) ==> s[i] in r
  {
    if s == [] then []
    else (if keep(s[0]) then [s[0]] else []) + Filter(s[1..], keep)
  }

  /** Filtering preserves order: it distributes over concatenation. */
  lemma {:induction false} FilterAppend<T>(a: seq<T>, b: seq<T>, keep: T -> bool)
    ensures Filter(a + b, keep) == Filter(a, keep) + Filter(b, keep)
    decreases |a|
  {
    if a != [] {
      assert (a + b)[1..] == a[1..] + b;
      FilterAppend(a[1..], b, keep);
    } else {
      assert a + b == b;
    }
  }

  /** Filtering twice by the same test is filtering once. */
  lemma {:induction false} FilterIdempotent<T>(s: seq<T>, keep: T -> bool)
    ensures Filter(Filter(s, keep), keep) == Filter(s, keep)
    decreases |s|
  {
    if s != [] {
      FilterIdempotent(s[1..], keep);
      var f := Filter(s[1..], keep);
      if keep(s[0]) {
        assert Filter(s, keep) == [s[0]] + f;
        assert ([s[0]] + f)[1..] == f;
        assert Filter([s[0]] + f, keep) == [s[0]] + Filter(f, keep);
      } else {
        assert Filter(s, keep) == f;
      }
    }
  }

  /** The number of elements satisfying p, counted from the end (the order a
      forEach accumulation reaches them). */
  function Count<T>(s: seq<T>, p: T -> bool): nat
  {
    if s == [] then 0 else Count(s[..|s| - 1], p) + (if p(s[|s| - 1]) then 1 else 0)
  }

  /** `filter(p).length` and the counter agree. */
  lemma {:induction false} CountIsFilterLength<T>(s: seq<T>, p: T -> bool)
    ensures Count(s, p) == |Filter(s, p)|
    decreases |s|
  {
    if s != [] {
      var init, last := s[..|s| - 1], s[|s| - 1];
      assert s == init + [last];
      CountIsFilterLength(init, p);
      FilterAppend(init, [last], p);
      assert Filter([last], p) == (if p(last) then [last] else []) + Filter([last][1..], p);
    }
  }

  lemma {:induction false} CountAppend<T>(s: seq<T>, x: T, p: T -> bool)
    ensures Count(s + [x], p) == Count(s, p) + (if p(x) then 1 else 0)
  {
    assert (s + [x])[..|s|] == s;
  }

  /** Overwriting one element changes the count by that element alone. */
  lemma {:induction false} CountUpdate<T>(s: seq<T>, i: nat, x: T, p: T -> bool)
    requires i < |s|
    ensures Count(s[i := x], p) + (if p(s[i]) then 1 else 0) == Count(s, p) + (if p(x) then 1 else 0)
    decreases |s|
  {
    var n := |s| - 1;
    if i < n {
      CountUpdate(s[..n], i, x, p);
      assert s[i := x][..n] == s[..n][i := x];
    } else {
      assert s[i := x][..n] == s[..n];
    }
  }

  /** Counts agree when p holds at the same positions of two lists. */
  lemma {:induction false} CountSamePositions<T>(s: seq<T>, u: seq<T>, p: T -> bool)
    requires |s| == |u|
    requires forall i :: 0 <= i < |s| ==> p(s[i]) == p(u[i])
    ensures Count(s, p) == Count(u, p)
    decreases |s|
  {
    if s != [] {
      CountSamePositions(s[..|s| - 1], u[..|u| - 1], p);
    }
  }

  /** A positive count has a witness. */
  lemma {:induction false} CountWitness<T>(s: seq<T>, p: T -> bool)
    requires Count(s, p) > 0
    ensures exists j :: 0 <= j < |s| && p(s[j])
    decreases |s|
  {
    if !p(s[|s| - 1]) {
      CountWitness(s[..|s| - 1], p);
      var j :| 0 <= j < |s| - 1 && p(s[..|s| - 1][j]);
      assert s[j] == s[..|s| - 1][j];
    }
  }

  /** Without a satisfying element, the count is zero. */
  lemma {:induction false} CountNone<T>(s: seq<T>, p: T -> bool)
    requires forall j :: 0 <= j < |s| ==> !p(s[j])
    ensures Count(s, p) == 0
    decreases |s|
  {
    if s != [] {
      CountNone(s[..|s| - 1], p);
    }
  }

  /** Array.prototype.findIndex: the first position satisfying p, or -1. */
  function FirstIndex<T>(s: seq<T>, p: T -> bool): (i: int)
    ensures -1 <= i < |s|
    ensures 0 <= i ==> p(s[i]) && forall j :: 0 <= j < i ==> !p(s[j])
    ensures i < 0 ==> forall j :: 0 <= j < |s| ==> !p(s[j])
  {
    if s == [] then -1
    else if p(s[0]) then 0
    else
      var k := FirstIndex(s[1..], p);
      if k < 0 then -1 else k + 1
  }

  /** Array.prototype.slice(0, n). */
  function Take<T>(s: seq<T>, n: nat): (r: seq<T>)
    ensures |r| == Min(n, |s|) && r == s[..|r|]
  {
    s[..Min(n, |s|)]
  }

  function Reverse<T>(s: seq<T>): (r: seq<T>)
    ensures |r| == |s|
    ensures forall k :: 0 <= k < |s| ==> r[k] == s[|s| - 1 - k]
  {
    if s == [] then [] else Reverse(s[1..]) + [s[0]]
  }

  predicate SortedDesc<T>(s: seq<T>, key: T -> int)
  {
    forall i, j :: 0 <= i < j < |s| ==> key(s[i]) >= key(s[j])
  }

  /** Inserts x into a list sorted by non-increasing key, ahead of the
      elements whose key is not larger (they came after x in the input). */
  function Insert<T>(x: T, s: seq<T>, key: T -> int): (r: seq<T>)
    requires SortedDesc(s, key)
    ensures |r| == |s| + 1 && SortedDesc(r, key)
    ensures key(r[0]) == if s == [] then key(x) else Max(key(x), key(s[0]))
    ensures multiset(r) == multiset(s) + multiset{x}
  {
    if s == [] || key(s[0]) <= key(x) then
      ConsSorted(x, s, key);
      [x] + s
    else
      var rest := Insert(x, s[1..], key);
      InsertStep(x, s, key, rest);
      [s[0]] + rest
  }

  /** The recursive case of Insert: the head stays in front of the rest
      with x inserted. */
  lemma InsertStep<T>(x: T, s: seq<T>, key: T -> int, rest: seq<T>)
    requires s != [] && key(s[0]) > key(x) && SortedDesc(s, key)
    requires |rest| == |s| && SortedDesc(rest, key)
    requires key(rest[0]) == if |s| == 1 then key(x) else Max(key(x), key(s[1]))
    requires multiset(rest) == multiset(s[1..]) + multiset{x}
    ensures var r := [s[0]] + rest;
      && |r| == |s| + 1 && SortedDesc(r, key)
      && key(r[0]) == Max(key(x), key(s[0]))
      && multiset(r) == multiset(s) + multiset{x}
  {
    assert s == [s[0]] + s[1..];
    assert multiset(s) == multiset{s[0]} + multiset(s[1..]);
    ConsSorted(s[0], rest, key);
  }

  /** An element no smaller than the head of a sorted list can go in front. */
  lemma ConsSorted<T>(h: T, rest: seq<T>, key: T -> int)
    requires SortedDesc(rest, key) && (rest != [] ==> key(rest[0]) <= key(h))
    ensures SortedDesc([h] + rest, key)
  {
    var r := [h] + rest;
    forall i, j | 0 <= i < j < |r| ensures key(r[i]) >= key(r[j]) {
      assert r[j] == rest[j - 1];
      if i > 0 {
        assert r[i] == rest[i - 1];
      } else if j > 1 {
        assert key(rest[0]) >= key(rest[j - 1]);
      }
    }
  }

  /** Array.prototype.sort with the comparator (a, b) => key(b) - key(a):
      a stable sort by non-increasing key (insertion sort). */
  function SortDesc<T>(s: seq<T>, key: T -> int): (r: seq<T>)
    ensures |r| == |s| && SortedDesc(r, key)
    ensures multiset(r) == multiset(s)
  {
    if s == [] then []
    else
      assert s == [s[0]] + s[1..];
      Insert(s[0], SortDesc(s[1..], key), key)
  }

  /** The first k of a sorted copy are sorted and drawn from the input. */
  lemma SortedPrefix<T>(s: seq<T>, key: T -> int, k: nat)
    ensures var r := Take(SortDesc(s, key), k);
      SortedDesc(r, key) && multiset(r) <= multiset(s) && forall x :: x in r ==> x in s
  {
    var sorted := SortDesc(s, key);
    var r := Take(sorted, k);
    TakeSubBag(sorted, k);
    forall x | x in r ensures x in s {
      assert x in multiset(r) && multiset(r) <= multiset(s);
      assert x in multiset(s);
    }
  }

  /** A prefix holds no element more often than the whole list. */
  lemma TakeSubBag<T>(s: seq<T>, n: nat)
    ensures multiset(Take(s, n)) <= multiset(s)
  {
    var r := Take(s, n);
    assert s == r + s[|r|..];
  }

  /** `sort(...).slice(0, k)` keeps the k largest: every element is either
      among those kept, or the list is full and its key is at most the last
      kept key. */
  lemma TopOfSorted<T>(s: seq<T>, key: T -> int, k: nat)
    requires k >= 1
    ensures var r := Take(SortDesc(s, key), k);
      forall x :: x in s ==> x in r || (|r| == k && key(x) <= key(r[k - 1]))
  {
    var sorted := SortDesc(s, key);
    var r := Take(sorted, k);
    forall x | x in s ensures x in r || (|r| == k && key(x) <= key(r[k - 1])) {
      assert x in multiset(sorted);
      var p :| 0 <= p < |sorted| && sorted[p] == x;
      if p < k {
        assert r[p] == x;
      } else {
        assert key(sorted[k - 1]) >= key(sorted[p]);
      }
    }
  }
}
