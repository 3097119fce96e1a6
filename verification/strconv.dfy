/** Decimal integer parsing as Go's `strconv.ParseInt(s, 10, 64)` does it, and
    `strconv.Atoi`, which on a 64-bit platform accepts and rejects exactly the
    same strings. Both report an error, and nothing else, for a malformed or
    out-of-range argument; the model returns `None` there. */
module Strconv {
  import opened Wrappers
  import opened Strings

  newtype int64 = x: int | -0x8000_0000_0000_0000 <= x < 0x8000_0000_0000_0000

  const MaxUint64: nat := 0xffff_ffff_ffff_ffff
  /** `maxUint64/10 + 1`: an accumulator at or above it overflows when multiplied by ten. */
  const Cutoff: nat := MaxUint64 / 10 + 1
  /** `1 << 63`, the magnitude bound of a signed 64-bit result. */
  const SignedCutoff: nat := 0x8000_0000_0000_0000

  const Plus: byte := 43
  const Minus: byte := 45

  predicate IsDigit(b: byte) {
    48 <= b <= 57
  }

  predicate AllDigits(s: seq<byte>) {
    forall i :: 0 <= i < |s| ==> IsDigit(s[i])
  }

  /** The mathematical value of a string of decimal digits. */
  function DigitsValue(ds: seq<byte>): nat
    requires AllDigits(ds)
    decreases |ds|
  {
    if |ds| == 0 then 0
    else DigitsValue(ds[..|ds| - 1]) * 10 + (ds[|ds| - 1] - 48) as int
  }

  /** The digits after an optional leading sign. */
  function Magnitude(s: seq<byte>): seq<byte> {
    if |s| > 0 && (s[0] == Plus || s[0] == Minus) then s[1..] else s
  }

  /** The accepted grammar: an optional `+` or `-`, then one or more ASCII digits. */
  predicate WellFormed(s: seq<byte>) {
    |Magnitude(s)| > 0 && AllDigits(Magnitude(s))
  }

  function SignedValue(s: seq<byte>): int
    requires WellFormed(s)
  {
    if s[0] == Minus then -(DigitsValue(Magnitude(s)) as int) else DigitsValue(Magnitude(s))
  }

  lemma {:induction false} DigitsPrefixBound(ds: seq<byte>, k: nat)
    requires AllDigits(ds) && k <= |ds|
    ensures DigitsValue(ds[..k]) <= DigitsValue(ds)
    decreases |ds|
  {
    if k < |ds| {
      var init := ds[..|ds| - 1];
      DigitsPrefixBound(init, k);
      assert init[..k] == ds[..k];
    } else {
      assert ds[..k] == ds;
    }
  }

  /** The digit loop of `ParseUint`: `n` is the value of the digits before
      position `i`. A non-digit is a syntax error; an accumulator at or above
      `Cutoff`, or a step past `MaxUint64` (where Go's `n1 < n` catches the
      wrap-around), is a range error. */
  function Accumulate(ds: seq<byte>, i: nat, n: nat): (r: Option<nat>)
    requires i <= |ds| && AllDigits(ds[..i]) && n == DigitsValue(ds[..i])
    requires n <= MaxUint64
    ensures r.Some? <==> AllDigits(ds) && DigitsValue(ds) <= MaxUint64
    ensures r.Some? ==> r.value == DigitsValue(ds)
    decreases |ds| - i
  {
    if i == |ds| then
      assert ds[..i] == ds;
      Some(n)
    else if !IsDigit(ds[i]) then
      None
    else
      var d := (ds[i] - 48) as int;
      assert ds[..i + 1][..i] == ds[..i];
      assert DigitsValue(ds[..i + 1]) == n * 10 + d;
      if n >= Cutoff then
        DigitsPrefixBoundIfDigits(ds, i + 1);
        None
      else if n * 10 + d > MaxUint64 then
        DigitsPrefixBoundIfDigits(ds, i + 1);
        None
      else
        Accumulate(ds, i + 1, n * 10 + d)
  }

  /** Once a digit prefix exceeds `MaxUint64`, so does the whole string, if it is all digits. */
  lemma DigitsPrefixBoundIfDigits(ds: seq<byte>, k: nat)
    requires k <= |ds| && AllDigits(ds[..k])
    ensures AllDigits(ds) ==> DigitsValue(ds[..k]) <= DigitsValue(ds)
  {
    if AllDigits(ds) {
      DigitsPrefixBound(ds, k);
    }
  }

  /** `strconv.ParseUint(s, 10, 64)`: an empty string is a syntax error. */
  function ParseUint(s: seq<byte>): (r: Option<nat>)
    ensures r.Some? <==> |s| > 0 && AllDigits(s) && DigitsValue(s) <= MaxUint64
    ensures r.Some? ==> r.value == DigitsValue(s)
  {
    if |s| == 0 then None
    else
      assert s[..0] == [];
      Accumulate(s, 0, 0)
  }

  /** `strconv.ParseInt(s, 10, 64)`: strip one sign, parse the magnitude
      unsigned, then reject magnitudes beyond the signed range. */
  function ParseInt(s: seq<byte>): (r: Option<int64>)
    ensures r.Some? <==> WellFormed(s) && -0x8000_0000_0000_0000 <= SignedValue(s) < 0x8000_0000_0000_0000
    ensures r.Some? ==> r.value as int == SignedValue(s)
  {
    if |s| == 0 then None
    else
      var neg := s[0] == Minus;
      match ParseUint(Magnitude(s))
      case None => None
      case Some(u) =>
        if !neg && u >= SignedCutoff then None
        else if neg && u > SignedCutoff then None
        else if neg then Some(-(u as int) as int64)
        else Some(u as int64)
  }

  /** `10^k`. */
  function Pow10(k: nat): (p: nat)
    ensures p >= 1
  {
    if k == 0 then 1 else 10 * Pow10(k - 1)
  }

  /** `k` decimal digits stay below `10^k`. */
  lemma {:induction false} DigitsBelowPow10(ds: seq<byte>)
    requires AllDigits(ds)
    ensures DigitsValue(ds) < Pow10(|ds|)
    decreases |ds|
  {
    if |ds| > 0 {
      DigitsBelowPow10(ds[..|ds| - 1]);
    }
  }

  /** The digit loop of `Atoi`'s fast path: `ch -= '0'` on a byte wraps
      below '0', so `ch > 9` rejects every non-digit; `n = n*10 + ch` cannot
      overflow because the fast path sees at most 18 digits. */
  function FastDigits(ds: seq<byte>, i: nat, n: nat): (r: Option<nat>)
    requires i <= |ds| && AllDigits(ds[..i]) && n == DigitsValue(ds[..i])
    ensures r.Some? <==> AllDigits(ds)
    ensures r.Some? ==> r.value == DigitsValue(ds)
    decreases |ds| - i
  {
    if i == |ds| then
      assert ds[..i] == ds;
      Some(n)
    else if !IsDigit(ds[i]) then
      None
    else
      assert ds[..i + 1][..i] == ds[..i];
      FastDigits(ds, i + 1, n * 10 + (ds[i] - 48) as int)
  }

  /** `strconv.Atoi(s)` with a 64-bit `int`. A string of 1 to 18 bytes takes
      the fast path: one optional sign, at least one byte after it, and only
      digits. Any other string is handed to `ParseInt(s, 10, 0)`, which on a
      64-bit platform is `ParseInt(s, 10, 64)`. Either way Atoi accepts
      exactly the well-formed strings whose value fits in 64 bits, and agrees
      with `ParseInt`. */
  function Atoi(s: seq<byte>): (r: Option<int64>)
    ensures r.Some? <==> WellFormed(s) && -0x8000_0000_0000_0000 <= SignedValue(s) < 0x8000_0000_0000_0000
    ensures r.Some? ==> r.value as int == SignedValue(s)
    ensures r == ParseInt(s)
  {
    if 0 < |s| < 19 then
      var body := Magnitude(s);
      if |body| < 1 then None
      else
        assert body[..0] == [];
        match FastDigits(body, 0, 0)
        case None => None
        case Some(n) =>
          DigitsBelowPow10(body);
          Pow10Eighteen();
          Pow10Monotone(|body|, 18);
          if s[0] == Minus then Some(-(n as int) as int64) else Some(n as int64)
    else
      ParseInt(s)
  }

  lemma Pow10Eighteen()
    ensures Pow10(18) == 1_000_000_000_000_000_000
  {
    assert Pow10(3) == 1000;
    assert Pow10(6) == 1000000;
    assert Pow10(9) == 1000000000;
    assert Pow10(12) == 1000000000000;
    assert Pow10(15) == 1000000000000000;
  }

  lemma {:induction false} Pow10Monotone(j: nat, k: nat)
    requires j <= k
    ensures Pow10(j) <= Pow10(k)
    decreases k
  {
    if j < k {
      Pow10Monotone(j, k - 1);
    }
  }

  /** The decimal digits of a natural number, most significant first, with no leading zero. */
  function FormatUint(n: nat): (r: seq<byte>)
    ensures |r| > 0 && AllDigits(r)
    ensures DigitsValue(r) == n
    decreases n
  {
    var last := [(n % 10 + 48) as byte];
    if n < 10 then last
    else
      var init := FormatUint(n / 10);
      var r := init + last;
      assert r[..|r| - 1] == init;
      r
  }

  /** `strconv.FormatInt(n, 10)`: a `-` before the magnitude of a negative number. */
  function FormatInt(n: int64): (r: seq<byte>)
    ensures |r| > 0
  {
    if n < 0 then [Minus] + FormatUint(-(n as int)) else FormatUint(n as int)
  }

  /** Every 64-bit integer survives formatting and parsing unchanged. */
  lemma ParseFormatInt(n: int64)
    ensures ParseInt(FormatInt(n)) == Some(n)
  {
    var s := FormatInt(n);
    if n < 0 {
      var m := FormatUint(-(n as int));
      assert s[0] == Minus && s[1..] == m;
      assert Magnitude(s) == m;
      assert SignedValue(s) == n as int;
    } else {
      assert IsDigit(s[0]);
      assert Magnitude(s) == s;
      assert SignedValue(s) == n as int;
    }
  }
}
