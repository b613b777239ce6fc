/** Whole numbers in decimal: printing them, and reading them as strtol does. */
module Decimals {
  import opened Json
  import opened JsonText

  function Decimal(n: nat): string {
    (if n < 10 then "" else Decimal(n / 10)) + ["0123456789"[n % 10]]
  }

  predicate IsDigit(c: char) { '0' <= c <= '9' }

  function DigitValue(c: char): nat
    requires IsDigit(c)
  {
    c as int - '0' as int
  }

  /** The end of the digits from a position on. */
  function DigitsEnd(t: string, p: nat): (e: nat)
    requires p <= |t|
    ensures p <= e <= |t|
    decreases |t| - p
  {
    if p < |t| && IsDigit(t[p]) then DigitsEnd(t, p + 1) else p
  }

  /** Their value, after the digits read before. */
  function DigitsFrom(t: string, p: nat, sofar: nat): nat
    requires p <= |t|
    decreases |t| - p
  {
    if p < |t| && IsDigit(t[p]) then DigitsFrom(t, p + 1, sofar * 10 + DigitValue(t[p])) else sofar
  }

  predicate Signed(t: string, p: nat) { p < |t| && (t[p] == '-' || t[p] == '+') }

  function SignEnd(t: string, p: nat): (r: nat)
    requires p <= |t|
    ensures p <= r <= |t|
  {
    var q := SkipWs(t, p, |t|);
    if Signed(t, q) then q + 1 else q
  }

  /** strtol in base ten, without its saturation: blanks, a sign, digits; no digits are 0. */
  function NumberAt(t: string, p: nat): int
    requires p <= |t|
  {
    var q, n: int := SkipWs(t, p, |t|), DigitsFrom(t, SignEnd(t, p), 0);
    if q < |t| && t[q] == '-' then -n else n
  }

  /** Where strtol stops; at its start if there is no digit. */
  function NumberEnd(t: string, p: nat): nat
    requires p <= |t|
  {
    var r := SignEnd(t, p);
    if DigitsEnd(t, r) == r then p else DigitsEnd(t, r)
  }

  /** A number read under a key, or a default. */
  function GetLong(t: string, start: nat, end: nat, key: string, default: int): int
    requires end <= |t|
  {
    match Find(t, start, end, key)
    case None => default
    case Some(v) => NumberAt(t, v)
  }

  predicate WordAt(t: string, p: nat, end: nat, word: string)
    requires end <= |t|
  {
    p + |word| <= end && t[p..p + |word|] == word
  }

  /** A truth value read under a key, or a default. */
  function GetBool(t: string, start: nat, end: nat, key: string, default: int): int
    requires end <= |t|
  {
    match Find(t, start, end, key)
    case None => default
    case Some(v) => if WordAt(t, v, end, "true") then 1 else if WordAt(t, v, end, "false") then 0 else default
  }

  method ReadNumber(t: string, p: nat) returns (n: int)
    requires p <= |t|
    ensures n == NumberAt(t, p)
  {
    var q := p;
    while q < |t| && IsSpace(t[q])
      invariant p <= q <= |t| && SkipWs(t, p, |t|) == SkipWs(t, q, |t|)
    {
      q := q + 1;
    }
    var negative := q < |t| && t[q] == '-';
    if Signed(t, q) {
      q := q + 1;
    }
    ghost var start := q;
    n := 0;
    while q < |t| && IsDigit(t[q])
      invariant start <= q <= |t| && n >= 0 && DigitsFrom(t, start, 0) == DigitsFrom(t, q, n)
    {
      n := n * 10 + DigitValue(t[q]);
      q := q + 1;
    }
    return if negative then -n else n;
  }

  method FindLong(t: string, start: nat, end: nat, key: string, default: int) returns (n: int)
    requires end <= |t|
    ensures n == GetLong(t, start, end, key, default)
  {
    var v := FindKeyValue(t, start, end, key);
    if v.None? {
      return default;
    }
    n := ReadNumber(t, v.value);
  }

  method FindBool(t: string, start: nat, end: nat, key: string, default: int) returns (n: int)
    requires end <= |t|
    ensures n == GetBool(t, start, end, key, default)
  {
    var v := FindKeyValue(t, start, end, key);
    if v.None? {
      return default;
    }
    var p := v.value;
    if end - p >= 4 && t[p..p + 4] == "true" {
      return 1;
    }
    if end - p >= 5 && t[p..p + 5] == "false" {
      return 0;
    }
    return default;
  }

  // ---------- what was printed reads back ----------

  function Eval(s: string, sofar: nat): nat
    requires forall c | c in s :: IsDigit(c)
    decreases |s|
  {
    if s == "" then sofar else assert s[0] in s; Eval(s[1..], sofar * 10 + DigitValue(s[0]))
  }

  lemma {:induction false} EvalSnoc(s: string, c: char, sofar: nat)
    requires IsDigit(c) && forall d | d in s :: IsDigit(d)
    ensures (forall d | d in s + [c] :: IsDigit(d)) && Eval(s + [c], sofar) == Eval(s, sofar) * 10 + DigitValue(c)
    decreases |s|
  {
    if s != "" {
      assert s[0] in s && (s + [c])[1..] == s[1..] + [c];
      EvalSnoc(s[1..], c, sofar * 10 + DigitValue(s[0]));
    } else {
      assert [c][1..] == "";
    }
  }

  lemma {:induction false} DecimalIs(n: nat)
    ensures Decimal(n) != "" && (forall c | c in Decimal(n) :: IsDigit(c)) && Eval(Decimal(n), 0) == n
  {
    var c := "0123456789"[n % 10];
    assert IsDigit(c) && DigitValue(c) == n % 10;
    if n >= 10 {
      DecimalIs(n / 10);
      EvalSnoc(Decimal(n / 10), c, 0);
    } else {
      assert "" + [c] == [c];
      EvalSnoc("", c, 0);
    }
  }

  lemma {:induction false} DigitsRun(t: string, p: nat, s: string, sofar: nat)
    requires Has(t, p, s) && (forall c | c in s :: IsDigit(c)) && p + |s| < |t| && !IsDigit(t[p + |s|])
    ensures DigitsFrom(t, p, sofar) == Eval(s, sofar)
    decreases |s|
  {
    if s != "" {
      HasChar(t, p, s, 0);
      assert s[0] in s && [s[0]] + s[1..] == s;
      HasAppend(t, p, [s[0]], s[1..]);
      DigitsRun(t, p + 1, s[1..], sofar * 10 + DigitValue(s[0]));
    }
  }

  /** A printed number reads back as itself before anything that is no digit. */
  lemma DecimalReads(t: string, p: nat, n: nat)
    requires Has(t, p, Decimal(n)) && p + |Decimal(n)| < |t| && !IsDigit(t[p + |Decimal(n)|])
    ensures NumberAt(t, p) == n
  {
    DecimalIs(n);
    HasChar(t, p, Decimal(n), 0);
    assert Decimal(n)[0] in Decimal(n);
    assert SkipWs(t, p, |t|) == p;
    DigitsRun(t, p, Decimal(n), 0);
  }
}
