/** The strings the state files may hold, written out character by character, and that the loaders' checks accept just these. */
module LegalStrings {
  import opened Json
  import opened JsonText
  import opened Decimals
  import opened TextUiChecks

  const CAPITALS: set<char> := {
    'A', 'B', 'C', 'D', 'E', 'F', 'G', 'H', 'I', 'J', 'K', 'L', 'M', 'N', 'O', 'P', 'Q', 'R', 'S', 'T', 'U', 'V', 'W', 'X', 'Y', 'Z'
  }
  const SMALLS: set<char> := {
    'a', 'b', 'c', 'd', 'e', 'f', 'g', 'h', 'i', 'j', 'k', 'l', 'm', 'n', 'o', 'p', 'q', 'r', 's', 't', 'u', 'v', 'w', 'x', 'y', 'z'
  }
  const DIGITS: set<char> := {'0', '1', '2', '3', '4', '5', '6', '7', '8', '9'}
  const BLANKS: set<char> := {' ', '\t', '\n', '\r', '\U{000B}', '\U{000C}'}

  predicate WordOf(s: string, chars: set<char>) { s != "" && forall c | c in s :: c in chars }

  predicate SystemId(s: string) { WordOf(s, CAPITALS + SMALLS + DIGITS + {'_', '-'}) }

  predicate ProfileId(s: string) { WordOf(s, CAPITALS + SMALLS + DIGITS + {'_', '-', ':', '.'}) }

  predicate CpuPolicy(s: string) { s in ["interactive", "performance", "ondemand", "schedutil", "conservative"] }

  predicate AudioDriver(s: string) { s in ["oss", "alsa", "alsathread", "mmf_ao"] }

  predicate TruthWord(s: string) { s in ["true", "false"] }

  /** A path inside a directory: it does not climb, nor does any of its directory names end or any later name begin with two dots. */
  predicate RomPath(s: string) {
    && s != "" && s[0] != '/' && s != ".."
    && (forall i | 0 <= i < |s| - 2 :: !(s[i] == '.' && s[i + 1] == '.' && s[i + 2] == '/'))
    && (forall i | 0 <= i < |s| - 2 :: !(s[i] == '/' && s[i + 1] == '.' && s[i + 2] == '.'))
  }

  predicate ContentSuffix(s: string) {
    |s| >= 2 && s[0] == '#' && RomPath(s[1..]) && forall i | 1 <= i < |s| :: s[i] as int >= 32 && s[i] as int != 127 && s[i] != '#'
  }

  /** No control character but backspace, tab, line feed, form feed and carriage return. */
  predicate NoneLost(s: string) { forall c | c in s :: c as int >= 32 || c as int in {8, 9, 10, 12, 13} }

  /** What a row of digits counts. */
  function Worth(s: string): nat
    requires forall c | c in s :: c in DIGITS
  {
    if s == "" then 0
    else
      assert s[|s| - 1] in DIGITS;
      10 * Worth(s[..|s| - 1]) + (s[|s| - 1] as int - 48)
  }

  function Unblanked(s: string): string { if s != "" && s[0] in BLANKS then Unblanked(s[1..]) else s }

  function Unsigned(s: string): string { if s != "" && s[0] == '+' then s[1..] else s }

  /** "auto", "max", or a number from 1 to a million, behind any blanks and a plus sign. */
  predicate CycleCount(s: string) {
    var digits := Unsigned(Unblanked(s));
    s in ["auto", "max"] || (WordOf(digits, DIGITS) && 1 <= Worth(digits) <= 1000000)
  }

  // ---------- the loaders' checks ----------

  lemma LettersAndDigits(c: char)
    ensures Alphanumeric(c) <==> c in CAPITALS || c in SMALLS || c in DIGITS
    ensures IsDigit(c) <==> c in DIGITS
  {
    SmallLetters(c);
    CapitalLetters(c);
    Digits(c);
    hide CAPITALS, SMALLS, DIGITS;
  }

  lemma SmallLetters(c: char)
    ensures 'a' <= c <= 'z' <==> c in SMALLS
  {
    if 'a' <= c <= 'z' {
      assert c as int in {97, 98, 99, 100, 101, 102, 103, 104, 105, 106, 107, 108, 109, 110, 111, 112, 113, 114, 115, 116, 117, 118, 119, 120, 121, 122};
    }
  }

  lemma CapitalLetters(c: char)
    ensures 'A' <= c <= 'Z' <==> c in CAPITALS
  {
    if 'A' <= c <= 'Z' {
      assert c as int in {65, 66, 67, 68, 69, 70, 71, 72, 73, 74, 75, 76, 77, 78, 79, 80, 81, 82, 83, 84, 85, 86, 87, 88, 89, 90};
    }
  }

  lemma Digits(c: char)
    ensures '0' <= c <= '9' <==> c in DIGITS
  {
    if '0' <= c <= '9' {
      assert c as int in {48, 49, 50, 51, 52, 53, 54, 55, 56, 57};
    }
  }

  lemma SystemIff(s: string)
    ensures ValidSystem(s) <==> SystemId(s)
  {
    hide Alphanumeric;
    forall c | c in s ensures Alphanumeric(c) <==> c in CAPITALS || c in SMALLS || c in DIGITS { LettersAndDigits(c); }
  }

  lemma ProfileIff(s: string)
    ensures ValidProfile(s) <==> ProfileId(s)
  {
    hide Alphanumeric;
    forall c | c in s ensures Alphanumeric(c) <==> c in CAPITALS || c in SMALLS || c in DIGITS { LettersAndDigits(c); }
  }

  lemma PolicyIff(s: string)
    ensures ValidPolicy(s) <==> CpuPolicy(s)
  {}

  lemma DriverIff(s: string)
    ensures ValidDriver(s) <==> AudioDriver(s)
  {}

  lemma TruthIff(s: string)
    ensures ValidTruth(s) <==> TruthWord(s)
  {}

  lemma HasThree(s: string, i: nat, part: string)
    requires |part| == 3
    ensures Has(s, i, part) <==> i + 3 <= |s| && s[i] == part[0] && s[i + 1] == part[1] && s[i + 2] == part[2]
  {
    if i + 3 <= |s| && s[i] == part[0] && s[i + 1] == part[1] && s[i + 2] == part[2] {
      assert s[i..i + 3] == part;
    }
    if Has(s, i, part) {
      HasChar(s, i, part, 0);
      HasChar(s, i, part, 1);
      HasChar(s, i, part, 2);
    }
  }

  lemma HoldsIff(s: string, part: string)
    requires |part| == 3
    ensures Holds(s, part) <==> exists i :: 0 <= i < |s| - 2 && s[i] == part[0] && s[i + 1] == part[1] && s[i + 2] == part[2]
  {
    hide Has;
    if Holds(s, part) {
      var i :| 0 <= i <= |s| && Has(s, i, part);
      HasThree(s, i, part);
    }
    if i :| 0 <= i < |s| - 2 && s[i] == part[0] && s[i + 1] == part[1] && s[i + 2] == part[2] {
      HasThree(s, i, part);
    }
  }

  lemma PathIff(s: string)
    ensures ValidPath(s) <==> RomPath(s)
  {
    hide Holds;
    HoldsIff(s, "../");
    HoldsIff(s, "/..");
  }

  lemma SuffixIff(s: string)
    ensures ValidSuffix(s) <==> ContentSuffix(s)
  {
    hide ValidPath, RomPath;
    if |s| > 1 {
      PathIff(s[1..]);
      BodyIs(s);
    }
  }

  lemma BodyIs(s: string)
    requires |s| > 1
    ensures ValidSuffix(s) <==> s[0] == '#' && ValidPath(s[1..]) && forall i | 1 <= i < |s| :: s[i] >= ' ' && s[i] != '\U{007F}' && s[i] != '#'
  {
    hide Holds;
    forall i | 1 <= i < |s| ensures s[i] in s[1..] { assert s[1..][i - 1] == s[i]; }
  }

  lemma NoneLostIff(s: string)
    ensures Clean(TextUi, s) <==> NoneLost(s)
  {
    forall c ensures Lost(TextUi, c) <==> !(c as int >= 32 || c as int in {8, 9, 10, 12, 13}) {}
  }

  // ---------- numbers ----------

  lemma BlankIff(c: char)
    ensures IsSpace(c) <==> c in BLANKS
  {
    if '\t' <= c <= '\r' { assert c as int in {9, 10, 11, 12, 13}; }
  }

  lemma {:induction false} BlanksSkipped(s: string, p: nat)
    requires p <= |s|
    ensures s[SkipWs(s, p, |s|)..] == Unblanked(s[p..])
    decreases |s| - p
  {
    hide IsSpace;
    if p < |s| {
      BlankIff(s[p]);
      assert s[p..][1..] == s[p + 1..];
      BlanksSkipped(s, p + 1);
    }
  }

  predicate AllDigits(s: string) { forall c | c in s :: c in DIGITS }

  lemma {:induction false} DigitsEndIff(s: string, p: nat)
    requires p <= |s|
    ensures DigitsEnd(s, p) == |s| <==> AllDigits(s[p..])
    decreases |s| - p
  {
    hide DIGITS, IsDigit;
    if p < |s| {
      LettersAndDigits(s[p]);
      DigitsEndIff(s, p + 1);
      assert s[p..] == [s[p]] + s[p + 1..];
    }
  }

  lemma {:induction false} DigitsCount(s: string, r: nat, p: nat)
    requires r <= p <= |s| && AllDigits(s[r..])
    ensures AllDigits(s[r..p]) && DigitsFrom(s, p, Worth(s[r..p])) == Worth(s[r..])
    decreases |s| - p
  {
    hide DIGITS, IsDigit, Worth;
    PartDigits(s, r, p);
    if p < |s| {
      WorthGrows(s, r, p);
      DigitsCount(s, r, p + 1);
    } else {
      assert s[r..p] == s[r..];
    }
  }

  lemma PartDigits(s: string, r: nat, p: nat)
    requires r <= p <= |s| && AllDigits(s[r..])
    ensures AllDigits(s[r..p])
  {
    assert forall c | c in s[r..p] :: c in s[r..];
  }

  lemma WorthGrows(s: string, r: nat, p: nat)
    requires r <= p < |s| && AllDigits(s[r..])
    ensures AllDigits(s[r..p]) && AllDigits(s[r..p + 1]) && IsDigit(s[p])
    ensures Worth(s[r..p + 1]) == 10 * Worth(s[r..p]) + DigitValue(s[p])
  {
    hide DIGITS;
    PartDigits(s, r, p);
    PartDigits(s, r, p + 1);
    assert s[r..][p - r] == s[p];
    LettersAndDigits(s[p]);
    var next := s[r..p + 1];
    assert next[..|next| - 1] == s[r..p] && next[|next| - 1] == s[p];
  }

  lemma CyclesIff(s: string)
    ensures ValidCycles(s) <==> CycleCount(s)
  {
    hide DIGITS, IsSpace, SkipWs, Unblanked, DigitsEnd, DigitsFrom, Worth;
    var q, r := SkipWs(s, 0, |s|), SignEnd(s, 0);
    BlanksSkipped(s, 0);
    assert s[0..] == s;
    var u := Unblanked(s);
    assert u == s[q..];
    SignIs(s, q, r);
    if Signed(s, q) && s[q] == '-' {
      MinusIsNone(u);
      NegativeIsNone(s);
    } else {
      assert s[r..] == Unsigned(u);
      DigitsEndIff(s, r);
      if AllDigits(s[r..]) {
        DigitsCount(s, r, r);
        assert s[r..r] == "";
        WorthNothing();
      }
    }
  }

  lemma SignIs(s: string, q: nat, r: nat)
    requires q == SkipWs(s, 0, |s|) && r == SignEnd(s, 0)
    ensures if Signed(s, q) then q < |s| && r == q + 1 else r == q
    ensures !(Signed(s, q) && s[q] == '-') ==> s[r..] == Unsigned(s[q..])
  {}

  lemma WorthNothing()
    ensures Worth("") == 0
  {}

  /** A number behind a minus sign is not positive. */
  lemma NegativeIsNone(s: string)
    requires Signed(s, SkipWs(s, 0, |s|)) && s[SkipWs(s, 0, |s|)] == '-'
    ensures NumberAt(s, 0) <= 0
  {}

  lemma MinusIsNone(u: string)
    requires u != "" && u[0] == '-'
    ensures !WordOf(Unsigned(u), DIGITS)
  {
    assert Unsigned(u) == u && u[0] in u;
  }

  /** A printed number is its digits, without leading zeros. */
  lemma {:induction false} DecimalIsNumber(n: nat)
    ensures var s := Decimal(n); s != "" && AllDigits(s) && Worth(s) == n && (s[0] == '0' ==> n == 0)
  {
    hide DIGITS, Worth, Decimal;
    WorthNothing();
    if n >= 10 {
      DecimalIsNumber(n / 10);
      DecimalEnds(n);
      WorthSnoc(Decimal(n / 10), n % 10);
    } else {
      DecimalEnds(n);
      WorthSnoc("", n);
      assert "" + ["0123456789"[n]] == ["0123456789"[n]];
      DigitOf(n);
    }
  }

  lemma DecimalEnds(n: nat)
    ensures Decimal(n) == (if n < 10 then "" else Decimal(n / 10)) + ["0123456789"[n % 10]]
  {}

  lemma WorthSnoc(front: string, k: nat)
    requires AllDigits(front) && k < 10
    ensures var s := front + ["0123456789"[k]]; AllDigits(s) && Worth(s) == 10 * Worth(front) + k
  {
    hide DIGITS;
    DigitOf(k);
    var s := front + ["0123456789"[k]];
    assert s[..|s| - 1] == front && s[|s| - 1] == "0123456789"[k];
    forall c | c in s ensures c in DIGITS {}
  }

  lemma DigitOf(k: nat)
    requires k < 10
    ensures "0123456789"[k] in DIGITS && "0123456789"[k] as int - 48 == k
  {}
}
