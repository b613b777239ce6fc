/** What the writers put between quotes, and how the reader sees it. */
module JsonText {
  import opened Optional
  import opened Json

  // ---------- writing ----------

  function HexDigit(d: nat): char
    requires d < 16
  {
    "0123456789abcdef"[d]
  }

  /** The two writers: the cartridge view writes every control byte as \\u00xx, the text UI has short escapes for five. */
  datatype Writer = Ggfe | TextUi

  predicate IsControl(c: char) { c < ' ' }

  const BACKSPACE := '\U{0008}'
  const FORM_FEED := '\U{000C}'

  predicate IsShort(w: Writer, c: char) {
    w.TextUi? && (c == BACKSPACE || c == FORM_FEED || c == '\n' || c == '\r' || c == '\t')
  }

  function ShortLetter(c: char): char {
    if c == BACKSPACE then 'b' else if c == FORM_FEED then 'f' else if c == '\n' then 'n' else if c == '\r' then 'r' else 't'
  }

  /** Written as an escape the reader does not know. */
  predicate Lost(w: Writer, c: char) { IsControl(c) && !IsShort(w, c) }

  function EscChar(w: Writer, c: char): string {
    if c == '"' || c == '\\' then ['\\', c]
    else if IsShort(w, c) then ['\\', ShortLetter(c)]
    else if IsControl(c) then ['\\', 'u', '0', '0', HexDigit(c as int / 16), HexDigit(c as int % 16)]
    else [c]
  }

  function Esc(w: Writer, v: string): string { if v == "" then "" else EscChar(w, v[0]) + Esc(w, v[1..]) }

  /** A lost control character is written by its own code, and comes back as the letter u and that code in four digits. */
  lemma LostIsCode(w: Writer, c: char, x: nat, y: nat)
    requires Lost(w, c) && c as int == 16 * x + y && y < 16
    ensures x < 2 && EscChar(w, c) == ['\\', 'u', '0', '0', "01"[x], "0123456789abcdef"[y]]
    ensures ReadsChar(w, c) == ['u', '0', '0', "01"[x], "0123456789abcdef"[y]]
  {
    assert c as int / 16 == x && c as int % 16 == y;
  }

  lemma EscHead(w: Writer, s: string)
    requires s != ""
    ensures forall f: string :: f + Esc(w, s) == (f + EscChar(w, s[0])) + Esc(w, s[1..])
  {}

  function Quote(w: Writer, v: string): string { "\"" + Esc(w, v) + "\"" }

  /** How a written string reads back: the reader drops the backslash of an unknown escape. */
  function Reads(w: Writer, v: string): string { if v == "" then "" else ReadsChar(w, v[0]) + Reads(w, v[1..]) }

  function ReadsChar(w: Writer, c: char): string { if Lost(w, c) then EscChar(w, c)[1..] else [c] }

  predicate Clean(w: Writer, v: string) { forall c | c in v :: !Lost(w, c) }

  /** A key as the program writes it: letters, digits and underscores. */
  predicate IsName(k: string) { k != "" && forall c | c in k :: 'a' <= c <= 'z' || '0' <= c <= '9' || c == '_' }

  predicate Has(t: string, p: nat, s: string) { p + |s| <= |t| && t[p..p + |s|] == s }

  lemma HasAppend(t: string, p: nat, a: string, b: string)
    ensures Has(t, p, a + b) <==> Has(t, p, a) && Has(t, p + |a|, b)
  {
    if Has(t, p, a + b) {
      assert t[p..p + |a|] == (a + b)[..|a|];
      assert t[p + |a|..p + |a| + |b|] == (a + b)[|a|..];
    }
    if Has(t, p, a) && Has(t, p + |a|, b) {
      assert t[p..p + |a + b|] == t[p..p + |a|] + t[p + |a|..p + |a| + |b|];
    }
  }

  lemma HasChar(t: string, p: nat, s: string, i: nat)
    requires Has(t, p, s) && i < |s|
    ensures t[p + i] == s[i]
  {
    assert t[p..p + |s|][i] == t[p + i];
  }

  lemma HasSlice(t: string, p: nat, s: string, lo: nat, hi: nat)
    requires Has(t, p, s) && lo <= hi <= |s|
    ensures t[p + lo..p + hi] == s[lo..hi]
  {
    forall i | 0 <= i < hi - lo ensures t[p + lo..p + hi][i] == s[lo..hi][i] {
      HasChar(t, p, s, lo + i);
    }
  }

  // ---------- reading a quoted string ----------

  /** Only an escaped quote stands inside a quoted string. */
  lemma {:induction false} EscQuotes(w: Writer, v: string, i: nat)
    requires i < |Esc(w, v)| && Esc(w, v)[i] == '"'
    ensures i > 0 && Esc(w, v)[i - 1] == '\\'
  {
    var n := |EscChar(w, v[0])|;
    if i >= n {
      assert Esc(w, v)[i] == Esc(w, v[1..])[i - n];
      EscQuotes(w, v[1..], i - n);
      assert Esc(w, v)[i - 1] == Esc(w, v[1..])[i - n - 1];
    } else {
      assert Esc(w, v)[i] == EscChar(w, v[0])[i];
      HexDigitIsPlain(w, v[0]);
      assert Esc(w, v)[0] == EscChar(w, v[0])[0];
    }
  }

  lemma HexDigitIsPlain(w: Writer, c: char)
    ensures Lost(w, c) ==> forall i | 1 <= i < 6 :: EscChar(w, c)[i] != '"' && EscChar(w, c)[i] != '\\'
  {}

  lemma {:induction false} DecodesEsc(w: Writer, t: string, p: nat, end: nat, v: string)
    requires end <= |t| && Has(t, p, Esc(w, v) + "\"") && p + |Esc(w, v)| + 1 <= end
    ensures DecodeRaw(t, p, end) == Some((Reads(w, v), p + |Esc(w, v)| + 1))
    decreases |v|
  {
    hide DecodeRaw, EscChar, ReadsChar;
    if v == "" {
      assert Esc(w, v) + "\"" == "\"";
      DecodesEnd(t, p, end);
    } else {
      var head, tail := EscChar(w, v[0]), Esc(w, v[1..]);
      assert Esc(w, v) + "\"" == head + (tail + "\"");
      HasAppend(t, p, head, tail + "\"");
      DecodesEsc(w, t, p + |head|, end, v[1..]);
      DecodesChar(w, t, p, end, v[0], Reads(w, v[1..]), p + |Esc(w, v)| + 1);
    }
  }

  lemma DecodesEnd(t: string, p: nat, end: nat)
    requires end <= |t| && Has(t, p, "\"") && p < end
    ensures DecodeRaw(t, p, end) == Some(("", p + 1))
  {
    HasChar(t, p, "\"", 0);
  }

  lemma DecodesPlain(t: string, p: nat, end: nat, c: char, rest: string, next: nat)
    requires p < end <= |t| && t[p] == c && c != '"' && c != '\\'
    requires DecodeRaw(t, p + 1, end) == Some((rest, next))
    ensures DecodeRaw(t, p, end) == Some(([c] + rest, next))
  {}

  lemma DecodesEscape(t: string, p: nat, end: nat, rest: string, next: nat)
    requires p + 1 < end <= |t| && t[p] == '\\' && DecodeRaw(t, p + 2, end) == Some((rest, next))
    ensures DecodeRaw(t, p, end) == Some(([Unescape(t[p + 1])] + rest, next))
  {}

  /** An escape the reader does not know: six characters, read as the last five. */
  lemma DecodesLost(t: string, p: nat, end: nat, x: char, y: char, rest: string, next: nat)
    requires p + 6 <= end <= |t| && x != '"' && x != '\\' && y != '"' && y != '\\'
    requires t[p] == '\\' && t[p + 1] == 'u' && t[p + 2] == '0' && t[p + 3] == '0' && t[p + 4] == x && t[p + 5] == y
    requires DecodeRaw(t, p + 6, end) == Some((rest, next))
    ensures DecodeRaw(t, p, end) == Some((['u', '0', '0', x, y] + rest, next))
  {
    hide DecodeRaw;
    DecodesPlain(t, p + 5, end, y, rest, next);
    DecodesPlain(t, p + 4, end, x, [y] + rest, next);
    DecodesPlain(t, p + 3, end, '0', [x] + ([y] + rest), next);
    DecodesPlain(t, p + 2, end, '0', ['0'] + ([x] + ([y] + rest)), next);
    DecodesEscape(t, p, end, ['0'] + (['0'] + ([x] + ([y] + rest))), next);
    assert ['u', '0', '0', x, y] + rest == ['u'] + (['0'] + (['0'] + ([x] + ([y] + rest))));
  }

  lemma DecodesChar(w: Writer, t: string, p: nat, end: nat, c: char, rest: string, next: nat)
    requires end <= |t| && Has(t, p, EscChar(w, c)) && p + |EscChar(w, c)| <= end
    requires DecodeRaw(t, p + |EscChar(w, c)|, end) == Some((rest, next))
    ensures DecodeRaw(t, p, end) == Some((ReadsChar(w, c) + rest, next))
  {
    hide DecodeRaw, Unescape, HexDigit;
    var e := EscChar(w, c);
    forall i | 0 <= i < |e| ensures t[p + i] == e[i] {
      HasChar(t, p, e, i);
    }
    if Lost(w, c) {
      HexDigitIsPlain(w, c);
      assert e[1..] == ['u', '0', '0', e[4], e[5]];
      DecodesLost(t, p, end, e[4], e[5], rest, next);
    } else if |e| == 2 {
      EscapeIsKnown(w, c);
      DecodesEscape(t, p, end, rest, next);
    } else {
      DecodesPlain(t, p, end, c, rest, next);
    }
  }

  lemma EscapeIsKnown(w: Writer, c: char)
    requires |EscChar(w, c)| == 2
    ensures Unescape(EscChar(w, c)[1]) == c && !Lost(w, c)
  {}

  /** A written string is read as `Reads` of it, cut to the buffer. */
  lemma DecodesQuote(w: Writer, t: string, p: nat, end: nat, v: string, size: nat)
    requires end <= |t| && Has(t, p, Quote(w, v)) && p + |Quote(w, v)| <= end && size > 0
    ensures Decode(t, p, end, size) == Some((Fit(Reads(w, v), size), p + |Quote(w, v)|))
  {
    hide DecodeRaw, Esc, Reads;
    assert Quote(w, v) == "\"" + (Esc(w, v) + "\"");
    HasAppend(t, p, "\"", Esc(w, v) + "\"");
    HasChar(t, p, "\"", 0);
    DecodesEsc(w, t, p + 1, end, v);
  }

  lemma ReadsCharIs(w: Writer, c: char)
    ensures if Lost(w, c) then |ReadsChar(w, c)| == 5 && ReadsChar(w, c)[0] == 'u' != c else ReadsChar(w, c) == [c]
  {}

  lemma CleanCons(w: Writer, v: string)
    requires v != ""
    ensures Clean(w, v) <==> !Lost(w, v[0]) && Clean(w, v[1..])
  {
    assert forall c :: c in v <==> c == v[0] || c in v[1..];
  }

  /** A string that fits its buffer survives writing and reading exactly when it has no byte written as \u00xx. */
  lemma {:induction false} SurvivesIff(w: Writer, v: string, size: nat)
    requires |v| < size
    ensures Fit(Reads(w, v), size) == v <==> Clean(w, v)
  {
    hide ReadsChar, Lost, Clean;
    if v == "" {
      NothingIsClean(w);
    } else {
      ReadsCharIs(w, v[0]);
      CleanCons(w, v);
      SurvivesIff(w, v[1..], if size > 1 then size - 1 else 1);
      if Lost(w, v[0]) {
        assert Reads(w, v)[0] == 'u';
        assert Fit(Reads(w, v), size)[0] == 'u';
      } else {
        assert Fit(Reads(w, v), size) == [v[0]] + Fit(Reads(w, v[1..]), size - 1);
        assert v == [v[0]] + v[1..];
        assert Fit(Reads(w, v), size)[1..] == Fit(Reads(w, v[1..]), size - 1);
      }
    }
  }

  lemma NothingIsClean(w: Writer)
    ensures Clean(w, "")
  {}

  // ---------- key lookup over written text ----------

  lemma SkipsRaw(t: string, p: nat, end: nat, key: string, s: string)
    requires end <= |t| && Has(t, p, s) && p + |s| <= end && '"' !in s
    ensures Find(t, p, end, key) == Find(t, p + |s|, end, key)
  {
    forall i | p <= i < p + |s| ensures !KeyAt(t, i, end, key) {
      HasChar(t, p, s, i - p);
    }
    NoneBetween(t, p, p + |s|, end, key);
  }

  /** A key is never found inside a written string: only at its opening quote, as its whole contents,
      and only if a colon follows. */
  lemma QuotedMatch(w: Writer, t: string, p: nat, end: nat, key: string, v: string, q: nat)
    requires end <= |t| && Has(t, p, Quote(w, v)) && p + |Quote(w, v)| < |t| && IsName(key)
    requires t[p + |Quote(w, v)|] != key[0]
    requires p <= q < p + |Quote(w, v)| && KeyAt(t, q, end, key)
    ensures q + |key| + 2 == p + |Quote(w, v)| && ColonFollows(t, p + |Quote(w, v)|, end)
    ensures IsName(v) ==> v == key
  {
    hide Esc, SkipWs;
    var z, k := p + |Quote(w, v)|, q + |key| + 1;
    var name := t[q + 1..k];
    assert name == key;
    forall i | q + 1 <= i < k ensures t[i] != '"' && t[i] != '\\' {
      assert t[i] == name[i - (q + 1)];
      assert key[i - (q + 1)] in key;
    }
    assert t[q + 1] == key[0];
    HasChar(t, p, Quote(w, v), |Quote(w, v)| - 1);
    assert q < z - 1 && k <= z - 1;
    if k < z - 1 {
      InnerQuote(w, t, p, v, k);
    }
    if IsName(v) {
      NameHasNoQuote(w, t, p, v);
    }
    if IsName(v) {
      NameIsPlain(w, v);
      forall i | 0 <= i < |v| ensures key[i] == v[i] {
        HasChar(t, p, Quote(w, v), i + 1);
        assert name[i] == t[q + 1 + i];
      }
    }
  }

  lemma NameHasNoQuote(w: Writer, t: string, p: nat, v: string)
    requires Has(t, p, Quote(w, v)) && IsName(v)
    ensures forall i | p < i < p + |Quote(w, v)| - 1 :: t[i] != '"'
  {
    NameIsPlain(w, v);
    hide Esc, IsName;
    forall i | p < i < p + |Quote(w, v)| - 1 ensures t[i] != '"' {
      HasChar(t, p, Quote(w, v), i - p);
      assert v[i - p - 1] in v;
    }
  }

  lemma InnerQuote(w: Writer, t: string, p: nat, v: string, k: nat)
    requires Has(t, p, Quote(w, v)) && p < k < p + |Quote(w, v)| - 1 && t[k] == '"'
    ensures k - 1 > p && t[k - 1] == '\\'
  {
    HasChar(t, p, Quote(w, v), k - p);
    EscQuotes(w, v, k - p - 1);
    HasChar(t, p, Quote(w, v), k - p - 1);
  }

  lemma {:induction false} NameIsPlain(w: Writer, v: string)
    requires v == "" || IsName(v)
    ensures Esc(w, v) == v && '"' !in v
  {
    if v != "" {
      assert v[0] in v && forall c | c in v[1..] :: c in v;
      NameIsPlain(w, v[1..]);
      PlainChar(w, v[0]);
      hide EscChar;
      assert v == [v[0]] + v[1..];
    }
  }

  lemma PlainChar(w: Writer, c: char)
    requires 'a' <= c <= 'z' || '0' <= c <= '9' || c == '_'
    ensures EscChar(w, c) == [c] && c != '"'
  {}

  lemma SkipsQuoted(w: Writer, t: string, p: nat, end: nat, key: string, v: string)
    requires end <= |t| && Has(t, p, Quote(w, v)) && p + |Quote(w, v)| < end && IsName(key)
    requires t[p + |Quote(w, v)|] != key[0]
    requires ColonFollows(t, p + |Quote(w, v)|, end) ==> IsName(v) && v != key
    ensures Find(t, p, end, key) == Find(t, p + |Quote(w, v)|, end, key)
  {
    forall q | p <= q < p + |Quote(w, v)| ensures !KeyAt(t, q, end, key) {
      if KeyAt(t, q, end, key) {
        QuotedMatch(w, t, p, end, key, v, q);
      }
    }
    NoneBetween(t, p, p + |Quote(w, v)|, end, key);
  }

  lemma NameLength(w: Writer, key: string)
    requires IsName(key)
    ensures Quote(w, key) == "\"" + key + "\"" && |Quote(w, key)| == |key| + 2
  {
    NameIsPlain(w, key);
  }

  /** A written key is found where it stands. */
  lemma FindsKey(w: Writer, t: string, p: nat, end: nat, key: string)
    requires end <= |t| && IsName(key) && Has(t, p, Quote(w, key) + ": ")
    requires p + |key| + 4 < end && !IsSpace(t[p + |key| + 4])
    ensures |Quote(w, key)| == |key| + 2
    ensures Find(t, p, end, key) == Some(p + |key| + 4)
  {
    hide Esc;
    NameIsPlain(w, key);
    HasAppend(t, p, Quote(w, key), ": ");
    HasChar(t, p, Quote(w, key), 0);
    HasChar(t, p, Quote(w, key), |key| + 1);
    HasChar(t, p + |key| + 2, ": ", 0);
    HasChar(t, p + |key| + 2, ": ", 1);
    assert Quote(w, key)[1..|key| + 1] == key;
    HasSlice(t, p, Quote(w, key), 1, |key| + 1);
    var z := p + |key| + 2;
    assert SkipWs(t, z, end) == z && SkipWs(t, z + 2, end) == z + 2;
    assert SkipWs(t, z + 1, end) == SkipWs(t, z + 2, end);
    assert KeyAt(t, p, end, key);
  }

  // ---------- containers over written text ----------

  lemma {:induction false} ClosesPastRaw(t: string, p: nat, end: nat, open: char, close: char, depth: int, s: string)
    requires end <= |t| && Has(t, p, s) && p + |s| <= end && '"' !in s && open !in s && close !in s
    ensures CloseFrom(t, p, end, open, close, depth, false, false) == CloseFrom(t, p + |s|, end, open, close, depth, false, false)
    decreases |s|
  {
    if s != "" {
      HasChar(t, p, s, 0);
      HasAppend(t, p, s[..1], s[1..]);
      assert s[..1] + s[1..] == s;
      ClosesPastRaw(t, p + 1, end, open, close, depth, s[1..]);
    }
  }

  lemma {:induction false} ClosesPastEsc(w: Writer, t: string, p: nat, end: nat, open: char, close: char, depth: int, v: string)
    requires end <= |t| && Has(t, p, Esc(w, v)) && p + |Esc(w, v)| <= end
    ensures CloseFrom(t, p, end, open, close, depth, true, false) == CloseFrom(t, p + |Esc(w, v)|, end, open, close, depth, true, false)
    decreases |v|
  {
    hide EscChar, CloseFrom;
    if v != "" {
      HasAppend(t, p, EscChar(w, v[0]), Esc(w, v[1..]));
      ClosesPastChar(w, t, p, end, open, close, depth, v[0]);
      ClosesPastEsc(w, t, p + |EscChar(w, v[0])|, end, open, close, depth, v[1..]);
    }
  }

  /** Inside a string, a plain byte and an escaped one are passed. */
  lemma PassesPlain(t: string, p: nat, end: nat, open: char, close: char, depth: int)
    requires p < end <= |t| && t[p] != '"' && t[p] != '\\'
    ensures CloseFrom(t, p, end, open, close, depth, true, false) == CloseFrom(t, p + 1, end, open, close, depth, true, false)
  {}

  lemma PassesEscape(t: string, p: nat, end: nat, open: char, close: char, depth: int)
    requires p + 1 < end <= |t| && t[p] == '\\'
    ensures CloseFrom(t, p, end, open, close, depth, true, false) == CloseFrom(t, p + 2, end, open, close, depth, true, false)
  {
    assert CloseFrom(t, p + 1, end, open, close, depth, true, true) == CloseFrom(t, p + 2, end, open, close, depth, true, false);
  }

  lemma ClosesPastChar(w: Writer, t: string, p: nat, end: nat, open: char, close: char, depth: int, c: char)
    requires end <= |t| && Has(t, p, EscChar(w, c)) && p + |EscChar(w, c)| <= end
    ensures CloseFrom(t, p, end, open, close, depth, true, false)
         == CloseFrom(t, p + |EscChar(w, c)|, end, open, close, depth, true, false)
  {
    hide CloseFrom;
    var e := EscChar(w, c);
    forall i | 0 <= i < |e| ensures t[p + i] == e[i] {
      HasChar(t, p, e, i);
    }
    if |e| == 1 {
      PassesPlain(t, p, end, open, close, depth);
    } else {
      PassesEscape(t, p, end, open, close, depth);
      if Lost(w, c) {
        HexDigitIsPlain(w, c);
        PassesPlain(t, p + 2, end, open, close, depth);
        PassesPlain(t, p + 3, end, open, close, depth);
        PassesPlain(t, p + 4, end, open, close, depth);
        PassesPlain(t, p + 5, end, open, close, depth);
      }
    }
  }

  /** Brackets inside a written string never open or close a container. */
  lemma ClosesPastQuoted(w: Writer, t: string, p: nat, end: nat, open: char, close: char, depth: int, v: string)
    requires end <= |t| && Has(t, p, Quote(w, v)) && p + |Quote(w, v)| <= end
    ensures CloseFrom(t, p, end, open, close, depth, false, false)
         == CloseFrom(t, p + |Quote(w, v)|, end, open, close, depth, false, false)
  {
    hide Esc;
    var n := |Esc(w, v)|;
    assert Quote(w, v) == "\"" + (Esc(w, v) + "\"");
    HasAppend(t, p, "\"", Esc(w, v) + "\"");
    HasAppend(t, p + 1, Esc(w, v), "\"");
    HasChar(t, p, "\"", 0);
    HasChar(t, p + 1 + n, "\"", 0);
    ClosesPastEsc(w, t, p + 1, end, open, close, depth, v);
  }
}
