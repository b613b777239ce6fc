/** The UTF-8 reader and writer of the text renderer, and its composition of kana sound marks. */
module Utf8 {
  import opened ByteText

  const MAX_CODE: nat := 0x10_FFFF

  predicate Scalar(c: nat) { c <= MAX_CODE && !(0xD800 <= c <= 0xDFFF) }

  /** A C string: the terminator stands after the last byte. */
  predicate CString(t: Bytes) { 0 !in t }

  function At(t: Bytes, i: nat): Byte { if i < |t| then t[i] else 0 }

  predicate Tail(b: Byte) { 0x80 <= b < 0xC0 }

  // ---------- reading ----------

  /** The code point that four bytes start, and how many of them it takes; what starts nothing valid reads as '?'. */
  function Char(a: Byte, b: Byte, c: Byte, d: Byte): (nat, nat) {
    if a < 0x80 then (a, 1)
    else if 0xC0 <= a < 0xE0 && Tail(b) then
      var cp := (a - 0xC0) * 64 + (b - 0x80);
      if cp >= 0x80 then (cp, 2) else (0x3F, 1)
    else if 0xE0 <= a < 0xF0 && Tail(b) && Tail(c) then
      var cp := (a - 0xE0) * 4096 + (b - 0x80) * 64 + (c - 0x80);
      if cp >= 0x800 && !(0xD800 <= cp <= 0xDFFF) then (cp, 3) else (0x3F, 1)
    else if 0xF0 <= a < 0xF8 && Tail(b) && Tail(c) && Tail(d) then
      var cp := (a - 0xF0) * 262144 + (b - 0x80) * 4096 + (c - 0x80) * 64 + (d - 0x80);
      if 0x1_0000 <= cp <= MAX_CODE then (cp, 4) else (0x3F, 1)
    else (0x3F, 1)
  }

  /** The code point at a position and the position after it. */
  function Decode(t: Bytes, p: nat): (r: (nat, nat))
    requires p < |t| && CString(t)
    ensures p < r.1 <= |t|
  {
    var (cp, n) := Char(t[p], At(t, p + 1), At(t, p + 2), At(t, p + 3));
    (cp, p + n)
  }

  function DecodeFrom(t: Bytes, p: nat): seq<nat>
    requires p <= |t| && CString(t)
    decreases |t| - p
  {
    if p == |t| then [] else [Decode(t, p).0] + DecodeFrom(t, Decode(t, p).1)
  }

  // ---------- writing ----------

  function Encode(c: nat): Bytes
    requires c <= MAX_CODE
  {
    if c <= 0x7F then [c]
    else if c <= 0x7FF then [0xC0 + c / 64, 0x80 + c % 64]
    else if c <= 0xFFFF then [0xE0 + c / 4096, 0x80 + c / 64 % 64, 0x80 + c % 64]
    else [0xF0 + c / 262144, 0x80 + c / 4096 % 64, 0x80 + c / 64 % 64, 0x80 + c % 64]
  }

  predicate Codes(s: seq<nat>) { forall i | 0 <= i < |s| :: Scalar(s[i]) && s[i] != 0 }

  function EncodeAll(s: seq<nat>): Bytes
    requires Codes(s)
  {
    if s == [] then [] else Encode(s[0]) + EncodeAll(s[1..])
  }

  /** What fits: whole code points only, with room for the terminator. */
  function Fitting(s: seq<nat>, used: nat, size: nat): seq<nat>
    requires Codes(s)
  {
    if s == [] || used + |Encode(s[0])| >= size then []
    else [s[0]] + Fitting(s[1..], used + |Encode(s[0])|, size)
  }

  // ---------- RFC 3629, section 4 ----------

  /** The byte sequences of one character, as the RFC's grammar lists them. */
  predicate Utf8Char(s: Bytes) {
    || (|s| == 1 && s[0] <= 0x7F)
    || (|s| == 2 && 0xC2 <= s[0] <= 0xDF && Tail(s[1]))
    || (|s| == 3 && s[0] == 0xE0 && 0xA0 <= s[1] <= 0xBF && Tail(s[2]))
    || (|s| == 3 && (0xE1 <= s[0] <= 0xEC || 0xEE <= s[0] <= 0xEF) && Tail(s[1]) && Tail(s[2]))
    || (|s| == 3 && s[0] == 0xED && 0x80 <= s[1] <= 0x9F && Tail(s[2]))
    || (|s| == 4 && s[0] == 0xF0 && 0x90 <= s[1] <= 0xBF && Tail(s[2]) && Tail(s[3]))
    || (|s| == 4 && 0xF1 <= s[0] <= 0xF3 && Tail(s[1]) && Tail(s[2]) && Tail(s[3]))
    || (|s| == 4 && s[0] == 0xF4 && 0x80 <= s[1] <= 0x8F && Tail(s[2]) && Tail(s[3]))
  }

  // ---------- digits of 64 ----------

  lemma Digits(c: nat)
    ensures c == c / 64 * 64 + c % 64 && c / 64 == c / 4096 * 64 + c / 64 % 64
    ensures c / 4096 == c / 262144 * 64 + c / 4096 % 64
  {
    assert c / 64 / 64 == c / 4096;
    assert c / 4096 / 64 == c / 262144;
  }

  lemma DigitsUnique(x: nat, y: nat, z: nat)
    requires y < 64 && z < 64
    ensures var c := x * 4096 + y * 64 + z; c / 4096 == x && c / 64 % 64 == y && c % 64 == z && c / 64 == x * 64 + y
  {
    var c := x * 4096 + y * 64 + z;
    assert c / 64 == x * 64 + y;
  }

  lemma DigitsUnique4(w: nat, x: nat, y: nat, z: nat)
    requires x < 64 && y < 64 && z < 64
    ensures var c := w * 262144 + x * 4096 + y * 64 + z;
            c / 262144 == w && c / 4096 % 64 == x && c / 64 % 64 == y && c % 64 == z
  {
    var c := w * 262144 + x * 4096 + y * 64 + z;
    DigitsUnique(w * 64 + x, y, z);
    assert c == (w * 64 + x) * 4096 + y * 64 + z;
    Digits(c);
  }

  lemma Encode3(x: nat, y: nat, z: nat)
    requires x < 16 && y < 64 && z < 64 && x * 4096 + y * 64 + z >= 0x800
    ensures Encode(x * 4096 + y * 64 + z) == [0xE0 + x, 0x80 + y, 0x80 + z]
  {
    DigitsUnique(x, y, z);
  }

  lemma Encode4(w: nat, x: nat, y: nat, z: nat)
    requires w < 8 && x < 64 && y < 64 && z < 64 && 0x1_0000 <= w * 262144 + x * 4096 + y * 64 + z <= MAX_CODE
    ensures Encode(w * 262144 + x * 4096 + y * 64 + z) == [0xF0 + w, 0x80 + x, 0x80 + y, 0x80 + z]
  {
    DigitsUnique4(w, x, y, z);
  }

  /** The reader's value, written again, is the bytes it was read from. */
  lemma Encoded(a: Byte, b: Byte, c: Byte, d: Byte)
    requires var n := Char(a, b, c, d).1; n > 1 || a < 0x80
    ensures var (cp, n) := Char(a, b, c, d);
            cp <= MAX_CODE && n <= 4 && Encode(cp) == [a, b, c, d][..n]
  {
    hide Encode;
    var n := Char(a, b, c, d).1;
    if n == 1 {
      Encode12(a, 0);
    } else if n == 2 {
      Encode12(a - 0xC0, b - 0x80);
    } else if n == 3 {
      Encode3(a - 0xE0, b - 0x80, c - 0x80);
    } else {
      Encode4(a - 0xF0, b - 0x80, c - 0x80, d - 0x80);
    }
  }

  lemma Encode12(x: nat, y: nat)
    requires y < 64
    ensures x < 0x80 ==> Encode(x) == [x]
    ensures x < 32 && x * 64 + y >= 0x80 ==> Encode(x * 64 + y) == [0xC0 + x, 0x80 + y]
  {
    DigitsUnique(0, 0, y);
  }

  /** Every scalar value is written as one character of the grammar, and read back as itself whatever follows. */
  lemma EncodesValid(c: nat)
    requires Scalar(c)
    ensures Utf8Char(Encode(c)) && (c != 0 ==> CString(Encode(c)))
  {
    Digits(c);
  }

  lemma CharOfEncode(v: nat, a: Byte, b: Byte, c: Byte, d: Byte)
    requires Scalar(v) && v != 0 && |Encode(v)| <= 4 && [a, b, c, d][..|Encode(v)|] == Encode(v)
    ensures Char(a, b, c, d) == (v, |Encode(v)|)
  {
    var s, e := [a, b, c, d], Encode(v);
    assert a == e[0];
    assert |e| > 1 ==> b == s[..|e|][1];
    assert |e| > 2 ==> c == s[..|e|][2];
    assert |e| > 3 ==> d == s[..|e|][3];
    Digits(v);
  }

  /** A reading of more than one byte, or of an ASCII byte, is a character of the grammar. */
  lemma CharIsGrammar(a: Byte, b: Byte, c: Byte, d: Byte)
    ensures var (v, n) := Char(a, b, c, d);
            && 1 <= n <= 4 && Scalar(v) && (a != 0 ==> v != 0)
            && (Utf8Char([a, b, c, d][..n]) <==> n > 1 || a < 0x80)
            && (!Utf8Char([a, b, c, d][..n]) ==> v == 0x3F && n == 1)
  {}

  /** A character of the grammar is never longer or shorter than the reading. */
  lemma GrammarIsChar(a: Byte, b: Byte, c: Byte, d: Byte, m: nat)
    requires 1 <= m <= 4 && Utf8Char([a, b, c, d][..m])
    ensures Char(a, b, c, d).1 == m
  {
    var s := [a, b, c, d];
    assert s[..m][0] == a;
    assert m > 1 ==> s[..m][1] == b;
    assert m > 2 ==> s[..m][2] == c;
    assert m > 3 ==> s[..m][3] == d;
  }

  lemma Window4(t: Bytes, p: nat, n: nat)
    requires p < |t| && n <= 4 && p + n <= |t|
    ensures [t[p], At(t, p + 1), At(t, p + 2), At(t, p + 3)][..n] == t[p..p + n]
  {}

  /** Reading what was written gives the scalar value back, whatever follows it. */
  lemma DecodesEncoded(t: Bytes, p: nat, v: nat)
    requires Scalar(v) && v != 0 && CString(t)
    requires p + |Encode(v)| <= |t| && t[p..p + |Encode(v)|] == Encode(v)
    ensures Decode(t, p) == (v, p + |Encode(v)|)
  {
    Window4(t, p, |Encode(v)|);
    CharOfEncode(v, t[p], At(t, p + 1), At(t, p + 2), At(t, p + 3));
  }

  /** The reader takes a character of the grammar whole, as the value that is written so, and takes any other byte as one '?'. */
  lemma DecodesGrammar(t: Bytes, p: nat)
    requires p < |t| && CString(t)
    ensures var (v, next) := Decode(t, p);
            && next <= |t| && Scalar(v) && v != 0
            && (Utf8Char(t[p..next]) ==> Encode(v) == t[p..next])
            && (!Utf8Char(t[p..next]) ==> v == 0x3F && next == p + 1)
            && forall n | p < n <= |t| && Utf8Char(t[p..n]) :: n == next
  {
    hide Char, Utf8Char, Encode;
    var a, b, c, d := t[p], At(t, p + 1), At(t, p + 2), At(t, p + 3);
    var (v, next) := Decode(t, p);
    CharIsGrammar(a, b, c, d);
    Window4(t, p, next - p);
    if Utf8Char(t[p..next]) {
      Encoded(a, b, c, d);
    }
    forall n | p < n <= |t| && Utf8Char(t[p..n]) ensures n == next {
      CharLength(t[p..n]);
      Window4(t, p, n - p);
      GrammarIsChar(a, b, c, d, n - p);
    }
  }

  lemma CharLength(s: Bytes)
    requires Utf8Char(s)
    ensures 1 <= |s| <= 4
  {}
}
