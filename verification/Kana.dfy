/** Composing kana with their sound marks, into a buffer of fixed size. */
module Kana {
  import opened ByteText
  import opened Utf8

  const VOICED: nat := 0x3099
  const SEMI_VOICED: nat := 0x309A

  /** The rows of hiragana and katakana that take the voiced mark as the next code point. */
  predicate VoicedBase(b: nat) {
    || (0x304B <= b <= 0x3061 && b % 2 == 1) || b == 0x3064 || b == 0x3066 || b == 0x3068
    || (0x30AB <= b <= 0x30C1 && b % 2 == 1) || b == 0x30C4 || b == 0x30C6 || b == 0x30C8
  }

  /** The ha rows, which take both marks. */
  predicate HaBase(b: nat) {
    b in {0x306F, 0x3072, 0x3075, 0x3078, 0x307B, 0x30CF, 0x30D2, 0x30D5, 0x30D8, 0x30DB}
  }

  /** The composed code point, or 0. */
  function Mark(base: nat, mark: nat): nat {
    if mark == VOICED then
      if base == 0x3046 then 0x3094 else if base == 0x30A6 then 0x30F4 else if base == 0x30EF then 0x30F7
      else if base == 0x30F0 then 0x30F8 else if base == 0x30F1 then 0x30F9 else if base == 0x30F2 then 0x30FA
      else if VoicedBase(base) || HaBase(base) then base + 1
      else 0
    else if mark == SEMI_VOICED && HaBase(base) then base + 2
    else 0
  }

  /** A composition is a scalar value; it is no mark and takes no further mark, and it tells which base and mark it is from. */
  lemma MarkIsFinal(base: nat, mark: nat, base2: nat, mark2: nat)
    requires Mark(base, mark) != 0
    ensures Scalar(Mark(base, mark)) && Mark(Mark(base, mark), mark2) == 0 && Mark(base2, Mark(base, mark)) == 0
    ensures Mark(base2, mark2) == Mark(base, mark) ==> base2 == base && mark2 == mark
    ensures |Encode(Mark(base, mark))| == 3 && |Encode(mark)| == 3
  {}

  /** The letters of the ka, sa and ta rows, hiragana and katakana, as in the Unicode character database; then those of the ha rows,
      and the letters whose voiced form stands elsewhere. */
  const KA_SA_TA: set<nat> := {
    0x304B, 0x304D, 0x304F, 0x3051, 0x3053, 0x3055, 0x3057, 0x3059, 0x305B, 0x305D, 0x305F, 0x3061, 0x3064, 0x3066, 0x3068,
    0x30AB, 0x30AD, 0x30AF, 0x30B1, 0x30B3, 0x30B5, 0x30B7, 0x30B9, 0x30BB, 0x30BD, 0x30BF, 0x30C1, 0x30C4, 0x30C6, 0x30C8
  }
  const HA: set<nat> := {0x306F, 0x3072, 0x3075, 0x3078, 0x307B, 0x30CF, 0x30D2, 0x30D5, 0x30D8, 0x30DB}
  const ELSEWHERE: map<nat, nat> := map[
    0x3046 := 0x3094, 0x30A6 := 0x30F4, 0x30EF := 0x30F7, 0x30F0 := 0x30F8, 0x30F1 := 0x30F9, 0x30F2 := 0x30FA
  ]

  /** Exactly these letters take a mark: the voiced form stands behind its letter, the semi-voiced one behind that. */
  lemma MarkIsTable(base: nat, mark: nat)
    ensures Mark(base, mark)
         == if mark == 0x3099 && base in ELSEWHERE then ELSEWHERE[base]
            else if mark == 0x3099 && (base in KA_SA_TA || base in HA) then base + 1
            else if mark == 0x309A && base in HA then base + 2
            else 0
  {
    assert VoicedBase(base) <==> base in KA_SA_TA;
  }

  function Compose(s: seq<nat>): seq<nat>
    decreases |s|
  {
    if s == [] then []
    else if |s| > 1 && Mark(s[0], s[1]) != 0 then [Mark(s[0], s[1])] + Compose(s[2..])
    else [s[0]] + Compose(s[1..])
  }

  /** No two neighbours compose. */
  predicate Composed(s: seq<nat>) { forall i | 0 <= i < |s| - 1 :: Mark(s[i], s[i + 1]) == 0 }

  /** What the normaliser leaves in a buffer of the given size. */
  function Result(t: Bytes, size: nat): Bytes
    requires CString(t)
  {
    DecodedCodes(t, 0);
    ComposeCodes(DecodeFrom(t, 0));
    FittingCodes(Compose(DecodeFrom(t, 0)), 0, size);
    EncodeAll(Fitting(Compose(DecodeFrom(t, 0)), 0, size))
  }

  // ---------- scalars all the way ----------

  lemma {:induction false} DecodedCodes(t: Bytes, p: nat)
    requires p <= |t| && CString(t)
    ensures Codes(DecodeFrom(t, p))
    decreases |t| - p
  {
    hide Decode, Scalar;
    if p < |t| {
      DecodesGrammar(t, p);
      DecodedCodes(t, Decode(t, p).1);
    }
  }

  lemma {:induction false} ComposeCodes(s: seq<nat>)
    requires Codes(s)
    ensures Codes(Compose(s)) && |Compose(s)| <= |s|
    decreases |s|
  {
    hide Mark, Scalar;
    if s != [] {
      if |s| > 1 && Mark(s[0], s[1]) != 0 {
        MarkIsFinal(s[0], s[1], 0, 0);
        ComposeCodes(s[2..]);
      } else {
        ComposeCodes(s[1..]);
      }
    }
  }

  lemma {:induction false} FittingCodes(s: seq<nat>, used: nat, size: nat)
    requires Codes(s)
    ensures Codes(Fitting(s, used, size)) && Fitting(s, used, size) <= s
    ensures used < size ==> used + |EncodeAll(Fitting(s, used, size))| < size
    ensures used + |EncodeAll(s)| < size ==> Fitting(s, used, size) == s
    ensures used >= size ==> Fitting(s, used, size) == []
    decreases |s|
  {
    hide Encode;
    if s != [] {
      FittingCodes(s[1..], used + |Encode(s[0])|, size);
      var rest := Fitting(s[1..], used + |Encode(s[0])|, size);
      assert ([s[0]] + rest)[1..] == rest;
    }
  }

  // ---------- the loop ----------

  /** The next code point to write, composed with a following mark if it can be, and where the rest begins. */
  function NextCode(t: Bytes, p: nat): (r: (nat, nat))
    requires p < |t| && CString(t)
    ensures p < r.1 <= |t|
  {
    var (cp, next) := Decode(t, p);
    if next < |t| && Mark(cp, Decode(t, next).0) != 0 then (Mark(cp, Decode(t, next).0), Decode(t, next).1) else (cp, next)
  }

  lemma Next(t: Bytes, p: nat)
    requires p < |t| && CString(t)
    ensures var (c, after) := NextCode(t, p); Compose(DecodeFrom(t, p)) == [c] + Compose(DecodeFrom(t, after))
  {
    hide Decode, Mark;
    var next := Decode(t, p).1;
    var s := DecodeFrom(t, p);
    assert s[1..] == DecodeFrom(t, next);
    if next < |t| {
      assert s[2..] == DecodeFrom(t, next)[1..] == DecodeFrom(t, Decode(t, next).1);
    }
  }

  /** What the output will be, with some bytes written and a position reached. */
  function Outcome(t: Bytes, p: nat, out: Bytes, size: nat): Bytes
    requires p <= |t| && CString(t)
  {
    Rest(t, p, |out|, size);
    out + EncodeAll(Fitting(Compose(DecodeFrom(t, p)), |out|, size))
  }

  lemma Starts(t: Bytes, size: nat)
    requires CString(t)
    ensures Outcome(t, 0, [], size) == Result(t, size)
  {
    hide Compose, Fitting, EncodeAll, DecodeFrom, Codes;
    Rest(t, 0, 0, size);
    var r := EncodeAll(Fitting(Compose(DecodeFrom(t, 0)), 0, size));
    assert [] + r == r;
  }

  /** One turn of the loop: the next code point is written if it fits, and nothing more if it does not. */
  lemma Step(t: Bytes, p: nat, out: Bytes, size: nat)
    requires p < |t| && CString(t)
    ensures var (c, after) := NextCode(t, p);
            && c <= MAX_CODE
            && Outcome(t, p, out, size) == if |out| + |Encode(c)| >= size then out else Outcome(t, after, out + Encode(c), size)
  {
    hide NextCode, Compose, Fitting, EncodeAll, DecodeFrom, Codes, Encode;
    var (c, after) := NextCode(t, p);
    var s := Compose(DecodeFrom(t, after));
    Next(t, p);
    Rest(t, p, |out|, size);
    FittingHead(c, s, |out|, size);
    if |out| + |Encode(c)| >= size {
      assert out + [] == out;
    } else {
      Rest(t, after, |out| + |Encode(c)|, size);
      var e := EncodeAll(Fitting(s, |out| + |Encode(c)|, size));
      assert out + (Encode(c) + e) == (out + Encode(c)) + e;
    }
  }

  lemma Ends(t: Bytes, out: Bytes, size: nat)
    requires CString(t)
    ensures Outcome(t, |t|, out, size) == out
  {
    assert out + [] == out;
  }

  method Append(out: Bytes, size: nat, c: nat) returns (ok: bool, next: Bytes)
    requires c <= MAX_CODE
    ensures ok <==> |out| + |Encode(c)| < size
    ensures next == if ok then out + Encode(c) else out
  {
    if |out| + |Encode(c)| >= size {
      return false, out;
    }
    return true, out + Encode(c);
  }

  method NormalizeKanaMarks(t: Bytes, size: nat) returns (out: Bytes)
    requires CString(t)
    ensures out == Result(t, size)
  {
    hide Decode, Mark, Encode, Outcome, Result;
    out := [];
    var p := 0;
    Starts(t, size);
    while p < |t|
      invariant p <= |t| && Outcome(t, p, out, size) == Result(t, size)
      decreases |t| - p
    {
      Step(t, p, out, size);
      var (c, after) := Decode(t, p);
      if after < |t| {
        var (mark, afterMark) := Decode(t, after);
        var composed := Mark(c, mark);
        if composed != 0 {
          c, after := composed, afterMark;
        }
      }
      var ok;
      ok, out := Append(out, size, c);
      if !ok {
        return;
      }
      p := after;
    }
    Ends(t, out, size);
  }

  lemma Rest(t: Bytes, p: nat, used: nat, size: nat)
    requires p <= |t| && CString(t)
    ensures Codes(Compose(DecodeFrom(t, p))) && Codes(Fitting(Compose(DecodeFrom(t, p)), used, size))
  {
    DecodedCodes(t, p);
    ComposeCodes(DecodeFrom(t, p));
    FittingCodes(Compose(DecodeFrom(t, p)), used, size);
  }

  lemma FittingHead(c: nat, s: seq<nat>, used: nat, size: nat)
    requires Codes([c] + s)
    ensures c <= MAX_CODE && Codes(s) && Codes(Fitting([c] + s, used, size)) && Codes(Fitting(s, used + |Encode(c)|, size))
    ensures EncodeAll(Fitting([c] + s, used, size))
         == if used + |Encode(c)| >= size then [] else Encode(c) + EncodeAll(Fitting(s, used + |Encode(c)|, size))
  {
    hide Encode;
    var all := [c] + s;
    assert all[0] == c && all[1..] == s;
    FittingCodes(all, used, size);
    FittingCodes(s, used + |Encode(c)|, size);
    var rest := Fitting(s, used + |Encode(c)|, size);
    assert ([c] + rest)[1..] == rest;
  }

  // ---------- what comes out ----------

  lemma {:induction false} ComposeLeavesNone(s: seq<nat>)
    ensures Composed(Compose(s))
    ensures s != [] ==> Compose(s) != [] && (Compose(s)[0] == s[0] || (|s| > 1 && Mark(s[0], s[1]) != 0 && Compose(s)[0] == Mark(s[0], s[1])))
    decreases |s|
  {
    hide Mark;
    if s != [] {
      var pair := |s| > 1 && Mark(s[0], s[1]) != 0;
      var rest := s[if pair then 2 else 1..];
      ComposeLeavesNone(rest);
      var c := Compose(rest);
      var head := if pair then Mark(s[0], s[1]) else s[0];
      assert Compose(s) == [head] + c;
      if c != [] {
        if pair {
          MarkIsFinal(s[0], s[1], 0, c[0]);
        } else if c[0] != rest[0] {
          MarkIsFinal(rest[0], rest[1], head, 0);
        }
        assert Mark(head, c[0]) == 0;
      }
    }
  }

  lemma {:induction false} ComposedStays(s: seq<nat>)
    requires Composed(s)
    ensures Compose(s) == s
    decreases |s|
  {
    hide Mark;
    if s != [] {
      ComposedStays(s[1..]);
      assert s == [s[0]] + s[1..];
    }
  }

  lemma ComposedPrefix(s: seq<nat>, t: seq<nat>)
    requires Composed(t) && s <= t
    ensures Composed(s)
  {}

  lemma {:induction false} EncodedIsCString(s: seq<nat>)
    requires Codes(s)
    ensures CString(EncodeAll(s))
    decreases |s|
  {
    if s != [] {
      EncodesValid(s[0]);
      EncodedIsCString(s[1..]);
    }
  }

  /** Written code points read back as themselves: in particular, none is cut. */
  lemma {:induction false} DecodesAll(t: Bytes, p: nat, s: seq<nat>)
    requires Codes(s) && CString(t) && p <= |t| && t[p..] == EncodeAll(s)
    ensures DecodeFrom(t, p) == s
    decreases |s|
  {
    hide Decode, Encode;
    if s != [] {
      var e := Encode(s[0]);
      assert t[p..p + |e|] == e by { assert t[p..][..|e|] == e; }
      DecodesEncoded(t, p, s[0]);
      assert t[p + |e|..] == t[p..][|e|..] == EncodeAll(s[1..]);
      EncodeNonempty(s[0]);
      DecodesAll(t, p + |e|, s[1..]);
    }
  }

  lemma EncodeNonempty(c: nat)
    requires c <= MAX_CODE
    ensures |Encode(c)| >= 1
  {}

  /** The output holds whole, valid code points, no two of which compose, and fits its buffer with the terminator. */
  lemma ResultIsClean(t: Bytes, size: nat)
    requires CString(t)
    ensures var out := Result(t, size);
            && CString(out) && (size > 0 ==> |out| < size)
            && Composed(DecodeFrom(out, 0)) && Codes(DecodeFrom(out, 0)) && EncodeAll(DecodeFrom(out, 0)) == out
            && DecodeFrom(out, 0) <= Compose(DecodeFrom(t, 0))
  {
    hide Composed, Codes, Compose, Fitting, EncodeAll;
    Rest(t, 0, 0, size);
    var all := Compose(DecodeFrom(t, 0));
    var kept := Fitting(all, 0, size);
    var out := Result(t, size);
    FittingCodes(all, 0, size);
    EncodedIsCString(kept);
    assert out[0..] == out;
    DecodesAll(out, 0, kept);
    ComposeLeavesNone(DecodeFrom(t, 0));
    ComposedPrefix(kept, all);
  }

  /** Normalising again changes nothing. */
  lemma Idempotent(t: Bytes, size: nat)
    requires CString(t)
    ensures CString(Result(t, size)) && Result(Result(t, size), size) == Result(t, size)
  {
    hide Composed, Codes, Compose, Fitting, EncodeAll;
    ResultIsClean(t, size);
    var out := Result(t, size);
    var s := DecodeFrom(out, 0);
    ComposedStays(s);
    FittingCodes(s, 0, size);
    if size == 0 {
      FittingCodes(Compose(DecodeFrom(t, 0)), 0, 0) by { Rest(t, 0, 0, 0); }
      NothingEncoded();
    }
  }

  lemma NothingEncoded()
    ensures EncodeAll([]) == []
  {}

  // ---------- nothing is lost in a buffer as long as the input ----------

  lemma DecodeLength(t: Bytes, p: nat)
    requires p < |t| && CString(t)
    ensures var (v, next) := Decode(t, p); v <= MAX_CODE && p + |Encode(v)| <= next
  {
    hide Encode, Utf8Char;
    DecodesGrammar(t, p);
    var (v, next) := Decode(t, p);
    if !Utf8Char(t[p..next]) {
      Encode12(0x3F, 0);
    }
  }

  lemma {:induction false} ComposedLength(t: Bytes, p: nat)
    requires p <= |t| && CString(t)
    ensures Codes(Compose(DecodeFrom(t, p))) && |EncodeAll(Compose(DecodeFrom(t, p)))| <= |t| - p
    decreases |t| - p
  {
    hide Decode, Mark, Encode, Compose, DecodeFrom, Scalar;
    Rest(t, p, 0, 0);
    if p < |t| {
      Next(t, p);
      var (cp, next) := Decode(t, p);
      DecodeLength(t, p);
      ComposedLength(t, next);
      var s, head := Compose(DecodeFrom(t, next)), cp;
      if next < |t| && Mark(cp, Decode(t, next).0) != 0 {
        var (mark, after) := Decode(t, next);
        DecodeLength(t, next);
        MarkIsFinal(cp, mark, 0, 0);
        ComposedLength(t, after);
        s, head := Compose(DecodeFrom(t, after)), Mark(cp, mark);
        EncodeNonempty(cp);
      }
      assert Compose(DecodeFrom(t, p)) == [head] + s && ([head] + s)[1..] == s;
    } else {
      NothingLeft(t);
    }
  }

  lemma NothingLeft(t: Bytes)
    requires CString(t)
    ensures Compose(DecodeFrom(t, |t|)) == []
  {}

  /** A buffer longer than the input keeps every code point. */
  lemma LongBufferKeepsAll(t: Bytes, size: nat)
    requires CString(t) && |t| < size
    ensures CString(Result(t, size)) && DecodeFrom(Result(t, size), 0) == Compose(DecodeFrom(t, 0))
  {
    hide Compose, Fitting, EncodeAll, Codes;
    ComposedLength(t, 0);
    var all := Compose(DecodeFrom(t, 0));
    FittingCodes(all, 0, size);
    EncodedIsCString(all);
    var out := Result(t, size);
    assert out[0..] == out;
    DecodesAll(out, 0, all);
  }
}
