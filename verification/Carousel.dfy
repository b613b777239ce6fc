/** Cyclic positions of the carousel: which entries are near enough to be drawn. */
module Carousel {
  import opened Arithmetic

  const SPAN := 3.2      // GGFE_CAROUSEL_SPAN

  /** C's remainder, which takes the sign of the dividend. */
  function Rem(a: int, n: int): int
    requires n > 0
  {
    if a >= 0 then a % n else -((-a) % n)
  }

  function WrapIndex(index: int, count: int): int {
    if count <= 0 then 0 else
      var r := Rem(index, count);
      if r < 0 then r + count else r
  }

  /** Wrapping is the mathematical remainder. */
  lemma WrapIsMod(index: int, count: int)
    requires count > 0
    ensures WrapIndex(index, count) == index % count
  {
    if index < 0 {
      var q, r := (-index) / count, (-index) % count;
      assert index == count * -q - r;
      if r == 0 {
        ModUnique(index, count, -q, 0);
      } else {
        assert count * (-q - 1) == count * -q - count;
        ModUnique(index, count, -q - 1, count - r);
      }
    }
  }

  /** Two logical positions on the same turn of the carousel. */
  predicate Congruent(a: int, b: int, count: int)
    requires count > 0
  {
    a % count == b % count
  }

  lemma CongruentShift(a: int, b: int, k: int, count: int)
    requires count > 0 && Congruent(a, b, count)
    ensures Congruent(a + k, b + k, count)
  {
    var qa, qb := a / count, b / count;
    assert a == count * qa + a % count && b == count * qb + b % count;
    var r := (b + k) % count;
    var q := (b + k) / count;
    assert b + k == count * q + r;
    assert a + k == count * (q + qa - qb) + r by {
      assert count * (q + qa - qb) == count * q + count * qa - count * qb;
    }
    ModUnique(a + k, count, q + qa - qb, r);
  }

  lemma WrapCongruent(a: int, count: int)
    requires count > 0
    ensures 0 <= WrapIndex(a, count) < count && Congruent(WrapIndex(a, count), a, count)
  {
    WrapIsMod(a, count);
    ModUnique(a % count, count, 0, a % count);
  }

  // ---------- fmodf and the distance ----------

  function Trunc(r: real): int { if r >= 0.0 then r.Floor else -((-r).Floor) }

  function Fmod(x: real, n: int): real
    requires n > 0
  {
    var m := n as real;
    x - m * Trunc(x / m) as real
  }

  function CyclicDistance(index: int, pos: real, count: int): real {
    if count <= 0 then 0.0 else
      var d := Fmod(index as real - pos, count);
      var half := count as real * 0.5;
      var d := if d > half then d - count as real else d;
      if d < -half then d + count as real else d
  }

  function Abs(r: real): real { if r < 0.0 then -r else r }

  lemma FmodBound(x: real, n: int)
    requires n > 0
    ensures -(n as real) < Fmod(x, n) < n as real
  {
    FmodReal(x, n as real);
  }

  lemma FmodReal(x: real, m: real)
    requires m > 0.0
    ensures -m < x - m * Trunc(x / m) as real < m
  {
    Quotient(x, m);
    PartBound(x, x / m, m, Trunc(x / m) as real);
  }

  lemma Quotient(x: real, m: real)
    requires m > 0.0
    ensures x == (x / m) * m
  {}

  lemma PartBound(x: real, q: real, m: real, t: real)
    requires m > 0.0 && x == q * m && -1.0 < q - t < 1.0
    ensures -m < x - m * t < m
  {
    var f := q - t;
    Squeeze(f, m);
    assert f * m == q * m - t * m;
    assert x - m * t == f * m;
    assert x - m * t < m;
  }

  lemma Squeeze(f: real, n: real)
    requires -1.0 < f < 1.0 && n > 0.0
    ensures -n < f * n < n
  {
    assert (1.0 - f) * n > 0.0 && (1.0 + f) * n > 0.0;
  }

  /** The distance is the nearest equivalent turn: it differs from index - pos by whole turns and is
      at most half a turn either way. */
  lemma NearestTurn(index: int, pos: real, count: int) returns (k: int)
    requires count > 0
    ensures CyclicDistance(index, pos, count) == index as real - pos + (k * count) as real
    ensures Abs(CyclicDistance(index, pos, count)) <= count as real * 0.5
  {
    FmodBound(index as real - pos, count);
    var c := count as real;
    var t := Trunc((index as real - pos) / c);
    var d, half := Fmod(index as real - pos, count), c * 0.5;
    Turns(t, count);
    assert d == index as real - pos - (t * count) as real;
    hide Fmod, Trunc;
    k := if d > half then -t - 1 else if d < -half then -t + 1 else -t;
  }

  lemma Turns(t: int, count: int)
    ensures (-t - 1) * count == -(t * count) - count
    ensures (-t + 1) * count == -(t * count) + count
    ensures (-t) * count == -(t * count)
    ensures (t * count) as real == count as real * t as real
  {}

  // ---------- what is in view ----------

  predicate InView(index: int, pos: real, count: int) {
    0 <= index < count && Abs(CyclicDistance(index, pos, count)) <= SPAN
  }

  /** An entry in view stands at an integer position within the span. */
  lemma ViewPosition(index: int, pos: real, count: int) returns (m: int)
    requires InView(index, pos, count)
    ensures m % count == index && pos - SPAN <= m as real <= pos + SPAN
  {
    hide CyclicDistance;
    var k := NearestTurn(index, pos, count);
    m := index + k * count;
    ModUnique(m, count, k, index);
  }

  /** Where an entry stands after whole turns. */
  function Turned(index: int, count: int, turns: int): int { index + turns * count }

  /** An entry is in view exactly when it stands, on some turn, at most 3.2 positions away. */
  lemma InViewIff(index: int, pos: real, count: int)
    requires 0 <= index < count
    ensures InView(index, pos, count) <==> exists k :: pos - 3.2 <= Turned(index, count, k) as real <= pos + 3.2
  {
    hide CyclicDistance;
    var near := NearestTurn(index, pos, count);
    assert Turned(index, count, near) as real - pos == CyclicDistance(index, pos, count);
    hide Turned;
    forall k ensures Abs(CyclicDistance(index, pos, count)) <= Abs(Turned(index, count, k) as real - pos) {
      if k != near { Farther(index, count, near, k); }
    }
  }

  /** Two different turns of an entry stand at least the whole library apart. */
  lemma Farther(index: int, count: int, j: int, k: int)
    requires count > 0 && j != k
    ensures Turned(index, count, k) >= Turned(index, count, j) + count || Turned(index, count, k) <= Turned(index, count, j) - count
  {
    Grows(count, k - j);
    assert (k - j) * count == k * count - j * count;
  }

  /** Entries at n consecutive positions from lo on. */
  function Window(lo: int, n: nat, count: int): (r: set<int>)
    requires count > 0
    ensures |r| <= n
  {
    if n == 0 then {} else Window(lo, n - 1, count) + {(lo + n - 1) % count}
  }

  /** One more warmed entry. */
  lemma WindowGrows(center: int, offset: int, count: int)
    requires count > 0 && -4 <= offset <= 4
    ensures Window(center - 4, offset + 5, count) == Window(center - 4, offset + 4, count) + {WrapIndex(center + offset, count)}
    ensures |Window(center - 4, offset + 5, count)| <= 9
  {
    WrapIsMod(center + offset, count);
  }

  lemma {:induction false} InWindow(lo: int, n: nat, count: int, m: int)
    requires count > 0 && lo <= m < lo + n
    ensures m % count in Window(lo, n, count)
  {
    if m < lo + n - 1 {
      InWindow(lo, n - 1, count, m);
    }
  }

  /** Whatever the position and the library size, everything in view is among seven entries. */
  lemma SevenInView(pos: real, count: int)
    requires count > 0
    ensures forall i | InView(i, pos, count) :: i in Window(Ceil(pos - SPAN), 7, count)
  {
    forall i | InView(i, pos, count) ensures i in Window(Ceil(pos - SPAN), 7, count) {
      var m := ViewPosition(i, pos, count);
      InWindow(Ceil(pos - SPAN), 7, count, m);
    }
  }

  /** The nine entries around a slot hold everything in view while the carousel comes one slot to it:
      from a full slot away on either side to 0.03 past it. */
  lemma WarmCoversMove(center: int, to: int, pos: real, count: int, i: int)
    requires count > 0 && Congruent(center, to, count)
    requires to as real - 1.0 <= pos <= to as real + 0.03 || to as real - 0.03 <= pos <= to as real + 1.0
    requires InView(i, pos, count)
    ensures i in Window(center - 4, 9, count)
  {
    var m := ViewPosition(i, pos, count);
    CongruentShift(center, to, m - to, count);
    InWindow(center - 4, 9, count, center + (m - to));
  }
}
