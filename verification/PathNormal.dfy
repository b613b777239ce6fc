/** Lexical normalisation of paths: what it keeps, its normal forms, and where its segment table runs out. */
module PathNormal {
  import opened Optional

  const PATH_MAX: nat := 4096
  const SEGMENTS: nat := 256

  // ---------- segments ----------

  function SkipSlashes(s: string, p: nat): (q: nat)
    requires p <= |s|
    ensures p <= q <= |s| && (q < |s| ==> s[q] != '/')
    decreases |s| - p
  {
    if p < |s| && s[p] == '/' then SkipSlashes(s, p + 1) else p
  }

  function SegmentEnd(s: string, p: nat): (e: nat)
    requires p <= |s|
    ensures p <= e <= |s| && (e < |s| ==> s[e] == '/') && (p < |s| && s[p] != '/' ==> p < e)
    decreases |s| - p
  {
    if p < |s| && s[p] != '/' then SegmentEnd(s, p + 1) else p
  }

  /** The segments from a position on. */
  function SegmentsFrom(s: string, p: nat): seq<string>
    requires p <= |s|
    decreases |s| - p
  {
    var q := SkipSlashes(s, p);
    if q == |s| then []
    else
      var e := SegmentEnd(s, q);
      [s[q..e]] + SegmentsFrom(s, if e < |s| then e + 1 else e)
  }

  function Segments(s: string): seq<string> { SegmentsFrom(s, 0) }

  predicate Absolute(s: string) { s != "" && s[0] == '/' }

  // ---------- reduction ----------

  /** One segment on the stack of live segments, with room for all. */
  function Push(absolute: bool, stack: seq<string>, segment: string): seq<string> {
    if segment == "." then stack
    else if segment == ".." then
      if stack != [] && stack[|stack| - 1] != ".." then stack[..|stack| - 1]
      else if absolute then stack else stack + [".."]
    else stack + [segment]
  }

  /** The same in a table of 256: what does not fit is dropped. */
  function PushCapped(absolute: bool, stack: seq<string>, segment: string): seq<string> {
    var next := Push(absolute, stack, segment);
    if |next| > SEGMENTS then stack else next
  }

  function Reduce(absolute: bool, stack: seq<string>, segments: seq<string>): seq<string>
    decreases |segments|
  {
    if segments == [] then stack else Reduce(absolute, Push(absolute, stack, segments[0]), segments[1..])
  }

  function ReduceCapped(absolute: bool, stack: seq<string>, segments: seq<string>): seq<string>
    decreases |segments|
  {
    if segments == [] then stack else ReduceCapped(absolute, PushCapped(absolute, stack, segments[0]), segments[1..])
  }

  /** The table never overflows while the segments are read. */
  predicate Roomy(absolute: bool, stack: seq<string>, segments: seq<string>)
    decreases |segments|
  {
    && |stack| <= SEGMENTS
    && (segments != [] ==> Roomy(absolute, Push(absolute, stack, segments[0]), segments[1..]))
  }

  function Join(stack: seq<string>): string {
    if stack == [] then "" else if |stack| == 1 then stack[0]
    else Join(stack[..|stack| - 1]) + "/" + stack[|stack| - 1]
  }

  function Render(absolute: bool, stack: seq<string>): string {
    if stack == [] then (if absolute then "/" else ".") else (if absolute then "/" else "") + Join(stack)
  }

  /** The normal form of a path. */
  function Form(s: string): string { Render(Absolute(s), ReduceCapped(Absolute(s), [], Segments(s))) }

  /** Rejected are the empty path, one that fills the work buffer, and a form that does not fit the result. */
  function Normalized(s: string, size: nat): Option<string> {
    if s == "" || |s| >= PATH_MAX || |Form(s)| >= size then None else Some(Form(s))
  }

  // ---------- the method ----------

  /** The result buffer, which a piece enters only whole. */
  method AppendString(out: string, size: nat, s: string) returns (ok: bool, next: string)
    ensures ok <==> |out| + |s| < size
    ensures ok ==> next == out + s
  {
    if |out| + |s| + 1 > size {
      return false, out;
    }
    return true, out + s;
  }

  method NormalizePath(s: string, size: nat) returns (r: Option<string>)
    ensures r == Normalized(s, size)
  {
    if s == "" || |s| + 1 > PATH_MAX {
      return None;
    }
    var stack := Collect(s);
    r := Write(s[0] == '/', stack, size);
  }

  /** One segment into the table of 256. */
  method PushSegment(absolute: bool, stack: seq<string>, segment: string) returns (next: seq<string>)
    requires |stack| <= SEGMENTS
    ensures next == PushCapped(absolute, stack, segment) && |next| <= SEGMENTS
  {
    if segment == "." {
      return stack;
    }
    if segment == ".." {
      if |stack| > 0 && stack[|stack| - 1] != ".." {
        return stack[..|stack| - 1];
      }
      return if !absolute && |stack| < SEGMENTS then stack + [segment] else stack;
    }
    return if |stack| < SEGMENTS then stack + [segment] else stack;
  }

  /** The segment loop. */
  method Collect(s: string) returns (stack: seq<string>)
    requires s != ""
    ensures stack == ReduceCapped(Absolute(s), [], Segments(s))
  {
    hide ReduceCapped, SegmentsFrom, Push, PushCapped;
    var absolute := s[0] == '/';
    stack := [];
    var p := 0;
    while p < |s|
      invariant p <= |s| && |stack| <= SEGMENTS
      invariant ReduceCapped(absolute, [], Segments(s)) == ReduceCapped(absolute, stack, SegmentsFrom(s, p))
      decreases |s| - p
    {
      ghost var p0, stack0 := p, stack;
      while p < |s| && s[p] == '/'
        invariant p0 <= p <= |s| && SkipSlashes(s, p0) == SkipSlashes(s, p)
      {
        p := p + 1;
      }
      NextSegment(s, p0);
      Reduced(absolute, stack0, SegmentsFrom(s, p0));
      if p == |s| {
        break;
      }
      var start := p;
      while p < |s| && s[p] != '/'
        invariant start <= p <= |s| && SegmentEnd(s, start) == SegmentEnd(s, p)
      {
        p := p + 1;
      }
      var segment := s[start..p];
      if p < |s| {
        p := p + 1;
      }
      stack := PushSegment(absolute, stack, segment);
    }
    NoSegments(s);
    Reduced(absolute, stack, []);
  }

  lemma NextSegment(s: string, p: nat)
    requires p <= |s|
    ensures var q := SkipSlashes(s, p);
            SegmentsFrom(s, p) == if q == |s| then [] else
              [s[q..SegmentEnd(s, q)]] + SegmentsFrom(s, if SegmentEnd(s, q) < |s| then SegmentEnd(s, q) + 1 else |s|)
  {}

  lemma NoSegments(s: string)
    ensures SegmentsFrom(s, |s|) == []
  {}

  lemma Reduced(absolute: bool, stack: seq<string>, segments: seq<string>)
    ensures ReduceCapped(absolute, stack, segments)
         == if segments == [] then stack else ReduceCapped(absolute, PushCapped(absolute, stack, segments[0]), segments[1..])
  {}

  /** The output loop. */
  method Write(absolute: bool, stack: seq<string>, size: nat) returns (r: Option<string>)
    ensures r == if |Render(absolute, stack)| < size then Some(Render(absolute, stack)) else None
  {
    if size == 0 {
      return None;
    }
    var out, ok := "", true;
    var slash := if absolute then "/" else "";
    if absolute {
      ok, out := AppendString(out, size, "/");
    }
    JoinGrows(stack);
    if !ok {
      return None;
    }
    if |stack| > 0 {
      assert stack[..0] == [];
      for i := 0 to |stack|
        invariant out == slash + Join(stack[..i]) && (i > 0 ==> |out| < size)
      {
        assert stack[..i + 1][..i] == stack[..i];
        assert |Join(stack[..i + 1])| <= |Join(stack)|;
        if i > 0 {
          ok, out := AppendString(out, size, "/");
          if !ok {
            return None;
          }
        }
        ok, out := AppendString(out, size, stack[i]);
        if !ok {
          return None;
        }
      }
      assert stack[..|stack|] == stack;
      return Some(out);
    }
    if !absolute {
      return if 1 < size then Some(".") else None;
    }
    assert "" + "/" == "/";
    return Some(out);
  }

  lemma {:induction false} JoinGrows(stack: seq<string>)
    ensures forall i | 0 <= i <= |stack| :: |Join(stack[..i])| <= |Join(stack)|
  {
    if stack != [] {
      var front := stack[..|stack| - 1];
      JoinGrows(front);
      forall i | 0 <= i <= |stack| ensures |Join(stack[..i])| <= |Join(stack)| {
        if i < |stack| { assert front[..i] == stack[..i]; } else { assert stack[..i] == stack; }
      }
    }
  }

  // ---------- meaning ----------

  /** A directory is the names on the way to it from the root; one segment moves there. */
  function Move(dir: seq<string>, segment: string): seq<string> {
    if segment == "." then dir
    else if segment == ".." then (if dir == [] then [] else dir[..|dir| - 1])
    else dir + [segment]
  }

  function Walk(dir: seq<string>, segments: seq<string>): seq<string>
    decreases |segments|
  {
    if segments == [] then dir else Walk(Move(dir, segments[0]), segments[1..])
  }

  /** Where a path leads from a directory, without symbolic links. */
  function Meaning(dir: seq<string>, s: string): seq<string> {
    Walk(if Absolute(s) then [] else dir, Segments(s))
  }

  predicate IsSegment(s: string) { s != "" && '/' !in s }

  predicate AreSegments(segments: seq<string>) { forall i | 0 <= i < |segments| :: IsSegment(segments[i]) }

  /** Names, after ".." only, and those only when relative. */
  predicate Normal(absolute: bool, stack: seq<string>) {
    && AreSegments(stack)
    && (forall i | 0 <= i < |stack| :: stack[i] != ".")
    && (forall i | 0 <= i < |stack| :: stack[i] == ".." ==> !absolute && (i > 0 ==> stack[i - 1] == ".."))
  }

  lemma {:induction false} SegmentsAre(s: string, p: nat)
    requires p <= |s|
    ensures AreSegments(SegmentsFrom(s, p))
    decreases |s| - p
  {
    var q := SkipSlashes(s, p);
    if q < |s| {
      var e := SegmentEnd(s, q);
      SegmentsAre(s, if e < |s| then e + 1 else e);
      NoSlash(s, q);
    }
  }

  lemma {:induction false} NoSlash(s: string, p: nat)
    requires p <= |s|
    ensures '/' !in s[p..SegmentEnd(s, p)]
    decreases |s| - p
  {
    if p < |s| && s[p] != '/' {
      NoSlash(s, p + 1);
      assert s[p..SegmentEnd(s, p)] == [s[p]] + s[p + 1..SegmentEnd(s, p)];
    }
  }

  lemma PushNormal(absolute: bool, stack: seq<string>, segment: string)
    requires Normal(absolute, stack) && IsSegment(segment)
    ensures Normal(absolute, Push(absolute, stack, segment))
  {}

  lemma {:induction false} ReducedNormal(absolute: bool, stack: seq<string>, segments: seq<string>)
    requires Normal(absolute, stack) && AreSegments(segments)
    ensures Normal(absolute, ReduceCapped(absolute, stack, segments))
    ensures |stack| <= SEGMENTS ==> |ReduceCapped(absolute, stack, segments)| <= SEGMENTS
    decreases |segments|
  {
    hide Normal;
    if segments != [] {
      PushNormal(absolute, stack, segments[0]);
      ReducedNormal(absolute, PushCapped(absolute, stack, segments[0]), segments[1..]);
    }
  }

  lemma {:induction false} WalkSnoc(dir: seq<string>, segments: seq<string>, last: string)
    ensures Walk(dir, segments + [last]) == Move(Walk(dir, segments), last)
    decreases |segments|
  {
    if segments != [] {
      assert (segments + [last])[1..] == segments[1..] + [last];
      WalkSnoc(Move(dir, segments[0]), segments[1..], last);
    } else {
      assert [last][1..] == [];
    }
  }

  /** Pushing a segment on the stack moves as the segment does, from any directory. */
  lemma PushMoves(absolute: bool, stack: seq<string>, segment: string, dir: seq<string>)
    requires Normal(absolute, stack) && (absolute ==> dir == [])
    ensures Walk(dir, Push(absolute, stack, segment)) == Move(Walk(dir, stack), segment)
  {
    hide Walk;
    if stack != [] && segment == ".." && stack[|stack| - 1] != ".." {
      var front, last := stack[..|stack| - 1], stack[|stack| - 1];
      assert stack == front + [last];
      WalkSnoc(dir, front, last);
      assert (Walk(dir, front) + [last])[..|Walk(dir, front)|] == Walk(dir, front);
    } else if segment == ".." && absolute {
      assert stack == [];
      WalkNothing(dir);
    } else {
      WalkSnoc(dir, stack, segment);
    }
  }

  lemma WalkNothing(dir: seq<string>)
    ensures Walk(dir, []) == dir
  {}

  lemma {:induction false} ReducedMoves(absolute: bool, stack: seq<string>, segments: seq<string>, dir: seq<string>)
    requires Normal(absolute, stack) && AreSegments(segments) && (absolute ==> dir == [])
    ensures Walk(dir, Reduce(absolute, stack, segments)) == Walk(Walk(dir, stack), segments)
    decreases |segments|
  {
    hide Normal;
    if segments != [] {
      PushNormal(absolute, stack, segments[0]);
      PushMoves(absolute, stack, segments[0], dir);
      ReducedMoves(absolute, Push(absolute, stack, segments[0]), segments[1..], dir);
    }
  }

  lemma {:induction false} RoomyIsExact(absolute: bool, stack: seq<string>, segments: seq<string>)
    requires Roomy(absolute, stack, segments)
    ensures ReduceCapped(absolute, stack, segments) == Reduce(absolute, stack, segments)
    decreases |segments|
  {
    if segments != [] {
      RoomyIsExact(absolute, Push(absolute, stack, segments[0]), segments[1..]);
    }
  }

  // ---------- the form as a path ----------

  lemma {:induction false} SameScan(a: string, b: string, p: nat)
    requires p <= |a| && b != "" && b[0] == '/'
    ensures SkipSlashes(a, p) < |a| ==> SkipSlashes(a + b, p) == SkipSlashes(a, p)
    ensures SkipSlashes(a, p) == |a| ==> SkipSlashes(a + b, p) == SkipSlashes(a + b, |a|)
    ensures p < |a| ==> SegmentEnd(a + b, p) == SegmentEnd(a, p)
    decreases |a| - p
  {
    if p < |a| {
      assert (a + b)[p] == a[p];
      SameScan(a, b, p + 1);
      if p + 1 == |a| {
        assert (a + b)[p + 1] == '/';
      }
    }
  }

  /** One more segment at the end of a path. */
  lemma {:induction false} SegmentsSnoc(a: string, segment: string, p: nat)
    requires p <= |a| && IsSegment(segment)
    ensures SegmentsFrom(a + ("/" + segment), p) == SegmentsFrom(a, p) + [segment]
    decreases |a| - p
  {
    hide SkipSlashes, SegmentEnd, SegmentsFrom, IsSegment;
    var b := "/" + segment;
    var s := a + b;
    var q := SkipSlashes(a, p);
    SameScan(a, b, p);
    LastSegment(a, segment);
    if q < |a| {
      SameScan(a, b, q);
      var e := SegmentEnd(a, q);
      var next := if e < |a| then e + 1 else e;
      SegmentsSnoc(a, segment, next);
      ScansFirst(a, b, p, segment);
    } else {
      NextSegment(a, p);
      NextSegment(s, p);
      NextSegment(s, |a| + 1);
    }
  }

  lemma ScansFirst(a: string, b: string, p: nat, segment: string)
    requires p <= |a| && b != "" && SkipSlashes(a, p) < |a| && SkipSlashes(a + b, p) == SkipSlashes(a, p)
    requires var e := SegmentEnd(a, SkipSlashes(a, p));
             && SegmentEnd(a + b, SkipSlashes(a, p)) == e && SegmentsFrom(a + b, |a|) == [segment]
             && SegmentsFrom(a + b, |a| + 1) == [segment]
             && SegmentsFrom(a + b, if e < |a| then e + 1 else e) == SegmentsFrom(a, if e < |a| then e + 1 else e) + [segment]
    ensures SegmentsFrom(a + b, p) == SegmentsFrom(a, p) + [segment]
  {
    hide SkipSlashes, SegmentEnd, SegmentsFrom;
    var q := SkipSlashes(a, p);
    var e := SegmentEnd(a, q);
    NextSegment(a, p);
    NextSegment(a + b, p);
    NoSegments(a);
    SegmentAdvances(a, q);
    assert (a + b)[q..e] == a[q..e];
    var next := SegmentsFrom(a, if e < |a| then e + 1 else e);
    assert ([a[q..e]] + next) + [segment] == [a[q..e]] + (next + [segment]);
  }

  lemma LastSegment(a: string, segment: string)
    requires IsSegment(segment)
    ensures var s := a + ("/" + segment);
            && SkipSlashes(s, |a|) == |a| + 1 < |s| && SkipSlashes(s, |a| + 1) == |a| + 1
            && SegmentEnd(s, |a| + 1) == |s| && SegmentsFrom(s, |a| + 1) == [segment]
            && SegmentsFrom(s, |a|) == [segment]
  {
    var s := a + ("/" + segment);
    assert s[|a|] == '/' && s[|a| + 1] == segment[0] && segment[0] in segment;
    assert SkipSlashes(s, |a| + 1) == |a| + 1;
    forall i | |a| + 1 <= i < |s| ensures s[i] != '/' {
      assert s[i] == segment[i - |a| - 1] && segment[i - |a| - 1] in segment;
    }
    RunsToEnd(s, |a| + 1);
    NoSegments(s);
    assert s[|a| + 1..|s|] == segment;
    NextSegment(s, |a| + 1);
    NextSegment(s, |a|);
  }

  lemma {:induction false} RunsToEnd(s: string, p: nat)
    requires p <= |s| && forall i | p <= i < |s| :: s[i] != '/'
    ensures SegmentEnd(s, p) == |s|
    decreases |s| - p
  {
    if p < |s| { RunsToEnd(s, p + 1); }
  }

  lemma OneSegment(segment: string)
    requires IsSegment(segment)
    ensures Segments(segment) == [segment]
  {
    forall i | 0 <= i < |segment| ensures segment[i] != '/' { assert segment[i] in segment; }
    RunsToEnd(segment, 0);
    NoSegments(segment);
    assert segment[0..|segment|] == segment;
  }

  lemma {:induction false} SegmentsOfJoin(slash: string, stack: seq<string>)
    requires (slash == "/" || slash == "") && AreSegments(stack) && stack != []
    ensures Segments(slash + Join(stack)) == stack
    decreases |stack|
  {
    hide SegmentsFrom, IsSegment;
    var n := |stack| - 1;
    if n > 0 {
      SegmentsOfJoin(slash, stack[..n]);
      SegmentsSnoc(slash + Join(stack[..n]), stack[n], 0);
      assert slash + Join(stack) == (slash + Join(stack[..n])) + ("/" + stack[n]);
    } else if slash == "" {
      OneSegment(stack[0]);
      assert slash + Join(stack) == stack[0];
    } else {
      SegmentsSnoc("", stack[0], 0);
      NoSegments("");
      assert slash + Join(stack) == "" + ("/" + stack[0]);
    }
  }

  lemma {:induction false} JoinStarts(stack: seq<string>)
    requires stack != [] && stack[0] != ""
    ensures Join(stack) != "" && Join(stack)[0] == stack[0][0]
    decreases |stack|
  {
    if |stack| > 1 { JoinStarts(stack[..|stack| - 1]); }
  }

  /** What a rendered normal stack is as a path. */
  lemma RenderIs(absolute: bool, stack: seq<string>)
    requires Normal(absolute, stack)
    ensures Render(absolute, stack) != "" && Absolute(Render(absolute, stack)) == absolute
    ensures Segments(Render(absolute, stack)) == if stack == [] && !absolute then ["."] else stack
  {
    hide SegmentsFrom;
    if stack == [] {
      OneSegment(".");
      SlashIsEmpty();
    } else {
      SegmentsOfJoin(if absolute then "/" else "", stack);
      JoinStarts(stack);
      assert stack[0][0] in stack[0];
      assert "" + Join(stack) == Join(stack);
    }
  }

  lemma SlashIsEmpty()
    ensures Segments("/") == []
  {
    assert SkipSlashes("/", 0) == 1;
  }

  lemma {:induction false} ReducesToItself(absolute: bool, a: seq<string>, b: seq<string>)
    requires Normal(absolute, a + b)
    ensures Reduce(absolute, a, b) == a + b
    ensures |a + b| <= SEGMENTS ==> ReduceCapped(absolute, a, b) == a + b
    decreases |b|
  {
    if b != [] {
      assert (a + [b[0]]) + b[1..] == a + b;
      assert (a + b)[|a|] == b[0];
      assert a != [] ==> (a + b)[|a| - 1] == a[|a| - 1];
      ReducesToItself(absolute, a + [b[0]], b[1..]);
    } else {
      assert a + b == a;
    }
  }

  /** The stack the loop ends with. */
  function Final(s: string): seq<string> { ReduceCapped(Absolute(s), [], Segments(s)) }

  lemma FinalNormal(s: string)
    ensures Normal(Absolute(s), Final(s)) && |Final(s)| <= SEGMENTS
  {
    SegmentsAre(s, 0);
    ReducedNormal(Absolute(s), [], Segments(s));
  }

  /** An absolute form holds no "..", a relative one holds them only in front, and neither holds "." beside other segments. */
  lemma FormShape(s: string)
    ensures Absolute(Form(s)) == Absolute(s)
    ensures Segments(Form(s)) == ["."] || Normal(Absolute(s), Segments(Form(s)))
  {
    hide SegmentsFrom, ReduceCapped, Normal, Render;
    FinalNormal(s);
    RenderIs(Absolute(s), Final(s));
  }

  // ---------- idempotence and length ----------

  lemma FormOfForm(s: string)
    ensures Form(Form(s)) == Form(s)
  {
    hide SegmentsFrom, Normal, Render;
    FinalNormal(s);
    var absolute, stack := Absolute(s), Final(s);
    RenderIs(absolute, stack);
    ReducesToItself(absolute, [], stack) by { assert [] + stack == stack; }
    assert [] + stack == stack;
  }

  function Cost(stack: seq<string>): nat {
    if stack == [] then 0 else Cost(stack[..|stack| - 1]) + |stack[|stack| - 1]| + 1
  }

  lemma {:induction false} JoinCost(stack: seq<string>)
    ensures |Join(stack)| == if stack == [] then 0 else Cost(stack) - 1
  {
    if |stack| > 1 { JoinCost(stack[..|stack| - 1]); }
  }

  lemma PushCost(absolute: bool, stack: seq<string>, segment: string)
    ensures Cost(PushCapped(absolute, stack, segment)) <= Cost(stack) + |segment| + 1
  {
    assert (stack + [segment])[..|stack|] == stack;
  }

  lemma {:induction false} ReducedCost(absolute: bool, stack: seq<string>, s: string, p: nat)
    requires p <= |s|
    ensures var end := Cost(ReduceCapped(absolute, stack, SegmentsFrom(s, p)));
            end <= Cost(stack) + (if SegmentsFrom(s, p) == [] then 0 else |s| - SkipSlashes(s, p) + 1)
    decreases |s| - p
  {
    hide Cost, SegmentsFrom, SegmentEnd;
    NextSegment(s, p);
    var q := SkipSlashes(s, p);
    if q < |s| {
      var e := SegmentEnd(s, q);
      var next := if e < |s| then e + 1 else e;
      assert q < e by { SegmentAdvances(s, q); }
      PushCost(absolute, stack, s[q..e]);
      ReducedCost(absolute, PushCapped(absolute, stack, s[q..e]), s, next);
      if e == |s| { NoSegments(s); }
    }
  }

  lemma SegmentAdvances(s: string, q: nat)
    requires q < |s| && s[q] != '/'
    ensures q < SegmentEnd(s, q) <= |s|
  {}

  lemma FormIsShorter(s: string)
    requires s != ""
    ensures |Form(s)| <= |s|
  {
    hide SegmentsFrom, ReduceCapped;
    ReducedCost(Absolute(s), [], s, 0);
    JoinCost(Final(s));
    StartsAt(s);
  }

  lemma StartsAt(s: string)
    requires s != ""
    ensures if Absolute(s) then SkipSlashes(s, 0) >= 1 else SkipSlashes(s, 0) == 0
  {}

  /** Normalising a result again, in a buffer of the same size, gives it back. */
  lemma Idempotent(s: string, size: nat)
    requires Normalized(s, size).Some?
    ensures Normalized(Normalized(s, size).value, size) == Normalized(s, size)
    ensures |Normalized(s, size).value| <= |s|
  {
    hide Form;
    FormOfForm(s);
    FormIsShorter(s);
    FinalNormal(s);
    RenderIs(Absolute(s), Final(s));
    FormIsNotEmpty(s);
  }

  lemma FormIsNotEmpty(s: string)
    ensures Form(s) != ""
  {
    hide SegmentsFrom, ReduceCapped, Normal, Render;
    FinalNormal(s);
    RenderIs(Absolute(s), Final(s));
  }
}
