/** Exactly which paths survive the table of 256 segments, told from the depth of their live segments. */
module PathOverflow {
  import opened PathNormal
  import opened PathMeaning

  /** Whether the live segments have been more than 256 at some point; for an absolute path, since it was last back at the root. */
  function Deep(absolute: bool, stack: seq<string>, deep: bool, segments: seq<string>): bool
    decreases |segments|
  {
    if segments == [] then deep
    else
      var next := Push(absolute, stack, segments[0]);
      Deep(absolute, next, |next| > SEGMENTS || (deep && !(absolute && next == [])), segments[1..])
  }

  /** 256 times "..": the one stack that the full table holds even after it has overflowed. */
  const ALL_UPS: seq<string> := seq(SEGMENTS, _ => "..")

  // ---------- absolute paths ----------

  lemma NoUpsInside(stack: seq<string>)
    requires Normal(true, stack)
    ensures forall i | 0 <= i < |stack| :: stack[i] != ".."
  {}

  /** Too deep, the table holds fewer segments than are live, until both are at the root. */
  lemma {:induction false} AbsoluteFalls(ideal: seq<string>, table: seq<string>, deep: bool, segments: seq<string>)
    requires Normal(true, ideal) && Normal(true, table) && AreSegments(segments) && |table| <= SEGMENTS
    requires if deep then |table| < |ideal| else table == ideal
    ensures ReduceCapped(true, table, segments) == Reduce(true, ideal, segments) <==> !Deep(true, ideal, deep, segments)
    decreases |segments|
  {
    hide Normal;
    if segments != [] {
      var next, capped := Push(true, ideal, segments[0]), PushCapped(true, table, segments[0]);
      NoUpsInside(ideal);
      NoUpsInside(table);
      PushNormal(true, ideal, segments[0]);
      PushNormal(true, table, segments[0]);
      AbsoluteFalls(next, capped, |next| > SEGMENTS || (deep && next != []), segments[1..]);
    }
  }

  // ---------- relative paths ----------

  /** A push changes the climbs in front and the length by one, or removes a name. */
  lemma PushCounts(stack: seq<string>, segment: string)
    requires Normal(false, stack)
    ensures var next := Push(false, stack, segment);
            if segment == "." then next == stack
            else if segment != ".." then Ups(next) == Ups(stack) && |next| == |stack| + 1
            else if |stack| > Ups(stack) then Ups(next) == Ups(stack) && |next| == |stack| - 1
            else Ups(next) == Ups(stack) + 1 && |next| == |stack| + 1
  {
    hide Normal;
    if stack != [] { LastIsName(stack); }
    if segment == ".." && |stack| > Ups(stack) {
      UpsOfPrefix(stack, |stack| - 1);
    } else if segment != "." {
      UpsSnoc(stack, segment);
    }
  }

  /** The last segment is a name unless there are only climbs. */
  lemma {:induction false} LastIsName(stack: seq<string>)
    requires Normal(false, stack) && stack != []
    ensures stack[|stack| - 1] == ".." <==> Ups(stack) == |stack|
    decreases |stack|
  {
    NormalTail(false, stack);
    if |stack| > 1 {
      LastIsName(stack[1..]);
      if stack[0] != ".." { NoUps(stack); }
    }
  }

  lemma {:induction false} UpsOfPrefix(stack: seq<string>, n: nat)
    requires Ups(stack) <= n <= |stack|
    ensures Ups(stack[..n]) == Ups(stack)
    decreases |stack|
  {
    if stack != [] && stack[0] == ".." {
      UpsOfPrefix(stack[1..], n - 1);
      assert stack[..n][1..] == stack[1..][..n - 1];
    }
  }

  lemma {:induction false} UpsSnoc(stack: seq<string>, segment: string)
    ensures Ups(stack + [segment]) == if Ups(stack) == |stack| && segment == ".." then |stack| + 1 else Ups(stack)
    decreases |stack|
  {
    if stack == [] {
      assert [segment][1..] == [];
    } else if stack[0] == ".." {
      UpsSnoc(stack[1..], segment);
      assert (stack + [segment])[1..] == stack[1..] + [segment];
    }
  }

  /** Once too deep, the table climbs too often, or lacks names, or is full of climbs. */
  predicate Fallen(ideal: seq<string>, table: seq<string>) {
    var a, b := Ups(ideal), Ups(table);
    && |table| <= SEGMENTS && |table| - b <= |ideal| - a
    && (b > a || (b == a && |table| - b < |ideal| - a) || (a > SEGMENTS && b == SEGMENTS)
        || (a == |ideal| == SEGMENTS && b == |table| == SEGMENTS))
  }

  lemma Onward(ideal: seq<string>, table: seq<string>, deep: bool, segment: string)
    requires Normal(false, ideal) && Normal(false, table)
    requires if deep then Fallen(ideal, table) else table == ideal && |ideal| <= SEGMENTS
    ensures var next, capped := Push(false, ideal, segment), PushCapped(false, table, segment);
            if |next| > SEGMENTS || deep then Fallen(next, capped) else capped == next && |next| <= SEGMENTS
  {
    hide Normal, Ups;
    PushCounts(ideal, segment);
    PushCounts(table, segment);
  }

  lemma AllClimbs(stack: seq<string>)
    ensures stack == ALL_UPS <==> |stack| == SEGMENTS && Ups(stack) == SEGMENTS
  {
    UpsAre(stack);
    if stack == ALL_UPS { ClimbsOnly(stack); }
  }

  lemma {:induction false} ClimbsOnly(stack: seq<string>)
    requires forall i | 0 <= i < |stack| :: stack[i] == ".."
    ensures Ups(stack) == |stack|
  {
    if stack != [] { ClimbsOnly(stack[1..]); }
  }

  lemma {:induction false} RelativeFalls(ideal: seq<string>, table: seq<string>, deep: bool, segments: seq<string>)
    requires Normal(false, ideal) && Normal(false, table) && AreSegments(segments)
    requires if deep then Fallen(ideal, table) else table == ideal && |ideal| <= SEGMENTS
    ensures var end := Reduce(false, ideal, segments);
            ReduceCapped(false, table, segments) == end <==> !Deep(false, ideal, deep, segments) || end == ALL_UPS
    decreases |segments|
  {
    hide Normal, Ups;
    if segments == [] {
      AllClimbs(ideal);
      AllClimbs(table);
    } else {
      var next, capped := Push(false, ideal, segments[0]), PushCapped(false, table, segments[0]);
      PushNormal(false, ideal, segments[0]);
      PushNormal(false, table, segments[0]);
      Onward(ideal, table, deep, segments[0]);
      RelativeFalls(next, capped, |next| > SEGMENTS || deep, segments[1..]);
    }
  }

  /** A form leads where its path leads exactly when the path is not too deep: an absolute one since it last was back at the root,
      a relative one ever, unless 256 climbs are all that is left of it. */
  lemma KeepsMeaningIff(s: string)
    ensures Same(Form(s), s) <==> !Deep(Absolute(s), [], false, Segments(s)) || (!Absolute(s) && Ideal(s) == ALL_UPS)
  {
    hide Form, Same, SegmentsFrom;
    PathMeaning.KeepsMeaningIff(s);
    SegmentsAre(s, 0);
    if Absolute(s) {
      AbsoluteFalls([], [], false, Segments(s));
    } else {
      RelativeFalls([], [], false, Segments(s));
    }
  }
}
