/** What normalisation keeps of a path's meaning, and that its results are canonical. */
module PathMeaning {
  import opened PathNormal

  // ---------- normal stacks as moves ----------

  /** How many ".." stand in front. */
  function Ups(stack: seq<string>): (n: nat)
    ensures n <= |stack|
  {
    if stack != [] && stack[0] == ".." then 1 + Ups(stack[1..]) else 0
  }

  lemma NormalTail(absolute: bool, stack: seq<string>)
    requires Normal(absolute, stack) && stack != []
    ensures Normal(absolute, stack[1..])
    ensures stack[0] != ".." ==> forall i | 0 <= i < |stack| :: stack[i] != ".."
    ensures absolute ==> stack[0] != ".."
  {
    if stack[0] != ".." {
      NoneUp(absolute, stack, |stack|);
    }
  }

  lemma {:induction false} NoneUp(absolute: bool, stack: seq<string>, n: nat)
    requires Normal(absolute, stack) && n <= |stack| && stack != [] && stack[0] != ".."
    ensures forall i | 0 <= i < n :: stack[i] != ".."
  {
    if n > 0 {
      NoneUp(absolute, stack, n - 1);
      assert n > 1 ==> stack[n - 2] != "..";
    }
  }

  lemma AbsoluteStays(stack: seq<string>)
    requires Normal(true, stack)
    ensures Ups(stack) == 0
  {
    if stack != [] { NormalTail(true, stack); }
  }

  /** Deep enough, a normal stack climbs by its "..", then goes down by its names. */
  lemma {:induction false} NormalWalks(absolute: bool, stack: seq<string>, dir: seq<string>)
    requires Normal(absolute, stack) && Ups(stack) <= |dir|
    ensures Walk(dir, stack) == dir[..|dir| - Ups(stack)] + stack[Ups(stack)..]
    ensures absolute ==> Ups(stack) == 0
    decreases |stack|
  {
    hide Normal, Walk, Ups;
    if stack == [] {
      WalkNothing(dir);
      NoUps(stack);
      assert dir + [] == dir;
    } else {
      NormalTail(absolute, stack);
      if stack[0] == ".." {
        ClimbsFirst(stack, dir);
        var up := dir[..|dir| - 1];
        NormalWalks(absolute, stack[1..], up);
        assert stack[1..][Ups(stack[1..])..] == stack[Ups(stack)..];
        assert up[..|up| - Ups(stack[1..])] == dir[..|dir| - Ups(stack)];
      } else {
        NoUps(stack);
        NotDot(absolute, stack);
        NamesWalk(stack, dir);
      }
    }
  }

  lemma NoUps(stack: seq<string>)
    requires stack == [] || stack[0] != ".."
    ensures Ups(stack) == 0
  {}

  lemma ClimbsFirst(stack: seq<string>, dir: seq<string>)
    requires stack != [] && stack[0] == ".." && Ups(stack) <= |dir|
    ensures Ups(stack) == 1 + Ups(stack[1..]) && dir != [] && Walk(dir, stack) == Walk(dir[..|dir| - 1], stack[1..])
  {}

  lemma NotDot(absolute: bool, stack: seq<string>)
    requires Normal(absolute, stack)
    ensures forall i | 0 <= i < |stack| :: stack[i] != "."
  {}

  lemma {:induction false} NamesWalk(names: seq<string>, dir: seq<string>)
    requires forall i | 0 <= i < |names| :: names[i] != "." && names[i] != ".."
    ensures Walk(dir, names) == dir + names
    decreases |names|
  {
    if names != [] {
      NamesWalk(names[1..], dir + [names[0]]);
      assert (dir + [names[0]]) + names[1..] == dir + names;
    }
  }

  function Longest(stack: seq<string>): (n: nat)
    ensures forall i | 0 <= i < |stack| :: |stack[i]| <= n
  {
    if stack == [] then 0
    else var n := Longest(stack[1..]); if |stack[0]| > n then |stack[0]| else n
  }

  /** A directory of n levels, none of whose names occurs in the stacks. */
  function Fresh(a: seq<string>, b: seq<string>, n: nat): (dir: seq<string>)
    ensures |dir| == n && forall i | 0 <= i < n :: dir[i] !in a && dir[i] !in b
  {
    var name := seq(Longest(a) + Longest(b) + 1, _ => 'a');
    seq(n, _ => name)
  }

  lemma UpsAre(stack: seq<string>)
    ensures forall i | 0 <= i < Ups(stack) :: stack[i] == ".."
  {}

  /** Where a stack leads from a directory, as part of an absolute or a relative path. */
  function Leads(absolute: bool, stack: seq<string>, dir: seq<string>): seq<string> {
    Walk(if absolute then [] else dir, stack)
  }

  /** Two normal stacks that lead the same way from one deep enough fresh directory are equal. */
  lemma NormalUnique(a: seq<string>, b: seq<string>, dir: seq<string>)
    requires Normal(false, a) && Normal(false, b)
    requires dir == Fresh(a, b, |a| + |b| + 1) && Walk(dir, a) == Walk(dir, b)
    ensures a == b
  {
    hide Fresh, Normal, Walk;
    NormalWalks(false, a, dir);
    NormalWalks(false, b, dir);
    var j, k := Ups(a), Ups(b);
    Apart(a, b, dir, j, k);
    Apart(b, a, dir, k, j);
    assert j == k;
    SameFront(a, b);
    SameTail(dir[..|dir| - j], a[j..], b[j..]);
    assert a == a[..j] + a[j..] && b == b[..j] + b[j..];
  }

  lemma SameTail(front: seq<string>, a: seq<string>, b: seq<string>)
    requires front + a == front + b
    ensures a == b
  {
    assert (front + a)[|front|..] == a && (front + b)[|front|..] == b;
  }

  /** Climbing less leaves a name of the directory where the other has a name of its own, or nothing. */
  lemma Apart(a: seq<string>, b: seq<string>, dir: seq<string>, j: nat, k: nat)
    requires j <= |a| && k <= |b| && k <= |dir| && forall i | 0 <= i < |dir| :: dir[i] !in b
    ensures j < k ==> dir[..|dir| - j] + a[j..] != dir[..|dir| - k] + b[k..]
  {
    if j < k {
      var l, r := dir[..|dir| - j] + a[j..], dir[..|dir| - k] + b[k..];
      assert l[|dir| - k] == dir[|dir| - k];
      if k < |b| {
        assert r[|dir| - k] == b[k];
      }
    }
  }

  lemma SameFront(a: seq<string>, b: seq<string>)
    requires Ups(a) == Ups(b)
    ensures a[..Ups(a)] == b[..Ups(b)]
  {
    UpsAre(a);
    UpsAre(b);
  }

  lemma WhereIsRelative(a: seq<string>, b: seq<string>)
    requires Normal(true, a) && Normal(false, b)
    ensures Walk([], a) != Walk(Fresh(a, b, |b| + 1), b)
  {
    hide Fresh, Normal, Walk;
    var dir := Fresh(a, b, |b| + 1);
    NormalWalks(false, b, dir);
    AbsoluteStays(a);
    NormalWalks(true, a, []);
    assert [][..0] + a[0..] == a;
    assert Walk(dir, b)[0] == dir[0];
  }

  // ---------- what is kept ----------

  /** The same place from every directory. */
  ghost predicate Same(s: string, t: string) { forall dir :: Meaning(dir, s) == Meaning(dir, t) }

  function Ideal(s: string): seq<string> { Reduce(Absolute(s), [], Segments(s)) }

  lemma {:induction false} IdealNormal(absolute: bool, stack: seq<string>, segments: seq<string>)
    requires Normal(absolute, stack) && AreSegments(segments)
    ensures Normal(absolute, Reduce(absolute, stack, segments))
    decreases |segments|
  {
    hide Normal;
    if segments != [] {
      PushNormal(absolute, stack, segments[0]);
      IdealNormal(absolute, Push(absolute, stack, segments[0]), segments[1..]);
    }
  }

  /** A path leads where its uncut stack of live segments leads. */
  lemma IdealMeans(s: string, dir: seq<string>)
    ensures Normal(Absolute(s), Ideal(s)) && Meaning(dir, s) == Leads(Absolute(s), Ideal(s), dir)
  {
    SegmentsAre(s, 0);
    IdealNormal(Absolute(s), [], Segments(s));
    ReducedMoves(Absolute(s), [], Segments(s), if Absolute(s) then [] else dir);
    WalkNothing(if Absolute(s) then [] else dir);
  }

  lemma FormMeans(s: string, dir: seq<string>)
    ensures Meaning(dir, Form(s)) == Leads(Absolute(s), Final(s), dir)
  {
    hide SegmentsFrom, Normal, Render;
    FinalNormal(s);
    RenderIs(Absolute(s), Final(s));
    if Final(s) == [] && !Absolute(s) {
      assert ["."][1..] == [];
    }
  }

  /** Where stacks of the same kind lead the same way from everywhere, they are equal. */
  lemma LeadsUnique(absolute: bool, a: seq<string>, b: seq<string>)
    requires Normal(absolute, a) && Normal(absolute, b)
    ensures (forall dir :: Leads(absolute, a, dir) == Leads(absolute, b, dir)) <==> a == b
  {
    hide Normal, Walk, Fresh;
    if forall dir :: Leads(absolute, a, dir) == Leads(absolute, b, dir) {
      if absolute {
        assert Leads(absolute, a, []) == Leads(absolute, b, []);
        AbsoluteStays(a);
        AbsoluteStays(b);
        NormalWalks(true, a, []);
        NormalWalks(true, b, []);
        assert [][..0] + a[0..] == a && [][..0] + b[0..] == b;
      } else {
        var dir := Fresh(a, b, |a| + |b| + 1);
        assert Leads(absolute, a, dir) == Leads(absolute, b, dir);
        NormalUnique(a, b, dir);
      }
    }
  }

  /** The form leads where the path leads, from every directory, exactly when the table ends with all live segments. */
  lemma KeepsMeaningIff(s: string)
    ensures Same(Form(s), s) <==> Final(s) == Ideal(s)
  {
    hide Form, Final, Ideal, Normal, Meaning, Leads;
    FinalNormal(s);
    IdealMeans(s, []);
    forall dir ensures Meaning(dir, Form(s)) == Leads(Absolute(s), Final(s), dir)
                       && Meaning(dir, s) == Leads(Absolute(s), Ideal(s), dir) {
      FormMeans(s, dir);
      IdealMeans(s, dir);
    }
    LeadsUnique(Absolute(s), Final(s), Ideal(s));
    if Same(Form(s), s) {
      forall dir ensures Leads(Absolute(s), Final(s), dir) == Leads(Absolute(s), Ideal(s), dir) {
        assert Meaning(dir, Form(s)) == Meaning(dir, s);
      }
    }
  }

  /** It does while at most 256 segments are live; it does not when more are live at the end. */
  lemma TableDecides(s: string)
    ensures Roomy(Absolute(s), [], Segments(s)) ==> Same(Form(s), s)
    ensures |Ideal(s)| > SEGMENTS ==> !Same(Form(s), s)
  {
    hide Form, Same, SegmentsFrom;
    KeepsMeaningIff(s);
    FinalNormal(s);
    if Roomy(Absolute(s), [], Segments(s)) {
      RoomyIsExact(Absolute(s), [], Segments(s));
    }
  }

  lemma {:induction false} FewIsRoomy(absolute: bool, stack: seq<string>, segments: seq<string>)
    requires |stack| + |segments| <= 256
    ensures Roomy(absolute, stack, segments)
    decreases |segments|
  {
    if segments != [] { FewIsRoomy(absolute, Push(absolute, stack, segments[0]), segments[1..]); }
  }

  /** A path of 1 to 4095 characters is accepted if its form fits the result; of up to 256 segments it then leads where it led. */
  lemma ShortPathIsKept(s: string, size: nat)
    ensures Normalized(s, size).Some? <==> 1 <= |s| <= 4095 && |Form(s)| < size
    ensures |Segments(s)| <= 256 && Normalized(s, size).Some? ==> Same(Normalized(s, size).value, s)
  {
    hide Form, Same, SegmentsFrom;
    TableDecides(s);
    if |Segments(s)| <= 256 { FewIsRoomy(Absolute(s), [], Segments(s)); }
  }

  /** Accepted paths can be longer: 257 names in 513 characters. */
  lemma LongPathLosesMeaning()
    ensures exists s :: |s| < PATH_MAX && Normalized(s, PATH_MAX).Some? && |Segments(s)| == 257 && !Same(Form(s), s)
  {
    hide Same, Form, SegmentsFrom;
    var names := seq(257, _ => "a");
    var s := Join(names);
    assert Normal(false, names);
    SegmentsOfJoin("", names);
    assert "" + s == s;
    JoinStarts(names);
    ReducesToItself(false, [], names) by { assert [] + names == names; }
    assert [] + names == names;
    OnesCost(257, "a");
    JoinCost(names);
    FormIsShorter(s);
    TableDecides(s);
  }

  lemma {:induction false} OnesCost(n: nat, name: string)
    requires |name| == 1
    ensures Cost(seq(n, _ => name)) == 2 * n
  {
    if n > 0 {
      OnesCost(n - 1, name);
      assert seq(n, _ => name)[..n - 1] == seq(n - 1, _ => name);
    }
  }

  /** Two paths within the table have the same form exactly when they lead to the same place from every directory. */
  lemma FormIsCanonical(s: string, t: string)
    requires Final(s) == Ideal(s) && Final(t) == Ideal(t)
    ensures Form(s) == Form(t) <==> Same(s, t)
  {
    hide Form, Final, Ideal, Normal, Meaning, Leads, Fresh;
    forall dir ensures Meaning(dir, s) == Leads(Absolute(s), Ideal(s), dir) && Meaning(dir, t) == Leads(Absolute(t), Ideal(t), dir) {
      IdealMeans(s, dir);
      IdealMeans(t, dir);
    }
    IdealMeans(s, []);
    IdealMeans(t, []);
    KeepsMeaningIff(s);
    KeepsMeaningIff(t);
    if Form(s) == Form(t) {
      forall dir ensures Meaning(dir, s) == Meaning(dir, t) {
        assert Meaning(dir, Form(s)) == Meaning(dir, s) && Meaning(dir, Form(t)) == Meaning(dir, t);
      }
    }
    if Same(s, t) {
      SameKind(s, t);
      forall dir ensures Leads(Absolute(s), Ideal(s), dir) == Leads(Absolute(s), Ideal(t), dir) {
        assert Meaning(dir, s) == Meaning(dir, t);
      }
      LeadsUnique(Absolute(s), Ideal(s), Ideal(t));
      FormIs(s);
      FormIs(t);
    }
  }

  lemma FormIs(s: string)
    ensures Form(s) == Render(Absolute(s), Final(s))
  {}

  lemma SameKind(s: string, t: string)
    requires Same(s, t)
    ensures Absolute(s) == Absolute(t)
  {
    hide Normal, Walk, Fresh, Meaning, Ideal, Absolute;
    var a, b := Ideal(s), Ideal(t);
    forall dir ensures Meaning(dir, s) == Leads(Absolute(s), a, dir) && Meaning(dir, t) == Leads(Absolute(t), b, dir)
                       && Normal(Absolute(s), a) && Normal(Absolute(t), b) {
      IdealMeans(s, dir);
      IdealMeans(t, dir);
    }
    if Absolute(s) && !Absolute(t) {
      assert Meaning(Fresh(a, b, |b| + 1), s) == Meaning(Fresh(a, b, |b| + 1), t);
      WhereIsRelative(a, b);
    }
    if !Absolute(s) && Absolute(t) {
      assert Meaning(Fresh(b, a, |a| + 1), s) == Meaning(Fresh(b, a, |a| + 1), t);
      WhereIsRelative(b, a);
    }
  }
}
