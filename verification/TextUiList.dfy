/** The arrays of the text UI's state files: one object a line, written whole, read by a loader that may drop or amend entries. */
module TextUiList {
  import opened Optional
  import opened Json
  import opened JsonText
  import opened JsonObject
  import opened ArrayFile

  function Object(fs: Fields): string
    requires fs != []
  {
    ObjectText(TextUi, fs)
  }

  /** Objects with fields the reader can name. */
  predicate Written(objs: seq<Fields>) { forall i | 0 <= i < |objs| :: objs[i] != [] && Proper(objs[i]) }

  function LineEnd(last: bool): string { if last then "\n" else ",\n" }

  function Items(objs: seq<Fields>): string
    requires Written(objs)
  {
    if objs == [] then "" else "    " + (Object(objs[0]) + (LineEnd(|objs| == 1) + Items(objs[1..])))
  }

  function Body(objs: seq<Fields>): string
    requires Written(objs)
  {
    "\n" + (Items(objs) + "  ")
  }

  // ---------- one object ----------

  /** A string field of an object that has a text of its own; an entry starts with empty fields. */
  function GetOr(text: string, key: string, size: nat): string {
    var s := GetString(text, 0, |text|, key, size);
    if s.Some? then s.value else ""
  }

  lemma GetOrFits(text: string, key: string, size: nat)
    requires size > 0
    ensures |GetOr(text, key, size)| < size
  {
    hide Find, DecodeRaw;
  }

  function Shown(v: Option<Value>, size: nat): string
    requires size > 0
  {
    var s := GetsString(TextUi, v, size);
    if s.Some? then s.value else ""
  }

  lemma ObjectGets(fs: Fields, key: string, size: nat)
    requires fs != [] && Proper(fs) && IsName(key) && size > 0
    ensures GetOr(Object(fs), key, size) == Shown(Lookup(fs, key), size)
  {
    hide FieldsText, GetString, GetsString, Lookup, Proper;
    WholeText(Object(fs));
    ObjectReads(TextUi, Object(fs), 0, fs, key, size);
  }

  /** A field that is written only when it is not empty. */
  function Choice(key: string, v: string): Fields { if v == "" then [] else [(key, Text(v))] }

  // ---------- the loaders ----------

  lemma ArrayInside(t: string, key: string)
    ensures FindArray(t, key).Some? ==> FindArray(t, key).value.0 <= FindArray(t, key).value.1 <= |t|
  {}

  /** A loader's loop over the objects of a range, up to a number of entries. `accept` adds what one object gives. */
  function LoadWith<E>(t: string, p: nat, end: nat, list: seq<E>, max: nat, accept: (seq<E>, string) -> seq<E>): seq<E>
    requires p <= end <= |t|
    decreases end - p
  {
    if |list| >= max then list
    else match NextObject(t, p, end)
      case None => list
      case Some((o, e)) => LoadWith(t, e, end, accept(list, t[o..e]), max, accept)
  }

  /** The same over the written objects one by one. */
  function FoldWith<E>(objs: seq<Fields>, list: seq<E>, accept: (seq<E>, string) -> seq<E>): seq<E>
    requires Written(objs)
    decreases |objs|
  {
    if objs == [] then list else FoldWith(objs[1..], accept(list, Object(objs[0])), accept)
  }

  /** The first line of the items, in place. */
  lemma ItemsParts(t: string, p: nat, objs: seq<Fields>, tail: string)
    requires Written(objs) && objs != [] && Has(t, p, Items(objs) + tail)
    ensures var n, m := |Object(objs[0])|, |LineEnd(|objs| == 1)|;
            && Has(t, p, "    ") && Has(t, p + 4, Object(objs[0])) && Has(t, p + 4 + n, LineEnd(|objs| == 1))
            && Has(t, p + 4 + n + m, Items(objs[1..]) + tail) && |Items(objs)| == 4 + n + m + |Items(objs[1..])|
            && p + |Items(objs)| + |tail| <= |t|
  {
    hide Items, Object, LineEnd, Has;
    UnfoldItems(objs);
    var text, line, rest := Object(objs[0]), LineEnd(|objs| == 1), Items(objs[1..]) + tail;
    assert Items(objs) + tail == "    " + (text + (line + rest));
    HasLength(t, p, Items(objs) + tail);
    HasAppend(t, p, "    ", text + (line + rest));
    HasAppend(t, p + 4, text, line + rest);
    HasAppend(t, p + 4 + |text|, line, rest);
  }

  lemma UnfoldItems(objs: seq<Fields>)
    requires Written(objs) && objs != []
    ensures Items(objs) == "    " + (Object(objs[0]) + (LineEnd(|objs| == 1) + Items(objs[1..])))
  {}

  lemma NoItems()
    ensures Items([]) == ""
  {}

  lemma LineEndIsRaw(last: bool)
    ensures forall c | c in LineEnd(last) :: c != '"' && c != '{' && c != '[' && c != ']'
  {}

  lemma Sliced(t: string, p: nat, s: string)
    requires Has(t, p, s)
    ensures p + |s| <= |t| && t[p..p + |s|] == s
  {}

  /** A loader sees exactly the written objects, in order. */
  lemma {:induction false} ItemsRead<E(!new)>(t: string, p: nat, end: nat, before: string, objs: seq<Fields>,
                                        list: seq<E>, max: nat, accept: (seq<E>, string) -> seq<E>)
    requires Written(objs) && |list| + |objs| <= max && '{' !in before
    requires AddsOne(accept)
    requires Has(t, p, before) && Has(t, p + |before|, Items(objs) + "  ") && end == p + |before| + |Items(objs)| + 2
    ensures end <= |t| && LoadWith(t, p, end, list, max, accept) == FoldWith(objs, list, accept)
    decreases |objs|
  {
    hide NextObject, Items, ObjectText, Has, LineEnd, Proper, AddsOne;
    HasLength(t, p + |before|, Items(objs) + "  ");
    if objs == [] {
      NoItems();
      assert "" + "  " == "  ";
      HasAppend(t, p, before, "  ");
      NoneLeft(t, p, end, before + "  ");
    } else {
      var o, text := p + |before|, Object(objs[0]);
      ItemsParts(t, o, objs, "  ");
      HasAppend(t, p, before, "    ");
      NextIs(TextUi, t, p, end, before + "    ", objs[0]);
      Sliced(t, o + 4, text);
      LineEndIsRaw(|objs| == 1);
      StepAddsOne(accept, list, text);
      ItemsRead(t, o + 4 + |text|, end, LineEnd(|objs| == 1), objs[1..], accept(list, text), max, accept);
    }
  }

  lemma BodyRead<E(!new)>(t: string, p: nat, objs: seq<Fields>, max: nat, accept: (seq<E>, string) -> seq<E>)
    requires Written(objs) && |objs| <= max && Has(t, p, Body(objs))
    requires AddsOne(accept)
    ensures p + |Body(objs)| <= |t|
    ensures LoadWith(t, p, p + |Body(objs)|, [], max, accept) == FoldWith(objs, [], accept)
  {
    hide Items, Has, LoadWith, FoldWith;
    HasAppend(t, p, "\n", Items(objs) + "  ");
    ItemsRead(t, p, p + |Body(objs)|, "\n", objs, [], max, accept);
  }

  // ---------- when everything is kept ----------

  /** A loader step keeps the list and adds at most one entry. */
  ghost predicate AddsOne<E(!new)>(accept: (seq<E>, string) -> seq<E>) {
    forall l, s :: l <= accept(l, s) && |accept(l, s)| <= |l| + 1
  }

  lemma {:induction false} FoldKeeps<E(!new)>(objs: seq<Fields>, list: seq<E>, accept: (seq<E>, string) -> seq<E>)
    requires Written(objs) && AddsOne(accept)
    ensures list <= FoldWith(objs, list, accept) && |FoldWith(objs, list, accept)| <= |list| + |objs|
    decreases |objs|
  {
    hide Object;
    if objs != [] {
      FoldKeeps(objs[1..], accept(list, Object(objs[0])), accept);
    }
  }

  /** Entry i is taken as it is after the ones before it. */
  ghost predicate Taken<E>(es: seq<E>, objs: seq<Fields>, list: seq<E>, accept: (seq<E>, string) -> seq<E>, i: nat)
    requires Written(objs) && |objs| == |es| && i < |es|
  {
    accept(list + es[..i], Object(objs[i])) == list + es[..i] + [es[i]]
  }

  /** The written entries come back exactly when each is taken as it is. */
  lemma {:induction false} FoldIff<E(!new)>(es: seq<E>, objs: seq<Fields>, list: seq<E>, accept: (seq<E>, string) -> seq<E>)
    requires Written(objs) && |objs| == |es| && AddsOne(accept)
    ensures FoldWith(objs, list, accept) == list + es <==> forall i | 0 <= i < |es| :: Taken(es, objs, list, accept, i)
    decreases |es|
  {
    hide Object, Written, AddsOne;
    if es == [] {
      assert list + es == list;
    } else {
      WrittenTail(objs);
      var next, one := accept(list, Object(objs[0])), list + [es[0]];
      FoldKeeps(objs[1..], next, accept);
      StepAddsOne(accept, list, Object(objs[0]));
      FoldIff(es[1..], objs[1..], one, accept);
      assert one + es[1..] == list + es;
      assert list + es[..0] == list;
      forall i | 0 < i < |es| ensures Taken(es, objs, list, accept, i) <==> Taken(es[1..], objs[1..], one, accept, i - 1) {
        PrefixShift(es, list, i);
      }
      if FoldWith(objs, list, accept) == list + es {
        assert (list + es)[|list|] == es[0];
        assert next == one;
        forall i | 0 <= i < |es| ensures Taken(es, objs, list, accept, i) {
          if i > 0 { assert Taken(es[1..], objs[1..], one, accept, i - 1); }
        }
      }
      if forall i | 0 <= i < |es| :: Taken(es, objs, list, accept, i) {
        assert Taken(es, objs, list, accept, 0);
        forall i | 0 <= i < |es| - 1 ensures Taken(es[1..], objs[1..], one, accept, i) {
          assert Taken(es, objs, list, accept, i + 1);
        }
      }
    }
  }

  lemma PrefixShift<E>(es: seq<E>, list: seq<E>, i: nat)
    requires 0 < i < |es|
    ensures (list + [es[0]]) + es[1..][..i - 1] == list + es[..i]
  {
    assert es[..i] == [es[0]] + es[1..][..i - 1];
  }

  lemma WrittenTail(objs: seq<Fields>)
    requires Written(objs) && objs != []
    ensures Written(objs[1..]) && objs[0] != [] && Proper(objs[0])
  {}

  lemma StepAddsOne<E(!new)>(accept: (seq<E>, string) -> seq<E>, l: seq<E>, s: string)
    requires AddsOne(accept)
    ensures l <= accept(l, s) && |accept(l, s)| <= |l| + 1
  {}

  /** A loader step adds only entries of a kind. */
  ghost predicate AddsOnly<E(!new)>(accept: (seq<E>, string) -> seq<E>, kind: E -> bool) {
    forall l: seq<E>, s: string, e: E | e in accept(l, s) :: e in l || kind(e)
  }

  /** What is loaded is of that kind and no more than the loader has room for. */
  lemma {:induction false} LoadsOnly<E(!new)>(t: string, p: nat, end: nat, list: seq<E>, max: nat, accept: (seq<E>, string) -> seq<E>, kind: E -> bool)
    requires p <= end <= |t| && AddsOne(accept) && AddsOnly(accept, kind)
    requires |list| <= max && forall e | e in list :: kind(e)
    ensures var all := LoadWith(t, p, end, list, max, accept); |all| <= max && forall e | e in all :: kind(e)
    decreases end - p
  {
    hide NextObject;
    if |list| < max && NextObject(t, p, end).Some? {
      var (o, e) := NextObject(t, p, end).value;
      NextAdvances(t, p, end);
      LoadsOnly(t, e, end, accept(list, t[o..e]), max, accept, kind);
    }
  }

  // ---------- passing over a body ----------

  lemma {:induction false} ItemsClose(t: string, p: nat, end: nat, objs: seq<Fields>)
    requires Written(objs) && end <= |t| && Has(t, p, Items(objs)) && p + |Items(objs)| <= end
    ensures CloseFrom(t, p, end, '[', ']', 1, false, false) == CloseFrom(t, p + |Items(objs)|, end, '[', ']', 1, false, false)
    decreases |objs|
  {
    hide Items, ObjectText, CloseFrom, Has, LineEnd, Proper;
    if objs == [] {
      NoItems();
    } else {
      var text, line := Object(objs[0]), LineEnd(|objs| == 1);
      assert Items(objs) + "" == Items(objs) && Items(objs[1..]) + "" == Items(objs[1..]);
      ItemsParts(t, p, objs, "");
      LineEndIsRaw(|objs| == 1);
      ClosesPastRaw(t, p, end, '[', ']', 1, "    ");
      ObjectCloses(TextUi, t, p + 4, end, objs[0]);
      ClosesPastRaw(t, p + 4 + |text|, end, '[', ']', 1, line);
      ItemsClose(t, p + 4 + |text| + |line|, end, objs[1..]);
    }
  }

  /** A bracket scan passes over a written body. */
  lemma BodyCloses(t: string, p: nat, objs: seq<Fields>)
    requires Written(objs) && Has(t, p, Body(objs)) && p + |Body(objs)| <= |t|
    ensures CloseFrom(t, p, |t|, '[', ']', 1, false, false) == CloseFrom(t, p + |Body(objs)|, |t|, '[', ']', 1, false, false)
  {
    hide Items, CloseFrom, Has;
    HasAppend(t, p, "\n", Items(objs) + "  ");
    HasAppend(t, p + 1, Items(objs), "  ");
    ClosesPastRaw(t, p, |t|, '[', ']', 1, "\n");
    ItemsClose(t, p + 1, |t|, objs);
    ClosesPastRaw(t, p + 1 + |Items(objs)|, |t|, '[', ']', 1, "  ");
  }

  /** No object has a field of this name. */
  predicate Unnamed(objs: seq<Fields>, key: string) {
    forall i | 0 <= i < |objs| :: Lookup(objs[i], key) == None
  }

  lemma {:induction false} ItemsSkip(t: string, p: nat, end: nat, objs: seq<Fields>, key: string)
    requires Written(objs) && Unnamed(objs, key) && IsName(key)
    requires end <= |t| && Has(t, p, Items(objs)) && p + |Items(objs)| <= end
    ensures Find(t, p, end, key) == Find(t, p + |Items(objs)|, end, key)
    decreases |objs|
  {
    hide Items, FieldsText, Find, Has, LineEnd, Proper, Lookup, IsName;
    if objs == [] {
      NoItems();
    } else {
      var text, line := Object(objs[0]), LineEnd(|objs| == 1);
      assert Items(objs) + "" == Items(objs) && Items(objs[1..]) + "" == Items(objs[1..]);
      ItemsParts(t, p, objs, "");
      LineEndIsRaw(|objs| == 1);
      SkipsRaw(t, p, end, key, "    ");
      ObjectParts(TextUi, t, p + 4, objs[0]);
      SkipsRaw(t, p + 4, end, key, "{ ");
      FieldFound(TextUi, t, p + 6, end, objs[0], key);
      SkipsRaw(t, p + 4 + |text|, end, key, line);
      ItemsSkip(t, p + 4 + |text| + |line|, end, objs[1..], key);
    }
  }

  /** A lookup passes over a written body whose objects have no field of that name. */
  lemma BodySkips(t: string, p: nat, objs: seq<Fields>, key: string)
    requires Written(objs) && Unnamed(objs, key) && IsName(key) && Has(t, p, Body(objs)) && p + |Body(objs)| <= |t|
    ensures Find(t, p, |t|, key) == Find(t, p + |Body(objs)|, |t|, key)
  {
    hide Items, Find, Has, IsName;
    HasAppend(t, p, "\n", Items(objs) + "  ");
    HasAppend(t, p + 1, Items(objs), "  ");
    SkipsRaw(t, p, |t|, key, "\n");
    ItemsSkip(t, p + 1, |t|, objs, key);
    SkipsRaw(t, p + 1 + |Items(objs)|, |t|, key, "  ");
  }

  // ---------- files of one array ----------

  function OneArray(key: string, objs: seq<Fields>): string
    requires Written(objs)
  {
    FileOf(TextUi, Member(TextUi, key, Body(objs), "\n}\n"))
  }

  /** The reader finds the array of such a file and its loader sees exactly the written objects. */
  lemma OneArrayRead<E(!new)>(key: string, objs: seq<Fields>, max: nat, accept: (seq<E>, string) -> seq<E>)
    requires Written(objs) && |objs| <= max && IsName(key) && key != "version" && AddsOne(accept)
    ensures var t, s, e := OneArray(key, objs), 25 + |key|, 25 + |key| + |Body(objs)|;
            && e <= |t| && FindArray(t, key) == Some((s, e)) && LoadWith(t, s, e, [], max, accept) == FoldWith(objs, [], accept)
  {
    hide FileOf, Body, CloseFrom, Find, Has, FindArray, LoadWith, FoldWith, Member, IsName, Written, AddsOne;
    var t, body := OneArray(key, objs), Body(objs);
    FileStart(TextUi, Member(TextUi, key, body, "\n}\n"), key);
    MemberParts(TextUi, t, 20, key, body, "\n}\n");
    BodyCloses(t, 25 + |key|, objs);
    MemberFound(TextUi, t, 20, key, body, "\n}\n");
    BodyRead(t, 25 + |key|, objs, max, accept);
  }

  // ---------- files of two arrays ----------

  function TwoArrays(key1: string, objs1: seq<Fields>, key2: string, objs2: seq<Fields>): string
    requires Written(objs1) && Written(objs2)
  {
    FileOf(TextUi, TwoMembers(TextUi, key1, Body(objs1), key2, Body(objs2)))
  }

  lemma FirstArrayRead<E(!new)>(key1: string, objs1: seq<Fields>, key2: string, objs2: seq<Fields>,
                                max: nat, accept: (seq<E>, string) -> seq<E>)
    requires Written(objs1) && Written(objs2) && |objs1| <= max && AddsOne(accept)
    requires IsName(key1) && IsName(key2) && key1 != "version"
    ensures var t, s, e := TwoArrays(key1, objs1, key2, objs2), 25 + |key1|, 25 + |key1| + |Body(objs1)|;
            && e <= |t| && FindArray(t, key1) == Some((s, e)) && LoadWith(t, s, e, [], max, accept) == FoldWith(objs1, [], accept)
  {
    hide FileOf, TwoMembers, Body, CloseFrom, Find, Has, FindArray, LoadWith, FoldWith, IsName, Written, AddsOne;
    BodiesStand(TextUi, key1, Body(objs1), key2, Body(objs2));
    BodyCloses(TwoArrays(key1, objs1, key2, objs2), 25 + |key1|, objs1);
    FindsFirst(TextUi, key1, Body(objs1), key2, Body(objs2));
    BodyRead(TwoArrays(key1, objs1, key2, objs2), 25 + |key1|, objs1, max, accept);
  }

  /** The second array is found past the first, none of whose objects has a field of its name. */
  lemma SecondArrayRead<E(!new)>(key1: string, objs1: seq<Fields>, key2: string, objs2: seq<Fields>,
                                 max: nat, accept: (seq<E>, string) -> seq<E>)
    requires Written(objs1) && Written(objs2) && |objs2| <= max && AddsOne(accept) && Unnamed(objs1, key2)
    requires IsName(key1) && IsName(key2) && key1 != key2 && key1 != "version" && key2 != "version"
    ensures var t := TwoArrays(key1, objs1, key2, objs2);
            var s := 35 + |key1| + |Body(objs1)| + |key2|;
            && s + |Body(objs2)| <= |t| && FindArray(t, key2) == Some((s, s + |Body(objs2)|))
            && LoadWith(t, s, s + |Body(objs2)|, [], max, accept) == FoldWith(objs2, [], accept)
  {
    hide FileOf, TwoMembers, Body, CloseFrom, Find, Has, FindArray, LoadWith, FoldWith, IsName, Written, AddsOne, Unnamed;
    var t, s := TwoArrays(key1, objs1, key2, objs2), 35 + |key1| + |Body(objs1)| + |key2|;
    BodiesStand(TextUi, key1, Body(objs1), key2, Body(objs2));
    BodySkips(t, 25 + |key1|, objs1, key2);
    BodyCloses(t, s, objs2);
    FindsSecond(TextUi, key1, Body(objs1), key2, Body(objs2));
    BodyRead(t, s, objs2, max, accept);
  }
}
