/** The twelve-slot label cache and the frames that draw from it. */
module LabelCache {
  import opened Arithmetic
  import opened Carousel

  const SLOTS: nat := 12      // GGFE_LABEL_CACHE

  datatype Slot<T> = Slot(valid: bool, entry: int, used: nat, texture: T)

  // ---------- pigeonholes ----------

  predicate Distinct<T(==)>(s: seq<T>) { forall i, j | 0 <= i < j < |s| :: s[i] != s[j] }

  lemma {:induction false} DistinctCount<T>(s: seq<T>)
    requires Distinct(s)
    ensures |set x | x in s| == |s|
  {
    if s != [] {
      var t := s[..|s| - 1];
      DistinctCount(t);
      assert (set x | x in s) == (set x | x in t) + {s[|s| - 1]};
    }
  }

  lemma SubsetCount<T>(a: set<T>, b: set<T>)
    requires a <= b
    ensures |a| <= |b|
  {
    assert b == a + (b - a);
  }

  // ---------- what a row of slots holds ----------

  predicate Holds<T>(s: seq<Slot<T>>, i: int, entry: int) {
    0 <= i < |s| && s[i].valid && s[i].entry == entry
  }

  ghost predicate Resident<T>(s: seq<Slot<T>>, entry: int) { exists i :: Holds(s, i, entry) }

  /** Slots hold different entries, each with that entry's own texture, none used after `tick`. */
  ghost predicate Sound<T>(s: seq<Slot<T>>, art: int -> T, tick: nat) {
    && |s| == SLOTS
    && (forall i | 0 <= i < SLOTS && s[i].valid :: s[i].used <= tick && s[i].texture == art(s[i].entry))
    && (forall i, j | 0 <= i < j < SLOTS && s[i].valid && s[j].valid :: s[i].entry != s[j].entry)
  }

  /** The entries used since time t are all among `asked`, and everything asked for is resident. */
  ghost predicate Recent<T>(s: seq<Slot<T>>, t: nat, asked: set<int>) {
    && (forall i | 0 <= i < |s| && s[i].valid && s[i].used > t :: s[i].entry in asked)
    && (forall e | e in asked :: exists i :: Holds(s, i, e) && s[i].used > t)
  }

  /** Slot i is the one the replacement policy gives up: a free one, else the least recently used. */
  predicate IsVictim<T>(s: seq<Slot<T>>, i: int) {
    && 0 <= i < |s|
    && (s[i].valid ==> forall j | 0 <= j < |s| :: s[j].valid && s[i].used <= s[j].used)
  }

  /** An entry asked for since t is never the victim while fewer than twelve have been. */
  lemma VictimIsOlder<T>(s: seq<Slot<T>>, art: int -> T, tick: nat, t: nat, asked: set<int>, victim: int)
    requires Sound(s, art, tick) && Recent(s, t, asked) && |asked| < SLOTS && IsVictim(s, victim)
    ensures !(s[victim].valid && s[victim].used > t)
  {
    if s[victim].valid && s[victim].used > t {
      var es := seq(SLOTS, i requires 0 <= i < |s| => s[i].entry);
      DistinctCount(es);
      assert forall i | 0 <= i < SLOTS :: es[i] in asked;
      SubsetCount((set e | e in es), asked);
      assert false;
    }
  }

  /** Using one slot for `entry` keeps the record of what was asked for since t. */
  lemma StillRecent<T>(s: seq<Slot<T>>, t: nat, asked: set<int>, i: int, slot: Slot<T>)
    requires Recent(s, t, asked) && 0 <= i < |s| && slot.valid && slot.used > t
    requires s[i].valid && s[i].used > t ==> s[i].entry == slot.entry
    ensures Recent(s[i := slot], t, asked + {slot.entry})
  {
    var r := s[i := slot];
    forall e | e in asked + {slot.entry} ensures exists j :: Holds(r, j, e) && r[j].used > t {
      if e == slot.entry {
        assert Holds(r, i, e);
      } else {
        var j :| Holds(s, j, e) && s[j].used > t;
        assert Holds(r, j, e) && r[j].used > t;
      }
    }
  }

  /** Everything resident before is resident still. */
  ghost predicate Keeps<T>(before: seq<Slot<T>>, after: seq<Slot<T>>) {
    forall e | Resident(before, e) :: Resident(after, e)
  }

  function Entries(drawn: seq<(int, int)>): set<int> { set k | 0 <= k < |drawn| :: drawn[k].0 }

  /** Every drawn slot holds its entry and has been used since t. */
  predicate StillDrawn<T>(s: seq<Slot<T>>, drawn: seq<(int, int)>, t: nat) {
    forall k | 0 <= k < |drawn| :: Holds(s, drawn[k].1, drawn[k].0) && s[drawn[k].1].used > t
  }

  lemma DrawnStep<T>(s: seq<Slot<T>>, drawn: seq<(int, int)>, t: nat, i: int, slot: Slot<T>)
    requires StillDrawn(s, drawn, t) && KeepsRecent(s, t, i, slot.entry) && slot.valid && slot.used > t
    ensures StillDrawn(s[i := slot], drawn + [(slot.entry, i)], t)
  {}

  /** The slot was free, or not used since t, or already the entry's own. */
  predicate KeepsRecent<T>(s: seq<Slot<T>>, t: nat, slot: int, entry: int) {
    0 <= slot < |s| && (s[slot].valid && s[slot].used > t ==> s[slot].entry == entry)
  }

  lemma MissKeepsRecent<T>(s: seq<Slot<T>>, art: int -> T, tick: nat, t: nat, asked: set<int>, slot: int, entry: int)
    requires Sound(s, art, tick) && Recent(s, t, asked) && |asked + {entry}| <= SLOTS
    requires !Resident(s, entry) && IsVictim(s, slot)
    ensures KeepsRecent(s, t, slot, entry)
  {
    assert entry !in asked;
    assert |asked + {entry}| == |asked| + 1;
    VictimIsOlder(s, art, tick, t, asked, slot);
  }

  lemma Placed<T>(s: seq<Slot<T>>, art: int -> T, tick: nat, t: nat, asked: set<int>, i: int, entry: int)
    requires Sound(s, art, tick) && Recent(s, t, asked) && t <= tick && KeepsRecent(s, t, i, entry)
    requires Holds(s, i, entry) || !Resident(s, entry)
    ensures var r := s[i := Slot(true, entry, tick + 1, art(entry))];
            Sound(r, art, tick + 1) && Recent(r, t, asked + {entry})
  {
    StillRecent(s, t, asked, i, Slot(true, entry, tick + 1, art(entry)));
    forall j | 0 <= j < |s| && j != i && s[j].valid ensures s[j].entry != entry {
      assert Holds(s, j, s[j].entry);
    }
  }

  class Labels<T(0)> {
    const art: int -> T             // the texture built for an entry
    const slots: array<Slot<T>>
    var tick: nat
    var loads: nat                  // textures built so far

    constructor (art: int -> T)
      ensures Valid() && fresh(slots) && slots.Length == 12 && tick == 0 && loads == 0 && this.art == art
      ensures forall i | 0 <= i < SLOTS :: !slots[i].valid
    {
      this.art := art;
      slots := new Slot<T>[SLOTS](_ => Slot(false, 0, 0, art(0)));
      tick, loads := 0, 0;
    }

    ghost predicate Valid()
      reads this, slots
    {
      Sound(slots[..], art, tick)
    }

    /** The nine entries around a slot are all resident. */
    ghost predicate Warm(center: int, count: int)
      reads slots
      requires count > 0
    {
      forall e | e in Window(center - 4, 9, count) :: Resident(slots[..], e)
    }

    /** One pass over the slots: the entry's own slot, or else the slot to give up. */
    method Search(entry: int) returns (hit: bool, slot: int)
      requires Valid()
      ensures 0 <= slot < SLOTS
      ensures hit ==> Holds(slots[..], slot, entry)
      ensures !hit ==> !Resident(slots[..], entry) && IsVictim(slots[..], slot)
    {
      hit, slot := false, 0;
      var oldest := 0;
      var first := true;       // oldest is still ~0UL
      for i := 0 to SLOTS
        invariant 0 <= slot < SLOTS && !hit
        invariant first ==> i == 0
        invariant forall j | 0 <= j < i :: !Holds(slots[..], j, entry)
        invariant !first ==> slot < i
        invariant !first && slots[slot].valid ==> oldest == slots[slot].used
        invariant !first && slots[slot].valid ==> forall j | 0 <= j < i :: slots[j].valid && slots[j].used >= oldest
        invariant !first && !slots[slot].valid ==> oldest == 0
      {
        if slots[i].valid && slots[i].entry == entry {
          return true, i;
        }
        if !slots[i].valid {
          slot, oldest, first := i, 0, false;
        } else if first || slots[i].used < oldest {
          slot, oldest, first := i, slots[i].used, false;
        }
      }
    }

    /** The slot whose texture the caller may draw. A miss builds it in the victim's slot; up to twelve
        different entries asked for since time `t` stay where they are. */
    method LabelTex(entry: int, ghost t: nat, ghost asked: set<int>) returns (slot: int)
      requires Valid() && t <= tick && Recent(slots[..], t, asked) && |asked + {entry}| <= SLOTS
      modifies this, slots
      ensures Valid() && tick == old(tick) + 1
      ensures 0 <= slot < SLOTS && slots[..] == old(slots[..])[slot := Slot(true, entry, tick, art(entry))]
      ensures if old(Resident(slots[..], entry)) then old(Holds(slots[..], slot, entry)) && loads == old(loads)
              else IsVictim(old(slots[..]), slot) && loads == old(loads) + 1
      ensures KeepsRecent(old(slots[..]), t, slot, entry)
      ensures Recent(slots[..], t, asked + {entry})
    {
      ghost var was := slots[..];
      var hit;
      hit, slot := Search(entry);
      tick := tick + 1;
      var texture := slots[slot].texture;
      if !hit {
        loads := loads + 1;
        texture := art(entry);
        MissKeepsRecent(was, art, tick - 1, t, asked, slot, entry);
      }
      slots[slot] := Slot(true, entry, tick, texture);
      assert slots[..] == was[slot := Slot(true, entry, tick, texture)];
      Placed(was, art, tick - 1, t, asked, slot, entry);
    }

    /** Build the labels of the nine entries around a slot. */
    method WarmLabels(center: int, count: int)
      requires Valid()
      modifies this, slots
      ensures Valid()
      ensures count > 0 ==> Warm(center, count)
      ensures old(loads) <= loads <= old(loads) + 9
      ensures count <= 0 ==> slots[..] == old(slots[..]) && loads == old(loads)
    {
      if count <= 0 {
        return;
      }
      ghost var t, asked := tick, {};
      for offset := -4 to 5
        invariant Valid() && t <= tick && old(loads) <= loads <= old(loads) + (offset + 4)
        invariant asked == Window(center - 4, offset + 4, count)
        invariant Recent(slots[..], t, asked)
      {
        WindowGrows(center, offset, count);
        ghost var more := asked + {WrapIndex(center + offset, count)};
        var _ := LabelTex(WrapIndex(center + offset, count), t, asked);
        asked := more;
      }
      RecentResident(slots[..], t, asked);
    }

    /** One composed frame up to its rasterisation: each drawn entry with the slot its triangles point to.
        `shown` is the opacity test; qsort may leave the visible entries in any order. When the frame is
        rasterised every slot still holds the entry it was drawn for. */
    method Compose(pos: real, count: int, shown: int -> bool) returns (drawn: seq<(int, int)>)
      requires Valid()
      modifies this, slots
      ensures Valid()
      ensures forall e :: e in Entries(drawn) <==> InView(e, pos, count) && shown(e)
      ensures forall k | 0 <= k < |drawn| ::
                Holds(slots[..], drawn[k].1, drawn[k].0) && slots[drawn[k].1].texture == art(drawn[k].0)
      ensures (forall e | InView(e, pos, count) :: Resident(old(slots[..]), e)) ==>
                loads == old(loads) && Keeps(old(slots[..]), slots[..])
    {
      var order := Select(pos, count);
      var sorted: seq<int> :| multiset(sorted) == multiset(order);
      SameElements(order, sorted);
      DistinctCount(order);
      ghost var t := tick;
      drawn := DrawLabels(sorted, shown, t, set e | e in order);
      assert forall k | 0 <= k < |drawn| :: Holds(slots[..], drawn[k].1, drawn[k].0);
    }

    /** The carousel loop: fetch the label of every shown entry, in order. */
    method DrawLabels(sorted: seq<int>, shown: int -> bool, ghost t: nat, ghost all: set<int>) returns (drawn: seq<(int, int)>)
      requires Valid() && t == tick && |all| <= SLOTS && forall e | e in sorted :: e in all
      modifies this, slots
      ensures Valid()
      ensures forall e :: e in Entries(drawn) <==> e in sorted && shown(e)
      ensures StillDrawn(slots[..], drawn, t)
      ensures (forall e | e in sorted :: Resident(old(slots[..]), e)) ==>
                loads == old(loads) && Keeps(old(slots[..]), slots[..])
    {
      ghost var was, here := slots[..], forall e | e in sorted :: Resident(slots[..], e);
      drawn := [];
      for i := 0 to |sorted|
        invariant Valid() && t <= tick
        invariant forall e :: e in Entries(drawn) <==> e in sorted[..i] && shown(e)
        invariant Recent(slots[..], t, Entries(drawn)) && StillDrawn(slots[..], drawn, t)
        invariant here ==> loads == old(loads) && Keeps(was, slots[..])
      {
        assert sorted[..i + 1] == sorted[..i] + [sorted[i]];
        if shown(sorted[i]) {
          assert forall e | e in Entries(drawn) + {sorted[i]} :: e in sorted;
          drawn := DrawOne(sorted[i], drawn, t, all, was);
        }
      }
      assert sorted[..|sorted|] == sorted;
    }

    method DrawOne(entry: int, drawn: seq<(int, int)>, ghost t: nat, ghost all: set<int>, ghost was: seq<Slot<T>>)
      returns (more: seq<(int, int)>)
      requires Valid() && t <= tick && Recent(slots[..], t, Entries(drawn)) && StillDrawn(slots[..], drawn, t)
      requires Entries(drawn) + {entry} <= all && |all| <= SLOTS
      modifies this, slots
      ensures Valid() && t <= tick && Entries(more) == Entries(drawn) + {entry}
      ensures Recent(slots[..], t, Entries(more)) && StillDrawn(slots[..], more, t)
      ensures old(Resident(slots[..], entry)) ==> loads == old(loads)
      ensures old(Resident(slots[..], entry) && Keeps(was, slots[..])) ==> Keeps(was, slots[..])
    {
      ghost var asked, before := Entries(drawn), slots[..];
      SubsetCount(asked + {entry}, all);
      var slot := LabelTex(entry, t, asked);
      EntriesSnoc(drawn, entry, slot);
      DrawnStep(before, drawn, t, slot, Slot(true, entry, tick, art(entry)));
      HitKeepsResidents(was, before, slot, Slot(true, entry, tick, art(entry)));
      more := drawn + [(entry, slot)];
    }
  }

  /** The entries in view, found by one scan that stops after sixteen; it never has to. */
  method Select(pos: real, count: int) returns (order: seq<int>)
    ensures Distinct(order) && |order| <= 7
    ensures forall e :: e in order <==> InView(e, pos, count)
  {
    order := [];
    var i := 0;
    while i < count && |order| < 16
      invariant 0 <= i && (i <= count || order == [])
      invariant Distinct(order) && |order| <= 7
      invariant forall e :: e in order <==> e < i && InView(e, pos, count)
    {
      if !(Abs(CyclicDistance(i, pos, count)) > SPAN) {
        ghost var earlier := order;
        order := order + [i];
        assert i !in earlier;
        AtMostSeven(pos, count, order);
      }
      i := i + 1;
    }
  }

  lemma AtMostSeven(pos: real, count: int, order: seq<int>)
    requires count > 0 && Distinct(order) && forall e | e in order :: InView(e, pos, count)
    ensures |order| <= 7
  {
    SevenInView(pos, count);
    DistinctCount(order);
    SubsetCount((set e | e in order), Window(Ceil(pos - SPAN), 7, count));
  }

  lemma EntriesSnoc(drawn: seq<(int, int)>, entry: int, slot: int)
    ensures Entries(drawn + [(entry, slot)]) == Entries(drawn) + {entry}
  {
    var more := drawn + [(entry, slot)];
    forall e ensures e in Entries(more) <==> e in Entries(drawn) + {entry} {
      if e in Entries(drawn) {
        var k :| 0 <= k < |drawn| && drawn[k].0 == e;
        assert more[k].0 == e;
      }
      assert more[|drawn|].0 == entry;
    }
  }

  lemma SameElements(xs: seq<int>, ys: seq<int>)
    requires multiset(xs) == multiset(ys)
    ensures forall e :: e in xs <==> e in ys
  {
    forall e ensures e in xs <==> e in ys {
      assert e in xs <==> e in multiset(xs);
      assert e in ys <==> e in multiset(ys);
    }
  }

  lemma HitKeepsResidents<T>(was: seq<Slot<T>>, s: seq<Slot<T>>, i: int, slot: Slot<T>)
    requires 0 <= i < |s|
    ensures Keeps(was, s) && Holds(s, i, slot.entry) && slot.valid ==> Keeps(was, s[i := slot])
  {
    if Keeps(was, s) && Holds(s, i, slot.entry) && slot.valid {
      forall e | Resident(was, e) ensures Resident(s[i := slot], e) {
        var j :| Holds(s, j, e);
        assert Holds(s[i := slot], j, e);
      }
    }
  }

  lemma RecentResident<T>(s: seq<Slot<T>>, t: nat, asked: set<int>)
    requires Recent(s, t, asked)
    ensures forall e | e in asked :: Resident(s, e)
  {
    forall e | e in asked ensures Resident(s, e) {
      var i :| Holds(s, i, e) && s[i].used > t;
    }
  }
}
