/** The per-ROM profiles in memory, and cycling through them from the menu. */
module ProfileRing {
  import opened Optional
  import opened Json
  import opened Overrides
  import opened Arithmetic
  import opened JsonText
  import R = OverrideRoundTrip

  type Profiles = map<string, string>

  // ---------- the array as a finite map ----------

  predicate Distinct(roms: seq<Rom>) {
    forall i, j | 0 <= i < j < |roms| :: roms[i].path != roms[j].path
  }

  function MapOf(roms: seq<Rom>): Profiles {
    if roms == [] then map[] else MapOf(roms[..|roms| - 1])[roms[|roms| - 1].path := roms[|roms| - 1].profile]
  }

  predicate HasPath(roms: seq<Rom>, path: string) { exists i :: 0 <= i < |roms| && roms[i].path == path }

  lemma HasPathSnoc(roms: seq<Rom>, r: Rom, path: string)
    ensures HasPath(roms + [r], path) <==> HasPath(roms, path) || r.path == path
  {
    var all := roms + [r];
    if HasPath(roms, path) {
      var i :| 0 <= i < |roms| && roms[i].path == path;
      assert all[i].path == path;
    }
    assert all[|roms|] == r;
    if i :| 0 <= i < |all| && all[i].path == path {
      assert i < |roms| ==> roms[i].path == path;
    }
  }

  lemma DistinctSnoc(roms: seq<Rom>, r: Rom)
    ensures Distinct(roms + [r]) <==> Distinct(roms) && !HasPath(roms, r.path)
  {
    var all := roms + [r];
    assert forall i | 0 <= i < |roms| :: all[i] == roms[i];
    if Distinct(all) {
      assert all[|roms|] == r;
      assert forall i, j | 0 <= i < j < |roms| :: roms[i].path != roms[j].path by {
        assert forall i, j | 0 <= i < j < |roms| :: all[i].path != all[j].path;
      }
    }
  }

  lemma NoPath()
    ensures forall p :: !HasPath([], p)
  {}

  /** The map holds exactly the paths of the array, each once. */
  lemma {:induction false} MapKeys(roms: seq<Rom>)
    requires Distinct(roms)
    ensures |MapOf(roms)| == |roms|
    ensures forall p :: p in MapOf(roms) <==> HasPath(roms, p)
  {
    hide Distinct, HasPath;
    if roms != [] {
      var front, last := roms[..|roms| - 1], roms[|roms| - 1];
      assert roms == front + [last];
      DistinctSnoc(front, last);
      MapKeys(front);
      assert MapOf(roms).Keys == MapOf(front).Keys + {last.path};
      forall p ensures p in MapOf(roms) <==> HasPath(roms, p) {
        HasPathSnoc(front, last, p);
      }
    } else {
      NoPath();
    }
  }

  /** The map holds each entry's profile, wherever the entry stands. */
  lemma {:induction false} MapValue(roms: seq<Rom>, i: nat)
    requires Distinct(roms) && i < |roms|
    ensures roms[i].path in MapOf(roms) && MapOf(roms)[roms[i].path] == roms[i].profile
  {
    var n := |roms| - 1;
    if i < n {
      MapValue(roms[..n], i);
    }
  }

  /** Entries in another order, or another array, with the same pairs give the same map. */
  lemma MapUnique(roms: seq<Rom>, m: Profiles)
    requires Distinct(roms)
    requires forall p :: p in m <==> HasPath(roms, p)
    requires forall i | 0 <= i < |roms| :: roms[i].path in m ==> m[roms[i].path] == roms[i].profile
    ensures MapOf(roms) == m
  {
    hide MapOf, Distinct;
    MapKeys(roms);
    forall p | p in m ensures m[p] == MapOf(roms)[p] {
      assert HasPath(roms, p);
      var i :| 0 <= i < |roms| && roms[i].path == p;
      MapValue(roms, i);
    }
  }

  // ---------- setting one profile ----------

  /** What setting a profile does to the map, and whether it succeeds; an empty profile clears the entry.
      A profile too long for an entry that exists empties it. */
  function Set(m: Profiles, path: string, profile: string): (Profiles, bool) {
    if path in m then
      if profile == "" then (m - {path}, true)
      else if |profile| < PROFILE_SIZE then (m[path := profile], true)
      else (m[path := ""], false)
    else if profile == "" then (m, true)
    else if |m| < MAX_ROMS && |path| < PATH_SIZE && |profile| < PROFILE_SIZE then (m[path := profile], true)
    else (m, false)
  }

  function Current(m: Profiles, path: string): string { if path in m then m[path] else "" }

  /** Where a profile stands in the ring: 0 for none, or for one the device does not have. */
  function Place(avail: seq<string>, current: string): (at: nat)
    ensures at <= |avail|
    ensures at > 0 ==> avail[at - 1] == current && current !in avail[..at - 1]
    ensures at == 0 <==> current !in avail
  {
    if avail == [] then 0
    else if avail[0] == current then 1
    else
      var rest := Place(avail[1..], current);
      assert avail == [avail[0]] + avail[1..];
      if rest == 0 then 0 else assert avail[..rest] == [avail[0]] + avail[1..][..rest - 1]; rest + 1
  }

  /** One position to the right or to the left of `at`, among the cores and "none". */
  function Turn(n: nat, at: nat, right: bool): (r: nat)
    requires at <= n
    ensures r <= n
  {
    (at + (if right then 1 else n)) % (n + 1)
  }

  function Named(avail: seq<string>, at: nat): string
    requires at <= |avail|
  {
    if at == 0 then "" else avail[at - 1]
  }

  function Next(avail: seq<string>, current: string, right: bool): string {
    Named(avail, Turn(|avail|, if current == "" then 0 else Place(avail, current), right))
  }

  /** One press in the menu. */
  function Cycle(m: Profiles, avail: seq<string>, path: string, right: bool): Profiles {
    if avail == [] then m else Set(m, path, Next(avail, Current(m, path), right)).0
  }

  class Table {
    var roms: seq<Rom>

    predicate Valid()
      reads this
    {
      Distinct(roms) && |roms| <= MAX_ROMS
    }

    constructor ()
      ensures Valid() && MapOf(roms) == map[]
    {
      roms := [];
    }

    method ForRom(path: string) returns (profile: Option<string>)
      requires Valid()
      ensures profile == if path in MapOf(roms) then Some(MapOf(roms)[path]) else None
    {
      hide MapOf, Distinct;
      MapKeys(roms);
      for i := 0 to |roms|
        invariant forall j | 0 <= j < i :: roms[j].path != path
      {
        if roms[i].path == path {
          MapValue(roms, i);
          return Some(roms[i].profile);
        }
      }
      return None;
    }

    method SetRom(path: string, profile: string) returns (ok: bool)
      requires Valid()
      modifies this
      ensures Valid()
      ensures (MapOf(roms), ok) == Set(old(MapOf(roms)), path, profile)
    {
      hide MapOf, Distinct, HasPath;
      MapKeys(roms);
      var i := 0;
      while i < |roms| && roms[i].path != path
        invariant roms == old(roms) && i <= |roms|
        invariant forall j | 0 <= j < i :: roms[j].path != path
      {
        i := i + 1;
      }
      Searched(roms, path, i);
      if i < |roms| {
        if profile != "" {
          ok := |profile| < PROFILE_SIZE;
          var stored := if ok then profile else "";
          ChangeAt(roms, i, stored);
          roms := roms[i := Rom(path, stored)];
        } else {
          SwapRemove(roms, i);
          roms := roms[i := roms[|roms| - 1]][..|roms| - 1];
          ok := true;
        }
        return;
      }
      if profile == "" {
        return true;
      }
      if |roms| >= MAX_ROMS || |path| >= PATH_SIZE || |profile| >= PROFILE_SIZE {
        return false;
      }
      Appended(roms, Rom(path, profile));
      roms := roms + [Rom(path, profile)];
      return true;
    }

    /** The menu: the profiles this device has, in catalogue order, and a position for none. */
    method CycleCore(profiles: seq<(string, bool)>, path: string, right: bool)
      requires Valid()
      modifies this
      ensures Valid()
      ensures MapOf(roms) == Cycle(old(MapOf(roms)), Available(profiles), path, right)
    {
      hide MapOf, Distinct, Set, Place, Turn, Available;
      var avail := Listed(profiles);
      if avail == [] {
        return;
      }
      var current := ForRom(path);
      var at := -1;
      if current.Some? && current.value != "" {
        at := IndexIn(avail, current.value);
      }
      at := Turn(|avail|, at + 1, right) - 1;
      var ok := SetRom(path, if at < 0 then "" else avail[at]);
    }
  }

  method Listed(profiles: seq<(string, bool)>) returns (avail: seq<string>)
    ensures avail == Available(profiles)
  {
    avail := [];
    for i := 0 to |profiles|
      invariant avail == Available(profiles[..i])
    {
      assert profiles[..i + 1][..i] == profiles[..i];
      if profiles[i].1 {
        avail := avail + [profiles[i].0];
      }
    }
    assert profiles[..|profiles|] == profiles;
  }

  /** Where a profile stands among those of the device; -1 when nowhere. */
  method IndexIn(avail: seq<string>, current: string) returns (at: int)
    ensures at + 1 == Place(avail, current)
  {
    for i := 0 to |avail|
      invariant current !in avail[..i]
    {
      if avail[i] == current {
        PlaceFirst(avail, current, i);
        return i;
      }
    }
    assert avail[..|avail|] == avail;
    return -1;
  }

  function Available(profiles: seq<(string, bool)>): seq<string> {
    if profiles == [] then []
    else Available(profiles[..|profiles| - 1])
         + (if profiles[|profiles| - 1].1 then [profiles[|profiles| - 1].0] else [])
  }

  /** The ring offers exactly the profiles the device has, in the order of the catalogue. */
  lemma {:induction false} AvailableIs(profiles: seq<(string, bool)>, p: string)
    ensures p in Available(profiles) <==> (p, true) in profiles
    ensures forall i, j | 0 <= i < j < |profiles| && profiles[i].1 && profiles[j].1 ::
              exists k, l :: 0 <= k < l < |Available(profiles)| && Available(profiles)[k] == profiles[i].0 && Available(profiles)[l] == profiles[j].0
  {
    if profiles != [] {
      var front, last := profiles[..|profiles| - 1], profiles[|profiles| - 1];
      AvailableIs(front, p);
      assert profiles == front + [last];
      forall i, j | 0 <= i < j < |profiles| && profiles[i].1 && profiles[j].1
        ensures exists k, l :: 0 <= k < l < |Available(profiles)| && Available(profiles)[k] == profiles[i].0 && Available(profiles)[l] == profiles[j].0
      {
        if j < |front| {
          var k, l :| 0 <= k < l < |Available(front)| && Available(front)[k] == profiles[i].0 && Available(front)[l] == profiles[j].0;
          assert Available(profiles)[k] == profiles[i].0 && Available(profiles)[l] == profiles[j].0;
        } else {
          AvailableHas(front, i);
          var k :| 0 <= k < |Available(front)| && Available(front)[k] == profiles[i].0;
          var l := |Available(front)|;
          assert Available(profiles)[k] == profiles[i].0 && Available(profiles)[l] == profiles[j].0;
        }
      }
    }
  }

  lemma {:induction false} AvailableHas(profiles: seq<(string, bool)>, i: nat)
    requires i < |profiles| && profiles[i].1
    ensures profiles[i].0 in Available(profiles)
  {
    if i < |profiles| - 1 { AvailableHas(profiles[..|profiles| - 1], i); }
  }

  lemma {:induction false} PlaceFirst(avail: seq<string>, current: string, i: nat)
    requires i < |avail| && avail[i] == current && current !in avail[..i]
    ensures Place(avail, current) == i + 1
  {
    if i > 0 {
      assert avail[..i][0] == avail[0];
      assert forall c | c in avail[1..][..i - 1] :: c in avail[..i] by { assert avail[..i] == [avail[0]] + avail[1..][..i - 1]; }
      PlaceFirst(avail[1..], current, i - 1);
    }
  }

  lemma Searched(roms: seq<Rom>, path: string, i: nat)
    requires i <= |roms| && (forall j | 0 <= j < i :: roms[j].path != path) && (i < |roms| ==> roms[i].path == path)
    ensures HasPath(roms, path) <==> i < |roms|
  {}

  lemma ChangeAt(roms: seq<Rom>, i: nat, profile: string)
    requires i < |roms| && Distinct(roms)
    ensures var after := roms[i := Rom(roms[i].path, profile)];
            Distinct(after) && MapOf(after) == MapOf(roms)[roms[i].path := profile]
  {
    hide MapOf;
    var after := roms[i := Rom(roms[i].path, profile)];
    MapKeys(roms);
    var m := MapOf(roms)[roms[i].path := profile];
    assert forall j | 0 <= j < |roms| :: after[j].path == roms[j].path;
    forall p ensures p in m <==> HasPath(after, p) {
      if HasPath(roms, p) {
        var j :| 0 <= j < |roms| && roms[j].path == p;
        assert after[j].path == p;
      }
      if HasPath(after, p) {
        var j :| 0 <= j < |after| && after[j].path == p;
        assert roms[j].path == p;
      }
      assert HasPath(roms, roms[i].path);
    }
    forall j | 0 <= j < |after| ensures m[after[j].path] == after[j].profile {
      MapValue(roms, j);
    }
    MapUnique(after, m);
  }

  lemma Appended(roms: seq<Rom>, r: Rom)
    requires Distinct(roms) && !HasPath(roms, r.path)
    ensures Distinct(roms + [r]) && MapOf(roms + [r]) == MapOf(roms)[r.path := r.profile]
  {
    hide Distinct, HasPath;
    DistinctSnoc(roms, r);
    assert (roms + [r])[..|roms|] == roms;
  }

  /** Moving the last entry into the hole loses that entry alone, and repeats none. */
  lemma SwapRemove(roms: seq<Rom>, i: nat)
    requires i < |roms| && Distinct(roms)
    ensures var after := roms[i := roms[|roms| - 1]][..|roms| - 1];
            Distinct(after) && MapOf(after) == MapOf(roms) - {roms[i].path}
  {
    hide MapOf;
    var n := |roms| - 1;
    var after := roms[i := roms[n]][..n];
    MapKeys(roms);
    var m := MapOf(roms) - {roms[i].path};
    assert forall j | 0 <= j < n :: after[j] == roms[if j == i then n else j];
    forall p ensures p in m <==> HasPath(after, p) {
      if p in m {
        var j :| 0 <= j <= n && roms[j].path == p;
        assert after[if j == n then i else j].path == p;
      }
      if HasPath(after, p) {
        var j :| 0 <= j < n && after[j].path == p;
        assert roms[if j == i then n else j].path == p;
      }
    }
    forall j | 0 <= j < n ensures after[j].path in m && m[after[j].path] == after[j].profile {
      MapValue(roms, if j == i then n else j);
    }
    MapUnique(after, m);
  }

  // ---------- the ring ----------

  predicate Catalogue(avail: seq<string>) {
    avail != [] && forall i | 0 <= i < |avail| :: avail[i] != "" && |avail[i]| < PROFILE_SIZE
  }

  predicate NoRepeat(avail: seq<string>) { forall i, j | 0 <= i < j < |avail| :: avail[i] != avail[j] }

  lemma TurnIs(n: nat, at: nat)
    requires at <= n
    ensures Turn(n, at, true) == (if at == n then 0 else at + 1)
    ensures Turn(n, at, false) == (if at == 0 then n else at - 1)
  {
    ModUnique(at + 1, n + 1, if at == n then 1 else 0, if at == n then 0 else at + 1);
    ModUnique(at + n, n + 1, if at == 0 then 0 else 1, if at == 0 then n else at - 1);
  }

  lemma PlaceNamed(avail: seq<string>, at: nat)
    requires Catalogue(avail) && NoRepeat(avail) && at <= |avail|
    ensures (if Named(avail, at) == "" then 0 else Place(avail, Named(avail, at))) == at
  {
    if at > 0 { PlaceFirst(avail, avail[at - 1], at - 1); }
  }

  lemma {:induction false} FirstRepeat(avail: seq<string>) returns (j: nat)
    requires !NoRepeat(avail)
    ensures 0 < j < |avail| && NoRepeat(avail[..j]) && avail[j] in avail[..j]
  {
    var n := |avail| - 1;
    if !NoRepeat(avail[..n]) {
      j := FirstRepeat(avail[..n]);
      assert avail[..n][..j] == avail[..j];
    } else {
      j := n;
      forall x, y | 0 <= x < y < n ensures avail[x] != avail[y] {
        assert avail[..n][x] != avail[..n][y];
      }
      var a, b :| 0 <= a < b < |avail| && avail[a] == avail[b];
      assert avail[..n][a] == avail[n];
    }
  }

  lemma PlaceInFront(avail: seq<string>, j: nat, i: nat)
    requires i < j < |avail| && NoRepeat(avail[..j])
    ensures Place(avail, avail[i]) == i + 1
    ensures forall k | 0 <= k < j && k != i :: avail[k] != avail[i]
  {
    hide Place;
    var front := avail[..j];
    forall k | 0 <= k < j && k != i ensures avail[k] != avail[i] {
      assert front[k] == avail[k] && front[i] == avail[i];
    }
    PlaceFirst(avail, avail[i], i);
  }

  /** A catalogue that lists a core twice breaks the ring: from the core before the repeat, right then left goes elsewhere. */
  lemma RepeatBreaksRing(avail: seq<string>) returns (current: string)
    requires Catalogue(avail) && !NoRepeat(avail)
    ensures current in avail && Next(avail, Next(avail, current, true), false) != current
  {
    hide Place, NoRepeat, Turn;
    var j := FirstRepeat(avail);
    current := avail[j - 1];
    var k :| 0 <= k < j && avail[..j][k] == avail[j];
    PlaceInFront(avail, j, j - 1);
    PlaceInFront(avail, j, k);
    TurnIs(|avail|, j);
    TurnIs(|avail|, k + 1);
    assert avail[k] == avail[j];
  }

  /** The map with the entry for the ROM at one position of the ring. */
  function At(base: Profiles, path: string, avail: seq<string>, at: nat): Profiles
    requires at <= |avail|
  {
    if at == 0 then base else base[path := avail[at - 1]]
  }

  /** Setting a profile, seen on the map without the ROM's entry. */
  lemma SetOver(base: Profiles, path: string, s: string, u: string)
    requires path !in base && |base| < MAX_ROMS && |path| < PATH_SIZE && u != "" && |u| < PROFILE_SIZE
    ensures Set(base, path, "").0 == base && Set(base[path := s], path, "").0 == base
    ensures Set(base, path, u).0 == base[path := u] && Set(base[path := s], path, u).0 == base[path := u]
  {
    assert base[path := s] - {path} == base;
    assert base[path := s][path := u] == base[path := u];
  }

  lemma StepsRing(base: Profiles, path: string, avail: seq<string>, at: nat, right: bool)
    requires Catalogue(avail) && NoRepeat(avail) && at <= |avail|
    requires path !in base && |base| < MAX_ROMS && |path| < PATH_SIZE
    ensures Turn(|avail|, at, right) <= |avail|
    ensures Cycle(At(base, path, avail, at), avail, path, right) == At(base, path, avail, Turn(|avail|, at, right))
  {
    hide Place, Set, NoRepeat;
    PlaceNamed(avail, at);
    TurnIs(|avail|, at);
    var to := Turn(|avail|, at, right);
    var s := Named(avail, at);
    hide Turn;
    assert Current(At(base, path, avail, at), path) == s;
    SetOver(base, path, s, if to == 0 then avail[0] else avail[to - 1]);
  }

  function Turns(n: nat, at: nat, right: bool, k: nat): (r: nat)
    requires at <= n && k <= n + 1
  {
    if right then (if at + k <= n then at + k else at + k - n - 1)
    else if at >= k then at - k else at + n + 1 - k
  }

  function Times(m: Profiles, avail: seq<string>, path: string, right: bool, k: nat): Profiles {
    if k == 0 then m else Cycle(Times(m, avail, path, right, k - 1), avail, path, right)
  }

  /** Position after k presses. */
  lemma {:induction false} GoesRound(base: Profiles, path: string, avail: seq<string>, at: nat, right: bool, k: nat)
    requires Catalogue(avail) && NoRepeat(avail) && at <= |avail| && k <= |avail| + 1
    requires path !in base && |base| < MAX_ROMS && |path| < PATH_SIZE
    ensures Turns(|avail|, at, right, k) <= |avail|
    ensures Times(At(base, path, avail, at), avail, path, right, k) == At(base, path, avail, Turns(|avail|, at, right, k))
  {
    hide Cycle, At, Catalogue, NoRepeat, Turn;
    if k > 0 {
      GoesRound(base, path, avail, at, right, k - 1);
      TurnIs(|avail|, Turns(|avail|, at, right, k - 1));
      StepsRing(base, path, avail, Turns(|avail|, at, right, k - 1), right);
    }
  }

  /** A table that cannot take the ROM is never changed. */
  lemma {:induction false} Stuck(m: Profiles, avail: seq<string>, path: string, right: bool, k: nat)
    requires path !in m && (|m| >= MAX_ROMS || |path| >= PATH_SIZE)
    ensures Cycle(m, avail, path, right) == m && Times(m, avail, path, right, k) == m
  {
    hide Next;
    if k > 0 {
      Stuck(m, avail, path, right, k - 1);
    }
  }

  /** Whether the menu shows the ROM's choice as one of its positions. */
  predicate InRing(m: Profiles, avail: seq<string>, path: string) { path !in m || m[path] in avail }

  lemma AtPlace(m: Profiles, avail: seq<string>, path: string) returns (base: Profiles, at: nat)
    requires InRing(m, avail, path) && |m| <= MAX_ROMS && (path in m || |m| < MAX_ROMS)
    ensures path !in base && |base| < MAX_ROMS && at <= |avail| && At(base, path, avail, at) == m
  {
    hide Place;
    base, at := m - {path}, 0;
    if path in m {
      assert m.Keys == base.Keys + {path};
      assert |base.Keys| < |m.Keys|;
      at := Place(avail, m[path]);
      assert base[path := m[path]] == m;
    } else {
      assert base == m;
    }
  }

  /** One press each way, or one press for every core and one for "none", gives the map back. */
  lemma RingRestores(m: Profiles, avail: seq<string>, path: string, right: bool)
    requires Catalogue(avail) && NoRepeat(avail) && |m| <= MAX_ROMS && InRing(m, avail, path)
    requires path in m ==> |path| < PATH_SIZE
    ensures Cycle(Cycle(m, avail, path, right), avail, path, !right) == m
    ensures Times(m, avail, path, right, |avail| + 1) == m
  {
    hide Cycle, At, Catalogue, NoRepeat, Turn, InRing;
    if path !in m && (|m| >= MAX_ROMS || |path| >= PATH_SIZE) {
      Stuck(m, avail, path, right, |avail| + 1);
      Stuck(m, avail, path, !right, 0);
    } else {
      var base, at := AtPlace(m, avail, path);
      GoesRound(base, path, avail, at, right, |avail| + 1);
      StepsRing(base, path, avail, at, right);
      TurnIs(|avail|, at);
      StepsRing(base, path, avail, Turn(|avail|, at, right), !right);
      TurnIs(|avail|, Turn(|avail|, at, right));
    }
  }

  /** One press each way gives the map back exactly when the ROM's choice is a position of the ring:
      a core the device does not have, or an empty entry, is lost. */
  lemma RightLeftRestoresIff(m: Profiles, avail: seq<string>, path: string, right: bool)
    requires Catalogue(avail) && NoRepeat(avail) && |m| <= MAX_ROMS && path in m && |path| < PATH_SIZE
    ensures Cycle(Cycle(m, avail, path, right), avail, path, !right) == m <==> InRing(m, avail, path)
  {
    hide Cycle, Catalogue, NoRepeat, Turn;
    if InRing(m, avail, path) {
      RingRestores(m, avail, path, right);
    } else {
      var base := m - {path};
      assert |base| < MAX_ROMS by { assert m.Keys == base.Keys + {path}; assert |base.Keys| < |m.Keys|; }
      FirstStep(m, base, avail, path, right);
      StepsRing(base, path, avail, Turn(|avail|, 0, right), !right);
      TurnIs(|avail|, 0);
      TurnIs(|avail|, Turn(|avail|, 0, right));
    }
  }

  lemma FirstStep(m: Profiles, base: Profiles, avail: seq<string>, path: string, right: bool)
    requires Catalogue(avail) && path in m && base == m - {path} && m[path] !in avail && |base| < MAX_ROMS && |path| < PATH_SIZE
    ensures Turn(|avail|, 0, right) <= |avail|
    ensures Cycle(m, avail, path, right) == At(base, path, avail, Turn(|avail|, 0, right))
  {
    hide Set;
    TurnIs(|avail|, 0);
    assert m == base[path := m[path]];
    SetOver(base, path, m[path], avail[Turn(|avail|, 0, right) - 1]);
  }

  // ---------- after a reload ----------

  lemma {:induction false} StoredPaths(roms: seq<Rom>)
    requires Distinct(roms)
    ensures Distinct(Stored(roms)) && forall r :: r in Stored(roms) ==> r in roms
    decreases |roms|
  {
    if roms != [] {
      var front, last := roms[..|roms| - 1], roms[|roms| - 1];
      StoredPaths(front);
      var kept := Stored(front);
      if last.profile != "" {
        forall i | 0 <= i < |kept| ensures kept[i].path != last.path {
          assert kept[i] in front;
        }
        assert Stored(roms) == kept + [last];
      } else {
        assert kept + [] == kept;
      }
    }
  }

  lemma {:induction false} ImagePaths(roms: seq<Rom>)
    requires forall i | 0 <= i < |roms| :: Clean(Ggfe, roms[i].path) && |roms[i].path| < PATH_SIZE
    ensures |R.Images(roms)| == |roms| && forall i | 0 <= i < |roms| :: R.Images(roms)[i].path == roms[i].path
  {
    hide Fit, Reads, Clean;
    if roms != [] {
      ImagePaths(roms[1..]);
      SurvivesIff(Ggfe, roms[0].path, PATH_SIZE);
    }
  }

  /** A table whose paths hold no control byte has distinct paths again after saving and loading, even if its profiles change. */
  lemma ReloadIsDistinct(roms: seq<Rom>)
    requires Distinct(roms) && forall i | 0 <= i < |roms| :: Clean(Ggfe, roms[i].path) && |roms[i].path| < PATH_SIZE
    ensures Distinct(R.Images(Stored(roms)))
  {
    hide R.Image, Clean, R.Images, Stored;
    StoredPaths(roms);
    forall i | 0 <= i < |Stored(roms)| ensures Clean(Ggfe, Stored(roms)[i].path) && |Stored(roms)[i].path| < PATH_SIZE {
      assert Stored(roms)[i] in roms;
    }
    ImagePaths(Stored(roms));
  }

  /** How a path comes back. */
  function PathBack(path: string): string { Fit(Reads(Ggfe, path), PATH_SIZE) }

  /** No two entries that are written have paths that come back alike. */
  predicate ReadApart(roms: seq<Rom>) {
    forall i, j | 0 <= i < j < |roms| && roms[i].profile != "" && roms[j].profile != "" :: PathBack(roms[i].path) != PathBack(roms[j].path)
  }

  lemma {:induction false} StoredHas(roms: seq<Rom>, r: Rom)
    ensures r in Stored(roms) <==> r in roms && r.profile != ""
    decreases |roms|
  {
    if roms != [] {
      var front, last := roms[..|roms| - 1], roms[|roms| - 1];
      StoredHas(front, r);
      assert roms == front + [last];
    }
  }

  lemma ReadApartSnoc(roms: seq<Rom>, r: Rom)
    ensures ReadApart(roms + [r])
       <==> ReadApart(roms) && (r.profile != "" ==> forall x | x in roms && x.profile != "" :: PathBack(x.path) != PathBack(r.path))
  {
    hide PathBack;
    var all := roms + [r];
    assert all[|roms|] == r && forall i | 0 <= i < |roms| :: all[i] == roms[i];
    if ReadApart(all) {
      forall i, j | 0 <= i < j < |roms| && roms[i].profile != "" && roms[j].profile != ""
        ensures PathBack(roms[i].path) != PathBack(roms[j].path)
      {
        assert PathBack(all[i].path) != PathBack(all[j].path);
      }
      forall x | r.profile != "" && x in roms && x.profile != "" ensures PathBack(x.path) != PathBack(r.path) {
        var i :| 0 <= i < |roms| && roms[i] == x;
        assert PathBack(all[i].path) != PathBack(all[|roms|].path);
      }
    }
  }

  lemma {:induction false} ImagesSnoc(roms: seq<Rom>, r: Rom)
    ensures R.Images(roms + [r]) == R.Images(roms) + [R.Image(r)]
    decreases |roms|
  {
    hide R.Image;
    if roms == [] {
      assert [r][1..] == [] && roms + [r] == [r];
      assert R.Images([]) == [];
      assert [R.Image(r)] + [] == [] + [R.Image(r)];
    } else {
      assert (roms + [r])[1..] == roms[1..] + [r];
      ImagesSnoc(roms[1..], r);
    }
  }

  lemma {:induction false} ImagesHavePath(roms: seq<Rom>, path: string)
    ensures HasPath(R.Images(roms), path) <==> exists x :: x in roms && PathBack(x.path) == path
    decreases |roms|
  {
    hide PathBack, HasPath;
    if roms == [] {
      NoPath();
    } else {
      var front, last := roms[..|roms| - 1], roms[|roms| - 1];
      assert roms == front + [last];
      ImagesSnoc(front, last);
      ImagesHavePath(front, path);
      HasPathSnoc(R.Images(front), R.Image(last), path);
      ImagePath(last);
    }
  }

  lemma ImagePath(r: Rom)
    ensures R.Image(r).path == PathBack(r.path)
  {}

  /** A reloaded table has distinct paths exactly when no two entries that are written have paths that come back alike. */
  lemma {:induction false} ReloadIsDistinctIff(roms: seq<Rom>)
    ensures Distinct(R.Images(Stored(roms))) <==> ReadApart(roms)
    decreases |roms|
  {
    hide Distinct, PathBack, R.Image, R.Images, ReadApart, HasPath;
    if roms == [] {
      NothingReloads();
    } else {
      var front, last := roms[..|roms| - 1], roms[|roms| - 1];
      assert roms == front + [last];
      ReloadIsDistinctIff(front);
      ReadApartSnoc(front, last);
      var kept := Stored(front);
      if last.profile == "" {
        assert kept + [] == kept;
      } else {
        ImagesSnoc(kept, last);
        DistinctSnoc(R.Images(kept), R.Image(last));
        ImagePath(last);
        ImagesHavePath(kept, PathBack(last.path));
        forall x ensures x in kept <==> x in front && x.profile != "" { StoredHas(front, x); }
      }
    }
  }

  lemma NothingReloads()
    ensures Distinct(R.Images(Stored([]))) && ReadApart([])
  {
    assert Stored([]) == [];
    assert R.Images([]) == [];
  }

  /** With one it may not: two different paths reload as one path twice. */
  lemma ReloadRepeatsPath(profile: string)
    requires profile != ""
    ensures var roms := [Rom("\U{0001}", profile), Rom("u0001", profile)];
            Distinct(roms) && !Distinct(R.Images(Stored(roms)))
  {
    hide R.Image, R.Images, Stored;
    var a, b := Rom("\U{0001}", profile), Rom("u0001", profile);
    StoredTwo(a, b);
    ImagesTwo(a, b);
    TwoReadings(profile);
    assert [a, b][0].path[0] != [a, b][1].path[0];
    assert [R.Image(a), R.Image(b)][0].path == [R.Image(a), R.Image(b)][1].path;
  }

  lemma StoredTwo(a: Rom, b: Rom)
    requires a.profile != "" && b.profile != ""
    ensures Stored([a, b]) == [a, b]
  {
    var one, two := [a], [a, b];
    assert two[..1] == one && one[..0] == [];
    assert Stored(one) == one;
    assert one + [b] == two;
  }

  lemma ImagesTwo(a: Rom, b: Rom)
    ensures R.Images([a, b]) == [R.Image(a), R.Image(b)]
  {
    hide R.Image;
    var one, two := [b], [a, b];
    assert two[1..] == one && one[1..] == [];
    assert R.Images(one) == [R.Image(b)];
    assert [R.Image(a)] + [R.Image(b)] == [R.Image(a), R.Image(b)];
  }

  lemma TwoReadings(profile: string)
    ensures R.Image(Rom("\U{0001}", profile)).path == R.Image(Rom("u0001", profile)).path
  {
    hide Fit;
    TwoTexts();
  }

  lemma TwoTexts()
    ensures Fit(Reads(Ggfe, "\U{0001}"), PATH_SIZE) == Fit(Reads(Ggfe, "u0001"), PATH_SIZE) == "u0001"
  {
    var c := "\U{0001}";
    assert c[1..] == "";
    assert EscChar(Ggfe, c[0]) == ['\\', 'u', '0', '0', '0', '1'];
    assert Reads(Ggfe, c) == "u0001" + "";
    SurvivesIff(Ggfe, "u0001", PATH_SIZE);
  }
}
