/** The favorites in memory, and writing and reading their file step by step. */
module FavoriteState {
  import opened Optional
  import opened Strings
  import opened Json
  import opened JsonText
  import opened JsonObject
  import opened ArrayFile
  import opened TextUiList
  import opened TextUiChecks
  import opened TextUiWriter
  import opened FavoriteFile

  // ---------- saving ----------

  lemma Names()
    ensures IsName("system_id") && IsName("relative_path") && IsName("title") && IsName("file_name")
    ensures IsName("path") && IsName("thumbnail") && IsName("favorites")
  {}

  /** One line of the file. */
  method WriteFavorite(f: string, e: Favorite, last: bool) returns (out: string)
    ensures FavoriteFields(e) != [] && out == (f + "    ") + (Object(FavoriteFields(e)) + LineEnd(last))
  {
    hide Start, Object, IsName, LineEnd;
    Names();
    ghost var line := f + "    ";
    ghost var a1: Fields := [("system_id", Text(e.system))];
    ghost var a2, a3, a4 := a1 + [("relative_path", Text(e.path))], [("title", Text(e.title))], [("file_name", Text(e.file))];
    out := WriteFirst(f, "system_id", e.system);
    out := WriteText(out, "relative_path", e.path, line, a1);
    out := WriteText(out, "title", e.title, line, a2);
    out := WriteText(out, "file_name", e.file, line, a2 + a3);
    out := WriteText(out, "path", e.location, line, a2 + a3 + a4);
    ghost var a5 := a2 + a3 + a4 + [("path", Text(e.location))];
    out := WriteText(out, "thumbnail", e.thumbnail, line, a5);
    assert a5 + [("thumbnail", Text(e.thumbnail))] == FavoriteFields(e);
    out := EndLine(out, last, line, FavoriteFields(e));
  }

  method Save(es: seq<Favorite>) returns (out: string)
    ensures out == FileText(es)
  {
    hide Items, Object, LineEnd, FavoriteFields, IsName, OneArray, ArrayHead;
    Names();
    ghost var objs := Objects(es);
    ObjectsAreWritten(es);
    out := OPENING + "  \"favorites\": [\n";
    HeadText();
    ghost var start := out;
    assert objs[0..] == objs;
    for i := 0 to |es|
      invariant Written(objs[i..]) && out + Items(objs[i..]) == start + Items(objs)
    {
      assert objs[i..][1..] == objs[i + 1..] && objs[i..][0] == FavoriteFields(es[i]);
      LineWritten(out, objs[i..], i + 1 == |es|);
      out := WriteFavorite(out, es[i], i + 1 == |es|);
    }
    NoItems();
    assert objs[|es|..] == [] && out + "" == out;
    out := out + "  ]\n" + "}\n";
    OneArrayIs("favorites", objs);
  }

  lemma HeadText()
    ensures "  \"favorites\": [\n" == ArrayHead("favorites")
  {}

  // ---------- loading ----------

  method LoadFavorites(t: string) returns (r: Option<seq<Favorite>>)
    ensures r == Load(t)
  {
    hide NextObject, FindArray, EntryOf, ValidSystem, ValidPath, NoTwin;
    var a := FindArrayAt(t, "favorites");
    if a.None? {
      return None;
    }
    var (cursor, end) := a.value;
    ghost var start := cursor;
    ArrayInside(t, "favorites");
    var list: seq<Favorite> := [];
    while |list| < MAX_FAVORITES
      invariant start <= cursor <= end <= |t|
      invariant LoadWith(t, start, end, [], MAX_FAVORITES, Accept) == LoadWith(t, cursor, end, list, MAX_FAVORITES, Accept)
      decreases end - cursor
    {
      var next := NextObjectAt(t, cursor, end);
      if next.None? {
        break;
      }
      NextAdvances(t, cursor, end);
      var (s, e) := next.value;
      var entry := ReadEntry(t[s..e]);
      cursor := e;
      if ValidSystem(entry.system) && ValidPath(entry.path) {
        var index := FindFavorite(list, entry.system, entry.path);
        FoundIsTwin(list, entry, index);
        if index < 0 {
          if entry.title == "" {
            var from := if entry.file != "" then entry.file else entry.path;
            entry := entry.(title := if |from| < TITLE_SIZE then from else "");
          }
          list := list + [entry];
        }
      }
    }
    return Some(list);
  }

  predicate Found(list: seq<Favorite>, system: string, path: string, index: int) {
    if index < 0 then forall i | 0 <= i < |list| :: list[i].system != system || list[i].path != path
    else index < |list| && list[index].system == system && list[index].path == path
  }

  method FindFavorite(list: seq<Favorite>, system: string, path: string) returns (index: int)
    ensures Found(list, system, path, index) && (index >= 0 ==> index == Place(list, system, path))
  {
    for i := 0 to |list|
      invariant forall k | 0 <= k < i :: list[k].system != system || list[k].path != path
    {
      if list[i].system == system && list[i].path == path {
        PlaceIs(list, system, path, i);
        return i;
      }
    }
    return -1;
  }

  /** Where a game's first entry stands, or the length. */
  function Place(list: seq<Favorite>, system: string, path: string): (i: nat)
    ensures i <= |list| && (i < |list| ==> list[i].system == system && list[i].path == path)
    ensures forall k | 0 <= k < i :: list[k].system != system || list[k].path != path
  {
    if list == [] || (list[0].system == system && list[0].path == path) then 0 else 1 + Place(list[1..], system, path)
  }

  lemma PlaceIs(list: seq<Favorite>, system: string, path: string, i: nat)
    requires i < |list| && list[i].system == system && list[i].path == path
    requires forall k | 0 <= k < i :: list[k].system != system || list[k].path != path
    ensures Place(list, system, path) == i
  {}

  lemma FoundIsTwin(list: seq<Favorite>, e: Favorite, index: int)
    requires Found(list, e.system, e.path, index)
    ensures index < 0 <==> NoTwin(list, e)
  {}

  method Field(t: string, key: string, size: nat) returns (s: string)
    ensures s == GetOr(t, key, size)
  {
    var r := FindStringAt(t, 0, |t|, key, size);
    return if r.Some? then r.value else "";
  }

  method ReadEntry(t: string) returns (e: Favorite)
    ensures e == EntryOf(t)
  {
    hide GetOr;
    var system := Field(t, "system_id", SYSTEM_SIZE);
    var path := Field(t, "relative_path", PATH_SIZE);
    var title := Field(t, "title", TITLE_SIZE);
    var file := Field(t, "file_name", TITLE_SIZE);
    var location := Field(t, "path", PATH_SIZE);
    var thumbnail := Field(t, "thumbnail", PATH_SIZE);
    return Favorite(system, path, title, file, location, thumbnail);
  }

  // ---------- the list in memory ----------

  /** One entry a game. */
  predicate Distinct(list: seq<Favorite>) { forall i, j | 0 <= i < j < |list| :: !SameGame(list[i], list[j]) }

  /** The entry made of a ROM of the library; a string too long for its field is stored empty. */
  function EntryFor(system: string, rom: Favorite): Favorite {
    Favorite(Copied(system, SYSTEM_SIZE), Copied(rom.path, PATH_SIZE), Copied(if rom.title != "" then rom.title else rom.path, TITLE_SIZE),
             Copied(rom.file, TITLE_SIZE), Copied(rom.location, PATH_SIZE), Copied(rom.thumbnail, PATH_SIZE))
  }

  /** The list with a ROM's entry: replaced where the game stands, or added while there is room. */
  function SetIn(list: seq<Favorite>, system: string, rom: Favorite): seq<Favorite> {
    var i := Place(list, system, rom.path);
    if i < |list| then list[i := EntryFor(system, rom)]
    else if |list| < MAX_FAVORITES then list + [EntryFor(system, rom)]
    else list
  }

  /** A string stored whole, or as nothing when it has the size of its field or more. */
  predicate Stores(size: nat, v: string, stored: string) { stored == if |v| < size then v else "" }

  /** A set game stands in the list with each of the ROM's own strings; a ROM without a title goes by its path. */
  lemma SetStores(list: seq<Favorite>, system: string, rom: Favorite)
    requires |list| < 2048 || exists e :: e in list && e.system == system && e.path == rom.path
    requires |system| < 64 && |rom.path| < 1024
    ensures exists e :: e in SetIn(list, system, rom) && e.system == system && e.path == rom.path
              && Stores(256, if rom.title == "" then rom.path else rom.title, e.title) && Stores(256, rom.file, e.file)
              && Stores(1024, rom.location, e.location) && Stores(1024, rom.thumbnail, e.thumbnail)
  {
    var e := EntryFor(system, rom);
    var i := Place(list, system, rom.path);
    PlaceFound(list, system, rom.path);
    assert e == SetIn(list, system, rom)[i];
  }

  lemma PlaceFound(list: seq<Favorite>, system: string, path: string)
    ensures (exists e :: e in list && e.system == system && e.path == path) ==> Place(list, system, path) < |list|
  {}

  /** The list without the entries of a game. */
  function Cleared(list: seq<Favorite>, system: string, path: string): seq<Favorite> {
    if list == [] then []
    else (if list[0].system == system && list[0].path == path then [] else [list[0]]) + Cleared(list[1..], system, path)
  }

  class Favorites {
    var entries: seq<Favorite>

    predicate Valid()
      reads this
    {
      Distinct(entries) && |entries| <= MAX_FAVORITES
    }

    constructor ()
      ensures Valid() && entries == []
    {
      entries := [];
    }

    /** The ROM's entry is replaced where it stands, or added at the end while there is room. */
    method SetFromRom(system: string, rom: Favorite) returns (ok: bool)
      requires Valid() && |rom.path| < PATH_SIZE
      modifies this
      ensures |system| < SYSTEM_SIZE ==> Valid()
      ensures ok <==> |old(entries)| < MAX_FAVORITES || !Found(old(entries), system, rom.path, -1)
      ensures entries == SetIn(old(entries), system, rom)
      ensures !ok ==> entries == old(entries)
      ensures ok && Found(old(entries), system, rom.path, -1) ==> entries == old(entries) + [EntryFor(system, rom)]
      ensures forall i | Found(old(entries), system, rom.path, i) && i >= 0 :: entries == old(entries)[i := EntryFor(system, rom)]
    {
      var index := FindFavorite(entries, system, rom.path);
      if index < 0 {
        if |entries| >= MAX_FAVORITES {
          return false;
        }
        entries := entries + [EntryFor(system, rom)];
      } else {
        entries := entries[index := EntryFor(system, rom)];
      }
      return true;
    }

    /** The entry of a game goes, the others move up. */
    method Clear(system: string, path: string)
      requires Valid()
      modifies this
      ensures Valid() && entries == Cleared(old(entries), system, path)
    {
      var index := FindFavorite(entries, system, path);
      ClearedIs(entries, system, path, index);
      if index >= 0 {
        entries := entries[..index] + entries[index + 1..];
      }
    }
  }

  lemma FoundRest(list: seq<Favorite>, system: string, path: string, index: int)
    requires list != [] && Distinct(list) && Found(list, system, path, index)
    ensures Distinct(list[1..]) && Found(list[1..], system, path, if index <= 0 then -1 else index - 1)
    ensures index < |list| && (list[0].system == system && list[0].path == path <==> index == 0)
  {
    assert forall i | 0 <= i < |list| - 1 :: list[1..][i] == list[i + 1];
  }

  lemma Gap(list: seq<Favorite>, index: int)
    requires list != [] && index < |list|
    ensures [list[0]] + list[1..] == list && [] + list[1..] == list[..0] + list[1..]
    ensures index > 0 ==> [list[0]] + (list[1..][..index - 1] + list[1..][index..]) == list[..index] + list[index + 1..]
  {}

  lemma {:induction false} ClearedIs(list: seq<Favorite>, system: string, path: string, index: int)
    requires Distinct(list) && Found(list, system, path, index)
    ensures Cleared(list, system, path) == if index < 0 then list else list[..index] + list[index + 1..]
    decreases |list|
  {
    if list != [] {
      var rest := list[1..];
      FoundRest(list, system, path, index);
      hide Distinct, Found;
      if index < 0 {
        ClearedIs(rest, system, path, -1);
      } else if index == 0 {
        ClearedIs(rest, system, path, -1);
      } else {
        ClearedIs(rest, system, path, index - 1);
      }
      Gap(list, index);
    }
  }

  // ---------- every list the program can hold ----------

  /** One change of the list by the program. */
  datatype Change = Set(system: string, rom: Favorite) | Unset(system: string, path: string)

  /** System ids and ROM paths come from fields of these sizes. */
  predicate FromFields(c: Change) { c.Set? ==> |c.system| < SYSTEM_SIZE && |c.rom.path| < PATH_SIZE }

  function After(list: seq<Favorite>, c: Change): seq<Favorite> {
    match c
    case Set(system, rom) => SetIn(list, system, rom)
    case Unset(system, path) => Cleared(list, system, path)
  }

  function Run(list: seq<Favorite>, changes: seq<Change>): seq<Favorite> {
    if changes == [] then list else After(Run(list, changes[..|changes| - 1]), changes[|changes| - 1])
  }

  /** One entry a game, every string in its field, and no more entries than there is room for. */
  predicate Sound(list: seq<Favorite>) {
    Distinct(list) && |list| <= MAX_FAVORITES && forall i | 0 <= i < |list| :: Fits(list[i])
  }

  lemma EntryFits(text: string)
    ensures var e := EntryOf(text); Fits(e.(title := TitleOr(e.title, e.file, e.path)))
  {
    hide GetOr;
    GetOrFits(text, "system_id", SYSTEM_SIZE);
    GetOrFits(text, "relative_path", PATH_SIZE);
    GetOrFits(text, "title", TITLE_SIZE);
    GetOrFits(text, "file_name", TITLE_SIZE);
    GetOrFits(text, "path", PATH_SIZE);
    GetOrFits(text, "thumbnail", PATH_SIZE);
  }

  lemma AcceptKeepsSound(list: seq<Favorite>, text: string)
    requires Sound(list) && |list| < MAX_FAVORITES
    ensures Sound(Accept(list, text))
  {
    hide EntryOf, ValidSystem, ValidPath, Fits;
    EntryFits(text);
  }

  lemma {:induction false} LoadKeepsSound(t: string, p: nat, end: nat, list: seq<Favorite>)
    requires p <= end <= |t| && Sound(list)
    ensures Sound(LoadWith(t, p, end, list, MAX_FAVORITES, Accept))
    decreases end - p
  {
    hide NextObject, Accept, Distinct, Fits;
    if |list| < MAX_FAVORITES && NextObject(t, p, end).Some? {
      var (o, e) := NextObject(t, p, end).value;
      NextAdvances(t, p, end);
      AcceptKeepsSound(list, t[o..e]);
      LoadKeepsSound(t, e, end, Accept(list, t[o..e]));
    }
  }

  /** Whatever is in the file, the loaded list is sound. */
  lemma LoadedIsSound(t: string)
    ensures Load(t).Some? ==> Sound(Load(t).value)
  {
    hide LoadWith, FindArray;
    ArrayInside(t, "favorites");
    if FindArray(t, "favorites").Some? {
      LoadKeepsSound(t, FindArray(t, "favorites").value.0, FindArray(t, "favorites").value.1, []);
    }
  }

  lemma SetKeepsSound(list: seq<Favorite>, system: string, rom: Favorite)
    requires Sound(list) && |system| < SYSTEM_SIZE && |rom.path| < PATH_SIZE
    ensures Sound(SetIn(list, system, rom))
  {
    hide Place;
    var i, e := Place(list, system, rom.path), EntryFor(system, rom);
    assert e.system == system && e.path == rom.path && Fits(e);
    hide Fits;
    if i < |list| {
      assert SameGame(list[i], e);
    }
  }

  lemma ClearKeepsSound(list: seq<Favorite>, system: string, path: string)
    requires Sound(list)
    ensures Sound(Cleared(list, system, path))
  {
    hide Fits, Place, Cleared;
    var i := Place(list, system, path);
    ClearedIs(list, system, path, if i < |list| then i else -1);
    if i < |list| {
      var after := list[..i] + list[i + 1..];
      assert forall k | 0 <= k < |after| :: after[k] == list[if k < i then k else k + 1];
    }
  }

  lemma {:induction false} RunKeepsSound(list: seq<Favorite>, changes: seq<Change>)
    requires Sound(list) && forall i | 0 <= i < |changes| :: FromFields(changes[i])
    ensures Sound(Run(list, changes))
    decreases |changes|
  {
    hide Sound, SetIn, Cleared;
    if changes != [] {
      var before, c := changes[..|changes| - 1], changes[|changes| - 1];
      RunKeepsSound(list, before);
      match c
      case Set(system, rom) => SetKeepsSound(Run(list, before), system, rom);
      case Unset(system, path) => ClearKeepsSound(Run(list, before), system, path);
    }
  }

  /** The list the program starts with: that of its file, or none. */
  ghost predicate Started(list: seq<Favorite>) { list == [] || exists t :: Load(t) == Some(list) }

  /** Every list the program can come to hold, from any file by any changes, survives its own file exactly when every
      entry is loadable. */
  lemma BuiltListSurvivesIff(start: seq<Favorite>, changes: seq<Change>)
    requires Started(start) && forall i | 0 <= i < |changes| :: FromFields(changes[i])
    ensures var es := Run(start, changes);
            Sound(es) && (Load(FileText(es)) == Some(es) <==> forall i | 0 <= i < |es| :: Loadable(es[i]))
  {
    hide Load, FileText, Loadable, Fits, Run;
    if start != [] {
      var t :| Load(t) == Some(start);
      LoadedIsSound(t);
    }
    RunKeepsSound(start, changes);
    RoundTripIff(Run(start, changes));
  }
}
