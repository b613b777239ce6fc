/** Writing and reading the recents file step by step, as the program does. */
module RecentStore {
  import opened Optional
  import opened Json
  import opened JsonText
  import opened JsonObject
  import opened TextUiList
  import opened TextUiChecks
  import opened TextUiWriter
  import opened Decimals
  import opened RecentFile
  import Recents
  import F = FavoriteFile
  import S = FavoriteState

  /** One line of the file. */
  method WriteRecent(f: string, e: Recent, last: bool) returns (out: string)
    ensures RecentFields(e) != [] && out == (f + "    ") + (Object(RecentFields(e)) + LineEnd(last))
  {
    hide Start, Object, IsName, LineEnd, Truth;
    Names();
    var d := e.data;
    ghost var line := f + "    ";
    ghost var a: Fields := [("system_id", Text(e.system))];
    out := WriteFirst(f, "system_id", e.system);
    out := WriteText(out, "relative_path", e.path, line, a);
    a := a + [("relative_path", Text(e.path))];
    out := WriteText(out, "title", d.title, line, a);
    a := a + [("title", Text(d.title))];
    out := WriteText(out, "file_name", d.file, line, a);
    a := a + [("file_name", Text(d.file))];
    out := WriteText(out, "path", d.location, line, a);
    a := a + [("path", Text(d.location))];
    out := WriteText(out, "thumbnail", d.thumbnail, line, a);
    a := a + [("thumbnail", Text(d.thumbnail))];
    out := WriteText(out, "launch_profile", d.profile, line, a);
    a := a + [("launch_profile", Text(d.profile))];
    out := WriteText(out, "last_played_at", d.time, line, a);
    a := a + [("last_played_at", Text(d.time))];
    out := WritePlain(out, "resume_available", Truth(d.resume), line, a);
    a := a + [("resume_available", Plain(Truth(d.resume)))];
    assert a == RecentFields(e);
    out := EndLine(out, last, line, a);
  }

  method Save(es: seq<Recent>) returns (out: string)
    ensures out == FileText(es)
  {
    hide Items, Object, LineEnd, RecentFields, IsName, OneArray, ArrayHead;
    Names();
    ghost var objs := Objects(es);
    ObjectsAreWritten(es);
    out := OPENING + "  \"recents\": [\n";
    HeadText();
    ghost var start := out;
    assert objs[0..] == objs;
    for i := 0 to |es|
      invariant Written(objs[i..]) && out + Items(objs[i..]) == start + Items(objs)
    {
      assert objs[i..][1..] == objs[i + 1..] && objs[i..][0] == RecentFields(es[i]);
      LineWritten(out, objs[i..], i + 1 == |es|);
      out := WriteRecent(out, es[i], i + 1 == |es|);
    }
    NoItems();
    assert objs[|es|..] == [] && out + "" == out;
    out := out + "  ]\n" + "}\n";
    OneArrayIs("recents", objs);
  }

  lemma HeadText()
    ensures "  \"recents\": [\n" == ArrayHead("recents")
  {}

  method LoadRecent(t: string) returns (r: Option<seq<Recent>>)
    ensures r == Load(t)
  {
    hide NextObject, FindArray, EntryOf, ValidSystem, ValidPath;
    if t == "" {
      return Some([]);
    }
    var a := FindArrayAt(t, "recents");
    if a.None? {
      return None;
    }
    var (cursor, end) := a.value;
    ghost var start := cursor;
    ArrayInside(t, "recents");
    var list: seq<Recent> := [];
    while |list| < Recents.MAX_RECENTS
      invariant start <= cursor <= end <= |t|
      invariant LoadWith(t, start, end, [], Recents.MAX_RECENTS, Accept) == LoadWith(t, cursor, end, list, Recents.MAX_RECENTS, Accept)
      decreases end - cursor
    {
      var next := NextObjectAt(t, cursor, end);
      if next.None? {
        break;
      }
      NextAdvances(t, cursor, end);
      var (s, e) := next.value;
      var entry := ReadEntry(t[s..e]);
      cursor := e;
      if ValidSystem(entry.system) && ValidPath(entry.path) && entry.data.profile != "" {
        var isNew := HasNoGame(list, entry.Game());
        if isNew {
          if entry.data.title == "" {
            var from := if entry.data.file != "" then entry.data.file else entry.path;
            entry := entry.(data := entry.data.(title := if |from| < F.TITLE_SIZE then from else ""));
          }
          list := list + [entry];
        }
      }
    }
    return Some(list);
  }

  method HasNoGame(list: seq<Recent>, game: (string, string)) returns (isNew: bool)
    ensures isNew == Recents.NoGame(list, game)
  {
    for i := 0 to |list|
      invariant forall k | 0 <= k < i :: list[k].Game() != game
    {
      if list[i].Game() == game {
        return false;
      }
    }
    return true;
  }

  method ReadEntry(t: string) returns (e: Recent)
    ensures e == EntryOf(t)
  {
    hide GetOr, GetBool;
    var system := S.Field(t, "system_id", F.SYSTEM_SIZE);
    var path := S.Field(t, "relative_path", F.PATH_SIZE);
    var title := S.Field(t, "title", F.TITLE_SIZE);
    var file := S.Field(t, "file_name", F.TITLE_SIZE);
    var location := S.Field(t, "path", F.PATH_SIZE);
    var thumbnail := S.Field(t, "thumbnail", F.PATH_SIZE);
    var profile := S.Field(t, "launch_profile", PROFILE_SIZE);
    var time := S.Field(t, "last_played_at", TIME_SIZE);
    var resume := FindBool(t, 0, |t|, "resume_available", 0);
    return Recents.Entry(system, path, Play(title, file, location, thumbnail, profile, time, resume));
  }
}
