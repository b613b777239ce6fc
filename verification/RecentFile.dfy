/** The recents file of the text UI: what loading a saved list gives, and exactly when it is the list. */
module RecentFile {
  import opened Optional
  import opened Json
  import opened JsonText
  import opened JsonObject
  import opened TextUiList
  import opened TextUiChecks
  import opened Decimals
  import Recents
  import F = FavoriteFile

  const PROFILE_SIZE: nat := 128
  const TIME_SIZE: nat := 64

  /** What an entry records beside its game. `resume` is a C int. */
  datatype Play = Play(title: string, file: string, location: string, thumbnail: string, profile: string, time: string, resume: int)

  type Recent = Recents.Entry<Play>

  function Truth(n: int): string { if n != 0 then "true" else "false" }

  function RecentFields(e: Recent): Fields {
    [("system_id", Text(e.system)), ("relative_path", Text(e.path)), ("title", Text(e.data.title)), ("file_name", Text(e.data.file)),
     ("path", Text(e.data.location)), ("thumbnail", Text(e.data.thumbnail)), ("launch_profile", Text(e.data.profile)),
     ("last_played_at", Text(e.data.time)), ("resume_available", Plain(Truth(e.data.resume)))]
  }

  function Objects(es: seq<Recent>): (objs: seq<Fields>)
    ensures |objs| == |es| && forall i | 0 <= i < |es| :: objs[i] == RecentFields(es[i])
  {
    seq(|es|, i requires 0 <= i < |es| => RecentFields(es[i]))
  }

  lemma FieldsAreProper(e: Recent)
    ensures Proper(RecentFields(e)) && RecentFields(e) != []
  {
    hide IsName, PlainWord;
    Names();
    TruthIsPlain(e.data.resume);
  }

  lemma Names()
    ensures IsName("system_id") && IsName("relative_path") && IsName("title") && IsName("file_name") && IsName("path")
    ensures IsName("thumbnail")
    ensures IsName("launch_profile") && IsName("last_played_at") && IsName("resume_available") && IsName("recents")
  {
    EarlyNames();
    LateNames();
  }

  lemma EarlyNames()
    ensures IsName("system_id") && IsName("relative_path") && IsName("title") && IsName("file_name") && IsName("path")
    ensures IsName("thumbnail")
  {}

  lemma LateNames()
    ensures IsName("launch_profile") && IsName("last_played_at") && IsName("resume_available") && IsName("recents")
  {}

  lemma TruthIsPlain(n: int)
    ensures PlainWord(Truth(n))
  {}

  lemma ObjectsAreWritten(es: seq<Recent>)
    ensures Written(Objects(es))
  {
    hide RecentFields, Proper;
    forall i | 0 <= i < |es| ensures Objects(es)[i] != [] && Proper(Objects(es)[i]) {
      FieldsAreProper(es[i]);
    }
  }

  function FileText(es: seq<Recent>): string {
    ObjectsAreWritten(es);
    OneArray("recents", Objects(es))
  }

  // ---------- loading ----------

  function EntryOf(text: string): Recent {
    Recents.Entry(GetOr(text, "system_id", F.SYSTEM_SIZE), GetOr(text, "relative_path", F.PATH_SIZE),
      Play(GetOr(text, "title", F.TITLE_SIZE), GetOr(text, "file_name", F.TITLE_SIZE), GetOr(text, "path", F.PATH_SIZE),
           GetOr(text, "thumbnail", F.PATH_SIZE), GetOr(text, "launch_profile", PROFILE_SIZE),
           GetOr(text, "last_played_at", TIME_SIZE), GetBool(text, 0, |text|, "resume_available", 0)))
  }

  function Titled(e: Recent): Recent { e.(data := e.data.(title := F.TitleOr(e.data.title, e.data.file, e.path))) }

  function Take(list: seq<Recent>, e: Recent): seq<Recent> {
    if ValidSystem(e.system) && ValidPath(e.path) && e.data.profile != "" && Recents.NoGame(list, e.Game()) then list + [Titled(e)]
    else list
  }

  function Accept(list: seq<Recent>, text: string): seq<Recent> { Take(list, EntryOf(text)) }

  /** The recents in a file: none in an empty file, nothing at all when there is no such array. */
  function Load(t: string): Option<seq<Recent>> {
    if t == "" then Some([])
    else match FindArray(t, "recents")
      case None => None
      case Some((s, e)) => Some(LoadWith(t, s, e, [], Recents.MAX_RECENTS, Accept))
  }

  lemma AcceptAddsOne()
    ensures AddsOne(Accept)
  {
    hide EntryOf;
  }

  // ---------- what comes back ----------

  function Image(e: Recent): Recent {
    Recents.Entry(Fit(Reads(TextUi, e.system), F.SYSTEM_SIZE), Fit(Reads(TextUi, e.path), F.PATH_SIZE),
      Play(Fit(Reads(TextUi, e.data.title), F.TITLE_SIZE), Fit(Reads(TextUi, e.data.file), F.TITLE_SIZE),
           Fit(Reads(TextUi, e.data.location), F.PATH_SIZE), Fit(Reads(TextUi, e.data.thumbnail), F.PATH_SIZE),
           Fit(Reads(TextUi, e.data.profile), PROFILE_SIZE), Fit(Reads(TextUi, e.data.time), TIME_SIZE),
           if e.data.resume != 0 then 1 else 0))
  }

  lemma EarlyLookups(e: Recent)
    ensures var fs := RecentFields(e);
            && Lookup(fs, "system_id") == Some(Text(e.system)) && Lookup(fs, "relative_path") == Some(Text(e.path))
            && Lookup(fs, "title") == Some(Text(e.data.title)) && Lookup(fs, "file_name") == Some(Text(e.data.file))
            && Lookup(fs, "path") == Some(Text(e.data.location))
  {
    hide Lookup;
    var fs := RecentFields(e);
    LookupAt(fs, 0);
    LookupAt(fs, 1);
    LookupAt(fs, 2);
    LookupAt(fs, 3);
    LookupAt(fs, 4);
  }

  lemma LateLookups(e: Recent)
    ensures var fs := RecentFields(e);
            && Lookup(fs, "thumbnail") == Some(Text(e.data.thumbnail)) && Lookup(fs, "launch_profile") == Some(Text(e.data.profile))
            && Lookup(fs, "last_played_at") == Some(Text(e.data.time))
            && Lookup(fs, "resume_available") == Some(Plain(Truth(e.data.resume)))
  {
    hide Lookup;
    var fs := RecentFields(e);
    LookupAt(fs, 5);
    LookupAt(fs, 6);
    LookupAt(fs, 7);
    LookupAt(fs, 8);
  }

  /** A written truth value reads back. */
  lemma ObjectTruth(fs: Fields, key: string, n: int)
    requires fs != [] && Proper(fs) && IsName(key) && Lookup(fs, key) == Some(Plain(Truth(n)))
    ensures GetBool(Object(fs), 0, |Object(fs)|, key, 0) == if n != 0 then 1 else 0
  {
    hide ObjectText, Find, Lookup, IsName, Proper;
    var t := Object(fs);
    WholeText(t);
    ObjectFound(TextUi, t, 0, fs, key);
    var pos := Find(t, 0, |t|, key).value;
    Sliced(t, pos, Truth(n));
    if n == 0 {
      assert t[pos] == t[pos..pos + 5][0] == 'f';
      assert pos + 4 <= |t| ==> t[pos..pos + 4][0] == 'f';
    }
  }

  lemma ObjectReadsBack(e: Recent)
    ensures RecentFields(e) != [] && EntryOf(Object(RecentFields(e))) == Image(e)
  {
    hide Object, GetOr, GetBool, Reads, Fit, RecentFields, Lookup, Proper, IsName;
    var fs := RecentFields(e);
    FieldsAreProper(e);
    Names();
    EarlyLookups(e);
    LateLookups(e);
    ObjectGets(fs, "system_id", F.SYSTEM_SIZE);
    ObjectGets(fs, "relative_path", F.PATH_SIZE);
    ObjectGets(fs, "title", F.TITLE_SIZE);
    ObjectGets(fs, "file_name", F.TITLE_SIZE);
    ObjectGets(fs, "path", F.PATH_SIZE);
    ObjectGets(fs, "thumbnail", F.PATH_SIZE);
    ObjectGets(fs, "launch_profile", PROFILE_SIZE);
    ObjectGets(fs, "last_played_at", TIME_SIZE);
    ObjectTruth(fs, "resume_available", e.data.resume);
  }

  /** What the loader makes of the entries in order. */
  function Fold(es: seq<Recent>, list: seq<Recent>): seq<Recent>
    decreases |es|
  {
    if es == [] then list else Fold(es[1..], Take(list, Image(es[0])))
  }

  lemma {:induction false} FoldIs(es: seq<Recent>, list: seq<Recent>)
    ensures Written(Objects(es)) && FoldWith(Objects(es), list, Accept) == Fold(es, list)
    decreases |es|
  {
    hide EntryOf, Object, Image, Take, RecentFields;
    ObjectsAreWritten(es);
    if es != [] {
      ObjectReadsBack(es[0]);
      assert Objects(es)[1..] == Objects(es[1..]);
      FoldIs(es[1..], Take(list, Image(es[0])));
    }
  }

  /** Every saved file loads as the loader's fold over the entries as they read back. */
  lemma SavedReads(es: seq<Recent>)
    requires |es| <= Recents.MAX_RECENTS
    ensures Load(FileText(es)) == Some(Fold(es, []))
  {
    hide OneArray, Body, FindArray, LoadWith, FoldWith, Fold, Accept, Written, Objects, AddsOne, IsName;
    ObjectsAreWritten(es);
    AcceptAddsOne();
    Names();
    OneArrayRead("recents", Objects(es), Recents.MAX_RECENTS, Accept);
    FoldIs(es, []);
  }

  // ---------- when it is what was saved ----------

  predicate Fits(e: Recent) {
    && |e.system| < F.SYSTEM_SIZE && |e.path| < F.PATH_SIZE && |e.data.title| < F.TITLE_SIZE && |e.data.file| < F.TITLE_SIZE
    && |e.data.location| < F.PATH_SIZE && |e.data.thumbnail| < F.PATH_SIZE && |e.data.profile| < PROFILE_SIZE && |e.data.time| < TIME_SIZE
  }

  predicate AllClean(e: Recent) {
    && Clean(TextUi, e.system) && Clean(TextUi, e.path) && Clean(TextUi, e.data.title) && Clean(TextUi, e.data.file)
    && Clean(TextUi, e.data.location) && Clean(TextUi, e.data.thumbnail) && Clean(TextUi, e.data.profile) && Clean(TextUi, e.data.time)
  }

  /** What the loader asks of an entry: as of a favorite, and a launch profile. The flag is written as a truth value. */
  predicate Loadable(e: Recent) {
    && AllClean(e) && ValidSystem(e.system) && ValidPath(e.path) && F.Titled(e.data.title, e.data.file, e.path)
    && e.data.profile != "" && 0 <= e.data.resume <= 1
  }

  lemma ImageSame(e: Recent)
    requires Fits(e)
    ensures Image(e) == e <==> AllClean(e) && 0 <= e.data.resume <= 1
    ensures Image(e).data.title == "" <==> e.data.title == ""
  {
    hide Fit, Reads, Clean;
    SurvivesIff(TextUi, e.system, F.SYSTEM_SIZE);
    SurvivesIff(TextUi, e.path, F.PATH_SIZE);
    SurvivesIff(TextUi, e.data.title, F.TITLE_SIZE);
    SurvivesIff(TextUi, e.data.file, F.TITLE_SIZE);
    SurvivesIff(TextUi, e.data.location, F.PATH_SIZE);
    SurvivesIff(TextUi, e.data.thumbnail, F.PATH_SIZE);
    SurvivesIff(TextUi, e.data.profile, PROFILE_SIZE);
    SurvivesIff(TextUi, e.data.time, TIME_SIZE);
    F.ReadsNothing(e.data.title);
  }

  /** One entry is taken unchanged exactly when it is loadable and its game is new. */
  lemma TakesIff(e: Recent, list: seq<Recent>)
    requires Fits(e)
    ensures Take(list, Image(e)) == list + [e] <==> Loadable(e) && Recents.NoGame(list, e.Game())
  {
    hide Image, ValidSystem, ValidPath, AllClean, Recents.NoGame;
    ImageSame(e);
    F.PathNotEmpty(e.path);
    var x := Titled(Image(e));
    assert (list + [x])[|list|] == x && (list + [e])[|list|] == e && |list + [e]| == |list| + 1;
  }

  lemma TakenAt(es: seq<Recent>, i: nat)
    requires i < |es| && Fits(es[i])
    ensures Written(Objects(es))
    ensures Taken(es, Objects(es), [], Accept, i) <==> Loadable(es[i]) && Recents.NoGame(es[..i], es[i].Game())
  {
    hide Written, Loadable, Recents.NoGame, Take, Image, EntryOf, Object, RecentFields, Fits;
    ObjectsAreWritten(es);
    ObjectReadsBack(es[i]);
    TakesIff(es[i], es[..i]);
    assert [] + es[..i] == es[..i];
  }

  /** Load undoes save exactly when every entry is loadable and no game stands twice. */
  lemma RoundTripIff(es: seq<Recent>)
    requires |es| <= Recents.MAX_RECENTS && forall i | 0 <= i < |es| :: Fits(es[i])
    ensures Load(FileText(es)) == Some(es)
       <==> forall i | 0 <= i < |es| :: Loadable(es[i]) && Recents.NoGame(es[..i], es[i].Game())
  {
    hide Taken, AddsOne, Written, Accept, Load, FileText, Fold, FoldWith, Objects, Loadable, Recents.NoGame, Fits;
    SavedReads(es);
    FoldIs(es, []);
    AcceptAddsOne();
    FoldIff(es, Objects(es), [], Accept);
    assert [] + es == es;
    forall i | 0 <= i < |es|
      ensures Taken(es, Objects(es), [], Accept, i) <==> Loadable(es[i]) && Recents.NoGame(es[..i], es[i].Game())
    {
      TakenAt(es, i);
    }
  }

  lemma {:induction false} DistinctBefore(es: seq<Recent>, i: nat)
    requires Recents.Distinct(es) && i < |es|
    ensures Recents.NoGame(es[..i], es[i].Game())
    decreases |es|
  {
    if i > 0 {
      DistinctBefore(es[1..], i - 1);
      assert es[1..][..i - 1] == es[1..i] && es[..i] == [es[0]] + es[1..i];
    }
  }

  // ---------- every list the program can hold ----------

  predicate AllFit(list: seq<Recent>) { forall e | e in list :: Fits(e) }

  /** One entry a game, every string in its field, and no more entries than there is room for. */
  predicate Sound(list: seq<Recent>) {
    Recents.Distinct(list) && |list| <= Recents.MAX_RECENTS && AllFit(list)
  }

  lemma EntryFits(text: string)
    ensures Fits(Titled(EntryOf(text)))
  {
    hide GetOr, GetBool;
    GetOrFits(text, "system_id", F.SYSTEM_SIZE);
    GetOrFits(text, "relative_path", F.PATH_SIZE);
    GetOrFits(text, "title", F.TITLE_SIZE);
    GetOrFits(text, "file_name", F.TITLE_SIZE);
    GetOrFits(text, "path", F.PATH_SIZE);
    GetOrFits(text, "thumbnail", F.PATH_SIZE);
    GetOrFits(text, "launch_profile", PROFILE_SIZE);
    GetOrFits(text, "last_played_at", TIME_SIZE);
  }

  lemma {:induction false} DistinctWith(list: seq<Recent>, e: Recent)
    requires Recents.Distinct(list) && Recents.NoGame(list, e.Game())
    ensures Recents.Distinct(list + [e])
    decreases |list|
  {
    if list != [] {
      assert list[0].Game() != e.Game();
      DistinctWith(list[1..], e);
      assert (list + [e])[1..] == list[1..] + [e] && (list + [e])[0] == list[0];
    }
  }

  lemma AcceptKeepsSound(list: seq<Recent>, text: string)
    requires Sound(list) && |list| < Recents.MAX_RECENTS
    ensures Sound(Accept(list, text))
  {
    hide EntryOf, ValidSystem, ValidPath, Fits, Recents.Distinct, Recents.NoGame;
    EntryFits(text);
    var e := Titled(EntryOf(text));
    assert e.Game() == EntryOf(text).Game();
    if Accept(list, text) != list {
      DistinctWith(list, e);
    }
  }

  lemma {:induction false} LoadKeepsSound(t: string, p: nat, end: nat, list: seq<Recent>)
    requires p <= end <= |t| && Sound(list)
    ensures Sound(LoadWith(t, p, end, list, Recents.MAX_RECENTS, Accept))
    decreases end - p
  {
    hide NextObject, Accept, Recents.Distinct, Fits;
    if |list| < Recents.MAX_RECENTS && NextObject(t, p, end).Some? {
      var (o, e) := NextObject(t, p, end).value;
      NextAdvances(t, p, end);
      AcceptKeepsSound(list, t[o..e]);
      LoadKeepsSound(t, e, end, Accept(list, t[o..e]));
    }
  }

  /** Whatever is in the file, the loaded list is sound. */
  lemma LoadedIsSound(t: string)
    ensures Load(t).Some? ==> Sound(Load(t).value)
  {
    hide LoadWith, FindArray;
    ArrayInside(t, "recents");
    if t != "" && FindArray(t, "recents").Some? {
      LoadKeepsSound(t, FindArray(t, "recents").value.0, FindArray(t, "recents").value.1, []);
    }
  }

  lemma {:induction false} OthersFit(list: seq<Recent>, game: (string, string))
    requires AllFit(list)
    ensures AllFit(Recents.Others(list, game))
    decreases |list|
  {
    hide Fits;
    if list != [] {
      OthersFit(list[1..], game);
    }
  }

  lemma PlayKeepsSound(list: seq<Recent>, e: Recent)
    requires Sound(list) && Fits(e)
    ensures Sound(Recents.Played(list, e))
  {
    hide Fits, Recents.Distinct, Recents.Others;
    Recents.PlayedDistinct(list, e);
    OthersFit(list, e.Game());
  }

  lemma {:induction false} HistoryKeepsSound(list: seq<Recent>, history: seq<Recent>)
    requires Sound(list) && AllFit(history)
    ensures Sound(Recents.After(list, history))
    decreases |history|
  {
    hide Fits, Sound, Recents.Played;
    if history != [] {
      HistoryKeepsSound(list, history[..|history| - 1]);
      PlayKeepsSound(Recents.After(list, history[..|history| - 1]), history[|history| - 1]);
    }
  }

  /** Every list the program can come to hold, from any file by any history of plays, survives its own file exactly when
      every entry is loadable. */
  lemma PlayedListSurvivesIff(start: seq<Recent>, history: seq<Recent>)
    requires start == [] || exists t :: Load(t) == Some(start)
    requires AllFit(history)
    ensures var es := Recents.After(start, history);
            Sound(es) && (Load(FileText(es)) == Some(es) <==> forall i | 0 <= i < |es| :: Loadable(es[i]))
  {
    hide Load, FileText, Loadable, Fits, Recents.After, Recents.NoGame;
    if start != [] {
      var t :| Load(t) == Some(start);
      LoadedIsSound(t);
    }
    HistoryKeepsSound(start, history);
    var es := Recents.After(start, history);
    RoundTripIff(es);
    forall i | 0 <= i < |es| ensures Recents.NoGame(es[..i], es[i].Game()) {
      DistinctBefore(es, i);
    }
  }
}
