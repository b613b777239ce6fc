/** The favorites file of the text UI: what loading a saved list gives, and exactly when it is the list. */
module FavoriteFile {
  import opened Optional
  import opened Json
  import opened JsonText
  import opened JsonObject
  import opened ArrayFile
  import opened TextUiList
  import opened TextUiChecks

  const MAX_FAVORITES: nat := 2048
  const SYSTEM_SIZE: nat := 64
  const PATH_SIZE: nat := 1024
  const TITLE_SIZE: nat := 256

  datatype Favorite = Favorite(system: string, path: string, title: string, file: string, location: string, thumbnail: string)

  function FavoriteFields(e: Favorite): Fields {
    [("system_id", Text(e.system)), ("relative_path", Text(e.path)), ("title", Text(e.title)), ("file_name", Text(e.file)),
     ("path", Text(e.location)), ("thumbnail", Text(e.thumbnail))]
  }

  function Objects(es: seq<Favorite>): (objs: seq<Fields>)
    ensures |objs| == |es| && forall i | 0 <= i < |es| :: objs[i] == FavoriteFields(es[i])
  {
    seq(|es|, i requires 0 <= i < |es| => FavoriteFields(es[i]))
  }

  lemma FieldsAreProper(e: Favorite)
    ensures Proper(FavoriteFields(e)) && FavoriteFields(e) != []
  {}

  lemma ObjectsAreWritten(es: seq<Favorite>)
    ensures Written(Objects(es))
  {
    hide FavoriteFields, Proper;
    forall i | 0 <= i < |es| ensures Objects(es)[i] != [] && Proper(Objects(es)[i]) {
      FieldsAreProper(es[i]);
    }
  }

  function FileText(es: seq<Favorite>): string {
    ObjectsAreWritten(es);
    OneArray("favorites", Objects(es))
  }

  // ---------- loading ----------

  function EntryOf(text: string): Favorite {
    Favorite(GetOr(text, "system_id", SYSTEM_SIZE), GetOr(text, "relative_path", PATH_SIZE), GetOr(text, "title", TITLE_SIZE),
             GetOr(text, "file_name", TITLE_SIZE), GetOr(text, "path", PATH_SIZE), GetOr(text, "thumbnail", PATH_SIZE))
  }

  predicate SameGame(a: Favorite, b: Favorite) { a.system == b.system && a.path == b.path }

  predicate NoTwin(list: seq<Favorite>, e: Favorite) { forall i | 0 <= i < |list| :: !SameGame(list[i], e) }

  /** A missing title is the file name or the path, if it fits. */
  function TitleOr(title: string, file: string, path: string): string {
    var t := if file != "" then file else path;
    if title != "" then title else if |t| < TITLE_SIZE then t else ""
  }

  function Take(list: seq<Favorite>, e: Favorite): seq<Favorite> {
    if ValidSystem(e.system) && ValidPath(e.path) && NoTwin(list, e) then list + [e.(title := TitleOr(e.title, e.file, e.path))]
    else list
  }

  function Accept(list: seq<Favorite>, text: string): seq<Favorite> { Take(list, EntryOf(text)) }

  /** The favorites in a file, or nothing when it has no such array. */
  function Load(t: string): Option<seq<Favorite>> {
    match FindArray(t, "favorites")
    case None => None
    case Some((s, e)) => Some(LoadWith(t, s, e, [], MAX_FAVORITES, Accept))
  }

  lemma AcceptAddsOne()
    ensures AddsOne(Accept)
  {
    hide EntryOf;
  }

  // ---------- what comes back ----------

  function Image(e: Favorite): Favorite {
    Favorite(Fit(Reads(TextUi, e.system), SYSTEM_SIZE), Fit(Reads(TextUi, e.path), PATH_SIZE), Fit(Reads(TextUi, e.title), TITLE_SIZE),
             Fit(Reads(TextUi, e.file), TITLE_SIZE), Fit(Reads(TextUi, e.location), PATH_SIZE), Fit(Reads(TextUi, e.thumbnail), PATH_SIZE))
  }

  lemma FavoriteLookups(e: Favorite)
    ensures var fs := FavoriteFields(e);
            && Lookup(fs, "system_id") == Some(Text(e.system)) && Lookup(fs, "relative_path") == Some(Text(e.path))
            && Lookup(fs, "title") == Some(Text(e.title)) && Lookup(fs, "file_name") == Some(Text(e.file))
            && Lookup(fs, "path") == Some(Text(e.location)) && Lookup(fs, "thumbnail") == Some(Text(e.thumbnail))
  {
    hide Lookup;
    var fs := FavoriteFields(e);
    LookupAt(fs, 0);
    LookupAt(fs, 1);
    LookupAt(fs, 2);
    LookupAt(fs, 3);
    LookupAt(fs, 4);
    LookupAt(fs, 5);
  }

  lemma ObjectReadsBack(e: Favorite)
    ensures FavoriteFields(e) != [] && EntryOf(Object(FavoriteFields(e))) == Image(e)
  {
    hide Object, GetOr, Reads, Fit, FavoriteFields, Lookup, Proper;
    var fs := FavoriteFields(e);
    FieldsAreProper(e);
    FavoriteLookups(e);
    ObjectGets(fs, "system_id", SYSTEM_SIZE);
    ObjectGets(fs, "relative_path", PATH_SIZE);
    ObjectGets(fs, "title", TITLE_SIZE);
    ObjectGets(fs, "file_name", TITLE_SIZE);
    ObjectGets(fs, "path", PATH_SIZE);
    ObjectGets(fs, "thumbnail", PATH_SIZE);
  }

  /** What the loader makes of the entries in order. */
  function Fold(es: seq<Favorite>, list: seq<Favorite>): seq<Favorite>
    decreases |es|
  {
    if es == [] then list else Fold(es[1..], Take(list, Image(es[0])))
  }

  lemma {:induction false} FoldIs(es: seq<Favorite>, list: seq<Favorite>)
    ensures Written(Objects(es)) && FoldWith(Objects(es), list, Accept) == Fold(es, list)
    decreases |es|
  {
    hide EntryOf, Object, Image, Take, FavoriteFields;
    ObjectsAreWritten(es);
    if es != [] {
      ObjectReadsBack(es[0]);
      assert Objects(es)[1..] == Objects(es[1..]);
      FoldIs(es[1..], Take(list, Image(es[0])));
    }
  }

  lemma KeyIsName()
    ensures IsName("favorites")
  {}

  /** Every saved file loads as the loader's fold over the entries as they read back. */
  lemma SavedReads(es: seq<Favorite>)
    requires |es| <= MAX_FAVORITES
    ensures Load(FileText(es)) == Some(Fold(es, []))
  {
    hide OneArray, Body, FindArray, LoadWith, FoldWith, Fold, Accept, Written, Objects, AddsOne, IsName;
    ObjectsAreWritten(es);
    AcceptAddsOne();
    KeyIsName();
    OneArrayRead("favorites", Objects(es), MAX_FAVORITES, Accept);
    FoldIs(es, []);
  }

  // ---------- when it is what was saved ----------

  predicate Fits(e: Favorite) {
    && |e.system| < SYSTEM_SIZE && |e.path| < PATH_SIZE && |e.title| < TITLE_SIZE && |e.file| < TITLE_SIZE
    && |e.location| < PATH_SIZE && |e.thumbnail| < PATH_SIZE
  }

  predicate AllClean(e: Favorite) {
    && Clean(TextUi, e.system) && Clean(TextUi, e.path) && Clean(TextUi, e.title) && Clean(TextUi, e.file)
    && Clean(TextUi, e.location) && Clean(TextUi, e.thumbnail)
  }

  /** A title, or nothing short enough to stand in for it. */
  predicate Titled(title: string, file: string, path: string) { title != "" || (file == "" && |path| >= TITLE_SIZE) }

  /** What the loader asks of an entry: no byte written as \u00xx, a valid system and path, and a title. */
  predicate Loadable(e: Favorite) {
    AllClean(e) && ValidSystem(e.system) && ValidPath(e.path) && Titled(e.title, e.file, e.path)
  }

  lemma ImageSame(e: Favorite)
    requires Fits(e)
    ensures Image(e) == e <==> AllClean(e)
    ensures Image(e).title == "" <==> e.title == ""
  {
    hide Fit, Reads, Clean;
    SurvivesIff(TextUi, e.system, SYSTEM_SIZE);
    SurvivesIff(TextUi, e.path, PATH_SIZE);
    SurvivesIff(TextUi, e.title, TITLE_SIZE);
    SurvivesIff(TextUi, e.file, TITLE_SIZE);
    SurvivesIff(TextUi, e.location, PATH_SIZE);
    SurvivesIff(TextUi, e.thumbnail, PATH_SIZE);
    ReadsNothing(e.title);
  }

  lemma ReadsNothing(v: string)
    ensures Fit(Reads(TextUi, v), TITLE_SIZE) == "" <==> v == ""
  {
    if v != "" { ReadsCharIs(TextUi, v[0]); }
  }

  lemma PathNotEmpty(path: string)
    ensures ValidPath(path) ==> path != ""
  {}

  /** One entry is taken unchanged exactly when it is loadable and its game is new. */
  lemma TakesIff(e: Favorite, list: seq<Favorite>)
    requires Fits(e)
    ensures Take(list, Image(e)) == list + [e] <==> Loadable(e) && NoTwin(list, e)
  {
    hide Image, ValidSystem, ValidPath, AllClean, NoTwin;
    ImageSame(e);
    PathNotEmpty(e.path);
    var i := Image(e);
    var x := i.(title := TitleOr(i.title, i.file, i.path));
    assert (list + [x])[|list|] == x && (list + [e])[|list|] == e && |list + [e]| == |list| + 1;
  }

  /** All loadable, and no two of one game. */
  predicate Storable(es: seq<Favorite>) {
    forall i | 0 <= i < |es| :: Loadable(es[i]) && NoTwin(es[..i], es[i])
  }

  lemma TakenAt(es: seq<Favorite>, i: nat)
    requires i < |es| && Fits(es[i])
    ensures Written(Objects(es)) && (Taken(es, Objects(es), [], Accept, i) <==> Loadable(es[i]) && NoTwin(es[..i], es[i]))
  {
    hide Written, Loadable, NoTwin, Take, Image, EntryOf, Object, FavoriteFields, Fits;
    ObjectsAreWritten(es);
    ObjectReadsBack(es[i]);
    TakesIff(es[i], es[..i]);
    assert [] + es[..i] == es[..i];
  }

  /** Load undoes save exactly when every entry is loadable and no game stands twice. */
  lemma RoundTripIff(es: seq<Favorite>)
    requires |es| <= MAX_FAVORITES && forall i | 0 <= i < |es| :: Fits(es[i])
    ensures Load(FileText(es)) == Some(es) <==> Storable(es)
  {
    hide Taken, AddsOne, Written, Accept, Load, FileText, Fold, FoldWith, Objects, Loadable, NoTwin, Fits;
    SavedReads(es);
    FoldIs(es, []);
    AcceptAddsOne();
    FoldIff(es, Objects(es), [], Accept);
    assert [] + es == es;
    forall i | 0 <= i < |es| ensures Taken(es, Objects(es), [], Accept, i) <==> Loadable(es[i]) && NoTwin(es[..i], es[i]) {
      TakenAt(es, i);
    }
  }

  /** The loader's path check also drops every path through a directory whose name ends in two dots, though it is no parent. */
  lemma DottedNameIsLost(es: seq<Favorite>, i: nat)
    requires |es| <= MAX_FAVORITES && (forall k | 0 <= k < |es| :: Fits(es[k])) && i < |es| && Holds(es[i].path, "../")
    ensures Load(FileText(es)) != Some(es)
  {
    hide Load, FileText, Fits;
    RoundTripIff(es);
    assert !Loadable(es[i]);
  }
}
