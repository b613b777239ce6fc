/** Exactly which states come back from their own file, for each of the four state files: told in characters and numbers, for every
    state there is, also one that no buffer could hold. */
module ComesBack {
  import opened Optional
  import opened Json
  import opened JsonText
  import opened TextUiList
  import opened TextUiChecks
  import opened LegalStrings
  import F = FavoriteFile
  import S = FavoriteState
  import Recents
  import R = RecentFile
  import C = CoreOverrideFile
  import CR = CoreOverrideRoundTrip
  import Decimals
  import O = Overrides
  import OF = OverrideFile
  import OR = OverrideRoundTrip

  /** Shorter than the buffer, and nothing in it is lost. */
  predicate Stored(s: string, size: nat) { |s| < size && NoneLost(s) }

  lemma StoredIff(s: string, size: nat)
    ensures Stored(s, size) <==> |s| < size && Clean(TextUi, s)
  {
    hide Clean, NoneLost;
    NoneLostIff(s);
  }

  // ---------- favorites ----------

  predicate FavoriteReturns(e: F.Favorite) {
    && SystemId(e.system) && |e.system| < 64
    && RomPath(e.path) && Stored(e.path, 1024)
    && Stored(e.title, 256) && (e.title != "" || (e.file == "" && |e.path| >= 256))
    && Stored(e.file, 256) && Stored(e.location, 1024) && Stored(e.thumbnail, 1024)
  }

  lemma FavoriteIff(e: F.Favorite)
    ensures FavoriteReturns(e) <==> F.Fits(e) && F.Loadable(e)
  {
    hide Clean, NoneLost, Stored, ValidSystem, ValidPath, SystemId, RomPath;
    SystemIff(e.system);
    PathIff(e.path);
    ValidIsClean(e.system);
    StoredIff(e.path, 1024);
    StoredIff(e.title, 256);
    StoredIff(e.file, 256);
    StoredIff(e.location, 1024);
    StoredIff(e.thumbnail, 1024);
  }

  predicate OneEach(es: seq<F.Favorite>) {
    forall i, j | 0 <= i < j < |es| :: es[i].system != es[j].system || es[i].path != es[j].path
  }

  lemma TwinsIff(es: seq<F.Favorite>)
    ensures OneEach(es) <==> forall i | 0 <= i < |es| :: F.NoTwin(es[..i], es[i])
  {
    if OneEach(es) {
      forall i | 0 <= i < |es| ensures F.NoTwin(es[..i], es[i]) {}
    }
    if forall i | 0 <= i < |es| :: F.NoTwin(es[..i], es[i]) {
      forall i, j | 0 <= i < j < |es| ensures es[i].system != es[j].system || es[i].path != es[j].path {
        assert F.NoTwin(es[..j], es[j]);
        assert es[..j][i] == es[i];
      }
    }
  }

  /** A list of favorites comes back exactly when it has at most 2048 entries, each storable, and no game twice. */
  lemma FavoritesIff(es: seq<F.Favorite>)
    ensures F.Load(F.FileText(es)) == Some(es)
       <==> |es| <= 2048 && (forall i | 0 <= i < |es| :: FavoriteReturns(es[i])) && OneEach(es)
  {
    hide F.Load, F.FileText, F.Fits, F.Loadable, FavoriteReturns, OneEach, F.NoTwin, S.Distinct;
    S.LoadedIsSound(F.FileText(es));
    forall i | 0 <= i < |es| ensures FavoriteReturns(es[i]) <==> F.Fits(es[i]) && F.Loadable(es[i]) { FavoriteIff(es[i]); }
    TwinsIff(es);
    if |es| <= 2048 && forall i | 0 <= i < |es| :: F.Fits(es[i]) {
      F.RoundTripIff(es);
    }
  }

  // ---------- recents ----------

  predicate RecentReturns(e: R.Recent) {
    && SystemId(e.system) && |e.system| < 64
    && RomPath(e.path) && Stored(e.path, 1024)
    && Stored(e.data.title, 256) && (e.data.title != "" || (e.data.file == "" && |e.path| >= 256))
    && Stored(e.data.file, 256) && Stored(e.data.location, 1024) && Stored(e.data.thumbnail, 1024)
    && e.data.profile != "" && Stored(e.data.profile, 128) && Stored(e.data.time, 64)
    && (e.data.resume == 0 || e.data.resume == 1)
  }

  lemma RecentIff(e: R.Recent)
    ensures RecentReturns(e) <==> R.Fits(e) && R.Loadable(e)
  {
    hide Clean, NoneLost, Stored, ValidSystem, ValidPath, SystemId, RomPath;
    SystemIff(e.system);
    PathIff(e.path);
    ValidIsClean(e.system);
    StoredIff(e.path, 1024);
    StoredIff(e.data.title, 256);
    StoredIff(e.data.file, 256);
    StoredIff(e.data.location, 1024);
    StoredIff(e.data.thumbnail, 1024);
    StoredIff(e.data.profile, 128);
    StoredIff(e.data.time, 64);
  }

  predicate OnePlayEach(es: seq<R.Recent>) {
    forall i, j | 0 <= i < j < |es| :: es[i].system != es[j].system || es[i].path != es[j].path
  }

  lemma GamesIff(es: seq<R.Recent>)
    ensures OnePlayEach(es) <==> forall i | 0 <= i < |es| :: Recents.NoGame(es[..i], es[i].Game())
  {
    if OnePlayEach(es) {
      forall i | 0 <= i < |es| ensures Recents.NoGame(es[..i], es[i].Game()) {
        forall k | 0 <= k < i ensures es[..i][k].Game() != es[i].Game() { assert es[..i][k] == es[k]; }
      }
    }
    if forall i | 0 <= i < |es| :: Recents.NoGame(es[..i], es[i].Game()) {
      forall i, j | 0 <= i < j < |es| ensures es[i].system != es[j].system || es[i].path != es[j].path {
        assert Recents.NoGame(es[..j], es[j].Game());
        assert es[..j][i].Game() != es[j].Game();
      }
    }
  }

  /** A list of recents comes back exactly when it has at most 256 entries, each storable, and no game twice. */
  lemma RecentsIff(es: seq<R.Recent>)
    ensures R.Load(R.FileText(es)) == Some(es)
       <==> |es| <= 256 && (forall i | 0 <= i < |es| :: RecentReturns(es[i])) && OnePlayEach(es)
  {
    hide R.Load, R.FileText, R.Fits, R.Loadable, RecentReturns, OnePlayEach, Recents.NoGame, Recents.Distinct;
    R.LoadedIsSound(R.FileText(es));
    forall i | 0 <= i < |es| ensures RecentReturns(es[i]) <==> R.Fits(es[i]) && R.Loadable(es[i]) { RecentIff(es[i]); }
    GamesIff(es);
    if |es| <= 256 && forall i | 0 <= i < |es| :: R.Fits(es[i]) {
      R.RoundTripIff(es);
    }
  }

  // ---------- core overrides ----------

  predicate SystemReturns(e: C.SystemOverride) {
    && SystemId(e.system) && |e.system| < 64
    && (e.profile == "" || (ProfileId(e.profile) && |e.profile| < 128))
    && (e.policy == "" || CpuPolicy(e.policy)) && e.frequency == 0
  }

  predicate RomReturns(e: C.RomOverride) {
    && SystemId(e.system) && |e.system| < 64
    && RomPath(e.path) && Stored(e.path, 1024)
    && (e.profile == "" || (ProfileId(e.profile) && |e.profile| < 128))
    && (e.policy == "" || CpuPolicy(e.policy)) && e.frequency == 0
    && (e.suffix == "" || (ContentSuffix(e.suffix) && |e.suffix| < 256))
    && (e.driver == "" || AudioDriver(e.driver)) && 0 <= e.latency <= 1000
    && (e.force60 == "" || TruthWord(e.force60))
    && (e.cycles == "" || (CycleCount(e.cycles) && Stored(e.cycles, 32)))
  }

  lemma SystemOverrideIff(e: C.SystemOverride)
    ensures SystemReturns(e) <==> CR.SystemFits(e) && CR.SystemLoadable(e)
  {
    hide ValidSystem, ValidProfile, ValidPolicy, SystemId, ProfileId;
    SystemIff(e.system);
    ProfileIff(e.profile);
    PolicyIff(e.policy);
    WordsAreShort(e.policy);
  }

  lemma WordsAreShort(s: string)
    ensures CpuPolicy(s) ==> |s| < 32
    ensures AudioDriver(s) || TruthWord(s) ==> |s| < 16
  {}

  lemma RomOverrideIff(e: C.RomOverride)
    ensures RomReturns(e) <==> CR.RomFits(e) && CR.RomLoadable(e)
  {
    hide ValidSystem, ValidProfile, ValidPolicy, ValidPath, ValidSuffix, ValidDriver, ValidTruth, ValidCycles,
         SystemId, ProfileId, CpuPolicy, RomPath, ContentSuffix, AudioDriver, TruthWord, CycleCount, Clean, Stored;
    SystemIff(e.system);
    ProfileIff(e.profile);
    PolicyIff(e.policy);
    PathIff(e.path);
    SuffixIff(e.suffix);
    DriverIff(e.driver);
    TruthIff(e.force60);
    CyclesIff(e.cycles);
    WordsAreShort(e.policy);
    WordsAreShort(e.driver);
    WordsAreShort(e.force60);
    StoredIff(e.path, 1024);
    StoredIff(e.cycles, 32);
    CR.EmptyIsClean();
  }

  lemma LoadedOverridesFit(t: string)
    ensures CR.Fits(CR.Load(t))
  {
    hide CR.AcceptSystem, CR.AcceptRom, CR.SystemFits, CR.RomFits, LoadWith, FindArray, AddsOnly, AddsOne;
    CR.AcceptsAddOne();
    SystemsFit();
    RomsFit();
    ArrayInside(t, "system_overrides");
    ArrayInside(t, "rom_overrides");
    if FindArray(t, "system_overrides").Some? {
      var (s, e) := FindArray(t, "system_overrides").value;
      LoadsOnly(t, s, e, [], C.MAX_SYSTEMS, CR.AcceptSystem, CR.SystemFits);
    }
    if FindArray(t, "rom_overrides").Some? {
      var (s, e) := FindArray(t, "rom_overrides").value;
      LoadsOnly(t, s, e, [], C.MAX_ROMS, CR.AcceptRom, CR.RomFits);
    }
  }

  lemma SystemsFit()
    ensures AddsOnly(CR.AcceptSystem, CR.SystemFits)
  {
    hide GetOr, ValidSystem, ValidProfile, ValidPolicy;
    forall l: seq<C.SystemOverride>, s: string, e | e in CR.AcceptSystem(l, s) ensures e in l || CR.SystemFits(e) {
      GetOrFits(s, "system_id", C.SYSTEM_SIZE);
      GetOrFits(s, "launch_profile", C.PROFILE_SIZE);
      GetOrFits(s, "cpu_policy", C.POLICY_SIZE);
    }
  }

  lemma RomsFit()
    ensures AddsOnly(CR.AcceptRom, CR.RomFits)
  {
    hide CR.RomOf, CR.Amended, CR.RomFits, ValidSystem, ValidProfile, ValidPolicy, ValidPath;
    forall l: seq<C.RomOverride>, s: string, e | e in CR.AcceptRom(l, s) ensures e in l || CR.RomFits(e) {
      RomFits(s);
    }
  }

  lemma RomFits(s: string)
    ensures CR.RomFits(CR.Amended(CR.RomOf(s)))
  {
    hide GetOr, Decimals.GetLong, ValidSuffix, ValidDriver, ValidTruth, ValidCycles;
    GetOrFits(s, "system_id", C.SYSTEM_SIZE);
    GetOrFits(s, "relative_path", C.PATH_SIZE);
    GetOrFits(s, "launch_profile", C.PROFILE_SIZE);
    GetOrFits(s, "cpu_policy", C.POLICY_SIZE);
    GetOrFits(s, "content_suffix", C.SUFFIX_SIZE);
    GetOrFits(s, "audio_driver", C.DRIVER_SIZE);
    GetOrFits(s, "dosbox_pure_force60fps", C.TRUTH_SIZE);
    GetOrFits(s, "dosbox_pure_cycles", C.CYCLES_SIZE);
  }

  /** The core overrides come back exactly when they are at most 256 for systems and 1024 for ROMs, each storable. */
  lemma CoreOverridesIff(o: C.CoreOverrides)
    ensures CR.Load(C.FileText(o)) == o
       <==> |o.systems| <= 256 && |o.roms| <= 1024 && (forall e | e in o.systems :: SystemReturns(e)) && (forall e | e in o.roms :: RomReturns(e))
  {
    hide CR.Load, C.FileText, CR.SystemFits, CR.RomFits, CR.SystemLoadable, CR.RomLoadable, SystemReturns, RomReturns;
    LoadedOverridesFit(C.FileText(o));
    forall e | e in o.systems ensures SystemReturns(e) <==> CR.SystemFits(e) && CR.SystemLoadable(e) { SystemOverrideIff(e); }
    forall e | e in o.roms ensures RomReturns(e) <==> CR.RomFits(e) && CR.RomLoadable(e) { RomOverrideIff(e); }
    if CR.Fits(o) {
      CR.RoundTripIff(o);
    }
  }

  // ---------- overrides of the cartridge view ----------

  /** No control character at all. */
  predicate Uncontrolled(s: string) { forall c | c in s :: c as int >= 32 }

  lemma UncontrolledIff(s: string)
    ensures Clean(Ggfe, s) <==> Uncontrolled(s)
  {
    forall c ensures Lost(Ggfe, c) <==> c as int < 32 {}
  }

  predicate OverrideReturns(r: O.Rom) {
    |r.path| < 4096 && Uncontrolled(r.path) && r.profile != "" && |r.profile| < 128 && Uncontrolled(r.profile)
  }

  lemma StringFits(t: string, o: nat, e: nat, key: string, size: nat)
    requires e <= |t| && size > 0
    ensures GetString(t, o, e, key, size).Some? ==> |GetString(t, o, e, key, size).value| < size
  {
    hide Find, DecodeRaw;
  }

  lemma {:induction false} LoadedSystemFits(t: string, p: nat, end: nat, id: string, kept: Option<string>)
    requires p <= end <= |t| && (kept.Some? ==> |kept.value| < O.PROFILE_SIZE)
    ensures var r := OF.LoadSystem(t, p, end, id, kept); r.Some? ==> |r.value| < O.PROFILE_SIZE
    decreases end - p
  {
    hide NextObject, GetString, OF.Clears;
    if NextObject(t, p, end).Some? {
      var (o, e) := NextObject(t, p, end).value;
      NextAdvances(t, p, end);
      StringFits(t, o, e, "launch_profile", O.PROFILE_SIZE);
      LoadedSystemFits(t, e, end, id, OF.KeptAfter(t, o, e, id, kept));
    }
  }

  predicate RomsFitting(roms: seq<O.Rom>) {
    |roms| <= O.MAX_ROMS && forall r | r in roms :: |r.path| < O.PATH_SIZE && |r.profile| < O.PROFILE_SIZE
  }

  lemma {:induction false} LoadedRomsFit(t: string, p: nat, end: nat, id: string, roms: seq<O.Rom>)
    requires p <= end <= |t| && RomsFitting(roms)
    ensures RomsFitting(OF.LoadRoms(t, p, end, id, roms))
    decreases end - p
  {
    hide NextObject, GetString;
    if |roms| < O.MAX_ROMS && NextObject(t, p, end).Some? {
      var (o, e) := NextObject(t, p, end).value;
      NextAdvances(t, p, end);
      StringFits(t, o, e, "relative_path", O.PATH_SIZE);
      StringFits(t, o, e, "launch_profile", O.PROFILE_SIZE);
      LoadedRomsFit(t, e, end, id, OF.Add(roms, OF.RomAt(t, o, e, id)));
    }
  }

  lemma LoadedFits(t: string, id: string)
    ensures OR.Fits(OF.Load(t, id))
  {
    hide FindArray, OF.LoadSystem, OF.LoadRoms;
    ArrayInside(t, "system_overrides");
    ArrayInside(t, "rom_overrides");
    if FindArray(t, "system_overrides").Some? {
      var (s, e) := FindArray(t, "system_overrides").value;
      LoadedSystemFits(t, s, e, id, None);
    }
    if FindArray(t, "rom_overrides").Some? {
      var (s, e) := FindArray(t, "rom_overrides").value;
      LoadedRomsFit(t, s, e, id, []);
    }
  }

  /** A system's overrides come back exactly when the file is at most a mebibyte and holds at most 256 ROMs, each storable, a system
      profile that is storable if there is one, and, if there is anything at all, an id that is. */
  lemma OverridesIff(id: string, o: O.Overrides)
    ensures OF.Load(O.FileText(id, o), id) == o
       <==> && |O.FileText(id, o)| <= 1048576 && |o.roms| <= 256 && (forall i | 0 <= i < |o.roms| :: OverrideReturns(o.roms[i]))
            && (o.system.Some? ==> o.system.value != "" && |o.system.value| < 128 && Uncontrolled(o.system.value))
            && (o.system.Some? || o.roms != [] ==> |id| < 64 && Uncontrolled(id))
  {
    hide OF.Load, O.FileText, Clean, Uncontrolled;
    LoadedFits(O.FileText(id, o), id);
    UncontrolledIff(id);
    if o.system.Some? { UncontrolledIff(o.system.value); }
    forall i | 0 <= i < |o.roms|
      ensures OverrideReturns(o.roms[i]) <==> |o.roms[i].path| < O.PATH_SIZE && |o.roms[i].profile| < O.PROFILE_SIZE && o.roms[i].profile != ""
                                              && Clean(Ggfe, o.roms[i].profile) && Clean(Ggfe, o.roms[i].path)
    {
      UncontrolledIff(o.roms[i].path);
      UncontrolledIff(o.roms[i].profile);
    }
    if OR.Fits(o) {
      OR.RoundTripIff(id, o);
    }
  }
}
