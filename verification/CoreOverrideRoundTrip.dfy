/** Loading a saved core override file: the exact result, and exactly when it is what was saved. */
module CoreOverrideRoundTrip {
  import opened Optional
  import opened Json
  import opened JsonText
  import opened JsonObject
  import opened TextUiList
  import opened TextUiChecks
  import opened Decimals
  import opened CoreOverrideFile

  // ---------- loading ----------

  predicate OrEmpty(s: string, valid: bool) { s == "" || valid }

  /** The frequency is read and then always dropped. */
  function SystemOf(text: string): SystemOverride {
    SystemOverride(GetOr(text, "system_id", SYSTEM_SIZE), GetOr(text, "launch_profile", PROFILE_SIZE),
                   GetOr(text, "cpu_policy", POLICY_SIZE), 0)
  }

  function TakeSystem(list: seq<SystemOverride>, e: SystemOverride): seq<SystemOverride> {
    if ValidSystem(e.system) && OrEmpty(e.profile, ValidProfile(e.profile)) && OrEmpty(e.policy, ValidPolicy(e.policy))
    then list + [e] else list
  }

  function AcceptSystem(list: seq<SystemOverride>, text: string): seq<SystemOverride> { TakeSystem(list, SystemOf(text)) }

  function RomOf(text: string): RomOverride {
    RomOverride(GetOr(text, "system_id", SYSTEM_SIZE), GetOr(text, "relative_path", PATH_SIZE),
                GetOr(text, "launch_profile", PROFILE_SIZE), GetOr(text, "cpu_policy", POLICY_SIZE), 0,
                GetOr(text, "content_suffix", SUFFIX_SIZE), GetOr(text, "audio_driver", DRIVER_SIZE),
                GetLong(text, 0, |text|, "audio_latency_ms", 0), GetOr(text, "dosbox_pure_force60fps", TRUTH_SIZE),
                GetOr(text, "dosbox_pure_cycles", CYCLES_SIZE))
  }

  function Kept(s: string, valid: bool): string { if valid then s else "" }

  /** Options that are not valid are blanked. */
  function Amended(e: RomOverride): RomOverride {
    e.(suffix := Kept(e.suffix, ValidSuffix(e.suffix)), driver := Kept(e.driver, ValidDriver(e.driver)),
       latency := if 0 < e.latency <= 1000 then e.latency else 0,
       force60 := Kept(e.force60, ValidTruth(e.force60)), cycles := Kept(e.cycles, ValidCycles(e.cycles)))
  }

  function TakeRom(list: seq<RomOverride>, e: RomOverride): seq<RomOverride> {
    if ValidSystem(e.system) && ValidPath(e.path) && OrEmpty(e.profile, ValidProfile(e.profile)) && OrEmpty(e.policy, ValidPolicy(e.policy))
    then list + [Amended(e)] else list
  }

  function AcceptRom(list: seq<RomOverride>, text: string): seq<RomOverride> { TakeRom(list, RomOf(text)) }

  function LoadArray<E>(t: string, key: string, max: nat, accept: (seq<E>, string) -> seq<E>): seq<E> {
    match FindArray(t, key)
    case None => []
    case Some((s, e)) => LoadWith(t, s, e, [], max, accept)
  }

  function Load(t: string): CoreOverrides {
    CoreOverrides(LoadArray(t, "system_overrides", MAX_SYSTEMS, AcceptSystem), LoadArray(t, "rom_overrides", MAX_ROMS, AcceptRom))
  }

  lemma AcceptsAddOne()
    ensures AddsOne(AcceptSystem) && AddsOne(AcceptRom)
  {
    hide SystemOf, RomOf, Amended;
  }

  // ---------- what comes back ----------

  function SystemImage(e: SystemOverride): SystemOverride {
    SystemOverride(Fit(Reads(TextUi, e.system), SYSTEM_SIZE), Fit(Reads(TextUi, e.profile), PROFILE_SIZE),
                   Fit(Reads(TextUi, e.policy), POLICY_SIZE), 0)
  }

  function RomImage(e: RomOverride): RomOverride {
    RomOverride(Fit(Reads(TextUi, e.system), SYSTEM_SIZE), Fit(Reads(TextUi, e.path), PATH_SIZE),
                Fit(Reads(TextUi, e.profile), PROFILE_SIZE), Fit(Reads(TextUi, e.policy), POLICY_SIZE), 0,
                Fit(Reads(TextUi, e.suffix), SUFFIX_SIZE), Fit(Reads(TextUi, e.driver), DRIVER_SIZE),
                if e.latency > 0 then e.latency else 0, Fit(Reads(TextUi, e.force60), TRUTH_SIZE),
                Fit(Reads(TextUi, e.cycles), CYCLES_SIZE))
  }

  /** A string that is absent when empty reads back either way. */
  lemma OptShown(v: string, size: nat)
    requires size > 0
    ensures Shown(Opt(v), size) == Fit(Reads(TextUi, v), size) && Shown(Some(Text(v)), size) == Fit(Reads(TextUi, v), size)
  {}

  lemma SystemReadsBack(e: SystemOverride)
    ensures SystemFields(e) != [] && SystemOf(Object(SystemFields(e))) == SystemImage(e)
  {
    hide Object, GetOr, Reads, Fit, SystemFields, Lookup, Proper, IsName, Opt, Shown;
    var fs := SystemFields(e);
    SystemProper(e);
    Names();
    SystemLookup(e, "system_id");
    SystemLookup(e, "launch_profile");
    SystemLookup(e, "cpu_policy");
    ObjectGets(fs, "system_id", SYSTEM_SIZE);
    ObjectGets(fs, "launch_profile", PROFILE_SIZE);
    ObjectGets(fs, "cpu_policy", POLICY_SIZE);
    OptShown(e.system, SYSTEM_SIZE);
    OptShown(e.profile, PROFILE_SIZE);
    OptShown(e.policy, POLICY_SIZE);
  }

  /** A number that is absent when not positive reads back as itself or as 0. */
  lemma ObjectNumber(fs: Fields, key: string, n: int)
    requires fs != [] && Proper(fs) && IsName(key) && Lookup(fs, key) == OptNumber(n)
    ensures GetLong(Object(fs), 0, |Object(fs)|, key, 0) == if n > 0 then n else 0
  {
    hide ObjectText, Find, Lookup, IsName, Proper, NumberAt, Decimal;
    var t := Object(fs);
    WholeText(t);
    ObjectFound(TextUi, t, 0, fs, key);
    if n > 0 {
      DecimalReads(t, Find(t, 0, |t|, key).value, n);
    }
  }

  lemma RomStrings(e: RomOverride)
    ensures var fs := RomFields(e);
            && Lookup(fs, "system_id") == Some(Text(e.system)) && Lookup(fs, "relative_path") == Some(Text(e.path))
            && Lookup(fs, "launch_profile") == Opt(e.profile) && Lookup(fs, "cpu_policy") == Opt(e.policy)
  {
    hide Lookup, RomFields, Opt, OptNumber;
    RomLookup(e, "system_id");
    RomLookup(e, "relative_path");
    RomLookup(e, "launch_profile");
    RomLookup(e, "cpu_policy");
  }

  lemma RomOptions(e: RomOverride)
    ensures var fs := RomFields(e);
            && Lookup(fs, "content_suffix") == Opt(e.suffix) && Lookup(fs, "audio_driver") == Opt(e.driver)
            && Lookup(fs, "audio_latency_ms") == OptNumber(e.latency)
            && Lookup(fs, "dosbox_pure_force60fps") == Opt(e.force60) && Lookup(fs, "dosbox_pure_cycles") == Opt(e.cycles)
  {
    hide Lookup, RomFields, Opt, OptNumber;
    RomLookup(e, "content_suffix");
    RomLookup(e, "audio_driver");
    RomLookup(e, "audio_latency_ms");
    RomLookup(e, "dosbox_pure_force60fps");
    RomLookup(e, "dosbox_pure_cycles");
  }

  lemma RomReadsBack(e: RomOverride)
    ensures RomFields(e) != [] && RomOf(Object(RomFields(e))) == RomImage(e)
  {
    hide Object, GetOr, GetLong, Reads, Fit, RomFields, Lookup, Proper, IsName, Opt, OptNumber, Shown;
    var fs := RomFields(e);
    RomProper(e);
    Names();
    RomStrings(e);
    RomOptions(e);
    ObjectGets(fs, "system_id", SYSTEM_SIZE);
    ObjectGets(fs, "relative_path", PATH_SIZE);
    ObjectGets(fs, "launch_profile", PROFILE_SIZE);
    ObjectGets(fs, "cpu_policy", POLICY_SIZE);
    ObjectGets(fs, "content_suffix", SUFFIX_SIZE);
    ObjectGets(fs, "audio_driver", DRIVER_SIZE);
    ObjectNumber(fs, "audio_latency_ms", e.latency);
    ObjectGets(fs, "dosbox_pure_force60fps", TRUTH_SIZE);
    ObjectGets(fs, "dosbox_pure_cycles", CYCLES_SIZE);
    OptShown(e.system, SYSTEM_SIZE);
    OptShown(e.path, PATH_SIZE);
    OptShown(e.profile, PROFILE_SIZE);
    OptShown(e.policy, POLICY_SIZE);
    OptShown(e.suffix, SUFFIX_SIZE);
    OptShown(e.driver, DRIVER_SIZE);
    OptShown(e.force60, TRUTH_SIZE);
    OptShown(e.cycles, CYCLES_SIZE);
  }

  function FoldSystems(es: seq<SystemOverride>, list: seq<SystemOverride>): seq<SystemOverride>
    decreases |es|
  {
    if es == [] then list else FoldSystems(es[1..], TakeSystem(list, SystemImage(es[0])))
  }

  function FoldRoms(es: seq<RomOverride>, list: seq<RomOverride>): seq<RomOverride>
    decreases |es|
  {
    if es == [] then list else FoldRoms(es[1..], TakeRom(list, RomImage(es[0])))
  }

  lemma {:induction false} SystemsFold(es: seq<SystemOverride>, list: seq<SystemOverride>)
    ensures Written(SystemObjects(es)) && FoldWith(SystemObjects(es), list, AcceptSystem) == FoldSystems(es, list)
    decreases |es|
  {
    hide SystemOf, Object, SystemImage, TakeSystem, SystemFields;
    SystemsAreWritten(es);
    if es != [] {
      SystemReadsBack(es[0]);
      assert SystemObjects(es)[1..] == SystemObjects(es[1..]);
      SystemsFold(es[1..], TakeSystem(list, SystemImage(es[0])));
    }
  }

  lemma {:induction false} RomsFold(es: seq<RomOverride>, list: seq<RomOverride>)
    ensures Written(RomObjects(es)) && FoldWith(RomObjects(es), list, AcceptRom) == FoldRoms(es, list)
    decreases |es|
  {
    hide RomOf, Object, RomImage, TakeRom, RomFields;
    RomsAreWritten(es);
    if es != [] {
      RomReadsBack(es[0]);
      assert RomObjects(es)[1..] == RomObjects(es[1..]);
      RomsFold(es[1..], TakeRom(list, RomImage(es[0])));
    }
  }

  lemma SystemsUnnamed(es: seq<SystemOverride>)
    ensures Unnamed(SystemObjects(es), "rom_overrides")
  {
    hide SystemFields, Lookup, Opt;
    forall i | 0 <= i < |es| ensures Lookup(SystemObjects(es)[i], "rom_overrides") == None {
      SystemLookup(es[i], "rom_overrides");
    }
  }

  /** Every saved file loads as the two loaders' folds over the entries as they read back. */
  lemma SavedReads(o: CoreOverrides)
    requires |o.systems| <= MAX_SYSTEMS && |o.roms| <= MAX_ROMS
    ensures Load(FileText(o)) == CoreOverrides(FoldSystems(o.systems, []), FoldRoms(o.roms, []))
  {
    hide TwoArrays, Body, FindArray, LoadWith, FoldWith, FoldSystems, FoldRoms, AcceptSystem, AcceptRom, Written, SystemObjects, RomObjects,
         AddsOne, IsName, Unnamed;
    SystemsAreWritten(o.systems);
    RomsAreWritten(o.roms);
    AcceptsAddOne();
    Names();
    SystemsUnnamed(o.systems);
    FirstArrayRead("system_overrides", SystemObjects(o.systems), "rom_overrides", RomObjects(o.roms), MAX_SYSTEMS, AcceptSystem);
    SecondArrayRead("system_overrides", SystemObjects(o.systems), "rom_overrides", RomObjects(o.roms), MAX_ROMS, AcceptRom);
    SystemsFold(o.systems, []);
    RomsFold(o.roms, []);
  }

  // ---------- when it is what was saved ----------

  predicate SystemFits(e: SystemOverride) { |e.system| < SYSTEM_SIZE && |e.profile| < PROFILE_SIZE && |e.policy| < POLICY_SIZE }

  predicate RomFits(e: RomOverride) {
    && |e.system| < SYSTEM_SIZE && |e.path| < PATH_SIZE && |e.profile| < PROFILE_SIZE && |e.policy| < POLICY_SIZE
    && |e.suffix| < SUFFIX_SIZE && |e.driver| < DRIVER_SIZE && |e.force60| < TRUTH_SIZE && |e.cycles| < CYCLES_SIZE
  }

  /** A valid id, valid or no profile and policy, and no frequency. */
  predicate SystemLoadable(e: SystemOverride) {
    && ValidSystem(e.system) && OrEmpty(e.profile, ValidProfile(e.profile)) && OrEmpty(e.policy, ValidPolicy(e.policy))
    && e.frequency == 0
  }

  /** The same, a valid path, valid or no options, a latency in its range, and no byte written as \u00xx in the two fields that could hold one. */
  predicate RomLoadable(e: RomOverride) {
    && ValidSystem(e.system) && ValidPath(e.path) && OrEmpty(e.profile, ValidProfile(e.profile)) && OrEmpty(e.policy, ValidPolicy(e.policy))
    && e.frequency == 0 && OrEmpty(e.suffix, ValidSuffix(e.suffix)) && OrEmpty(e.driver, ValidDriver(e.driver)) && 0 <= e.latency <= 1000
    && OrEmpty(e.force60, ValidTruth(e.force60)) && OrEmpty(e.cycles, ValidCycles(e.cycles))
    && Clean(TextUi, e.path) && Clean(TextUi, e.cycles)
  }

  lemma EmptyIsClean()
    ensures Clean(TextUi, "")
  {}

  lemma SystemTakenIff(e: SystemOverride, list: seq<SystemOverride>)
    requires SystemFits(e)
    ensures TakeSystem(list, SystemImage(e)) == list + [e] <==> SystemLoadable(e)
  {
    hide ValidSystem, ValidProfile, ValidPolicy, Clean, Fit, Reads;
    var i := SystemImage(e);
    SurvivesIff(TextUi, e.system, SYSTEM_SIZE);
    SurvivesIff(TextUi, e.profile, PROFILE_SIZE);
    SurvivesIff(TextUi, e.policy, POLICY_SIZE);
    ValidIsClean(e.system);
    ValidIsClean(e.profile);
    ValidIsClean(e.policy);
    EmptyIsClean();
    assert (list + [i])[|list|] == i && (list + [e])[|list|] == e && |list + [e]| == |list| + 1;
  }

  /** A field blanked unless valid is unchanged exactly when it was empty or valid. */
  lemma KeptIff(v: string, size: nat, valid: string -> bool)
    requires |v| < size && (valid(v) ==> Clean(TextUi, v) || v == "")
    ensures var r := Fit(Reads(TextUi, v), size); Kept(r, valid(r)) == v <==> OrEmpty(v, valid(v))
  {
    hide Clean, Fit, Reads;
    SurvivesIff(TextUi, v, size);
    EmptyIsClean();
  }

  lemma RomTakenIff(e: RomOverride, list: seq<RomOverride>)
    requires RomFits(e)
    ensures TakeRom(list, RomImage(e)) == list + [e] <==> RomLoadable(e)
  {
    hide ValidSystem, ValidPath, ValidProfile, ValidPolicy, ValidSuffix, ValidDriver, ValidTruth, ValidCycles, Clean, Fit, Reads;
    var i := RomImage(e);
    var x := Amended(i);
    SurvivesIff(TextUi, e.system, SYSTEM_SIZE);
    SurvivesIff(TextUi, e.path, PATH_SIZE);
    SurvivesIff(TextUi, e.profile, PROFILE_SIZE);
    SurvivesIff(TextUi, e.policy, POLICY_SIZE);
    SurvivesIff(TextUi, e.cycles, CYCLES_SIZE);
    ValidIsClean(e.system);
    ValidIsClean(e.profile);
    ValidIsClean(e.policy);
    ValidIsClean(e.suffix);
    ValidIsClean(e.driver);
    ValidIsClean(e.force60);
    EmptyIsClean();
    KeptIff(e.suffix, SUFFIX_SIZE, ValidSuffix);
    KeptIff(e.driver, DRIVER_SIZE, ValidDriver);
    KeptIff(e.force60, TRUTH_SIZE, ValidTruth);
    assert (list + [x])[|list|] == x && (list + [e])[|list|] == e && |list + [e]| == |list| + 1;
  }

  lemma SystemTakenAt(es: seq<SystemOverride>, i: nat)
    requires i < |es| && SystemFits(es[i])
    ensures Written(SystemObjects(es)) && (Taken(es, SystemObjects(es), [], AcceptSystem, i) <==> SystemLoadable(es[i]))
  {
    hide Written, SystemFits, SystemLoadable, TakeSystem, SystemImage, SystemOf, Object, SystemFields;
    SystemsAreWritten(es);
    SystemReadsBack(es[i]);
    SystemTakenIff(es[i], [] + es[..i]);
  }

  lemma SystemsReturnIff(es: seq<SystemOverride>)
    requires forall i | 0 <= i < |es| :: SystemFits(es[i])
    ensures FoldSystems(es, []) == es <==> forall i | 0 <= i < |es| :: SystemLoadable(es[i])
  {
    hide Taken, AddsOne, Written, AcceptSystem, FoldSystems, FoldWith, SystemObjects, SystemLoadable, SystemFits;
    SystemsFold(es, []);
    AcceptsAddOne();
    FoldIff(es, SystemObjects(es), [], AcceptSystem);
    assert [] + es == es;
    forall i | 0 <= i < |es| ensures Taken(es, SystemObjects(es), [], AcceptSystem, i) <==> SystemLoadable(es[i]) {
      SystemTakenAt(es, i);
    }
  }

  lemma RomTakenAt(es: seq<RomOverride>, i: nat)
    requires i < |es| && RomFits(es[i])
    ensures Written(RomObjects(es)) && (Taken(es, RomObjects(es), [], AcceptRom, i) <==> RomLoadable(es[i]))
  {
    hide Written, RomFits, RomLoadable, TakeRom, RomImage, RomOf, Object, RomFields;
    RomsAreWritten(es);
    RomReadsBack(es[i]);
    RomTakenIff(es[i], [] + es[..i]);
  }

  lemma RomsReturnIff(es: seq<RomOverride>)
    requires forall i | 0 <= i < |es| :: RomFits(es[i])
    ensures FoldRoms(es, []) == es <==> forall i | 0 <= i < |es| :: RomLoadable(es[i])
  {
    hide Taken, AddsOne, Written, AcceptRom, FoldRoms, FoldWith, RomObjects, RomLoadable, RomFits;
    RomsFold(es, []);
    AcceptsAddOne();
    FoldIff(es, RomObjects(es), [], AcceptRom);
    assert [] + es == es;
    forall i | 0 <= i < |es| ensures Taken(es, RomObjects(es), [], AcceptRom, i) <==> RomLoadable(es[i]) {
      RomTakenAt(es, i);
    }
  }

  predicate Fits(o: CoreOverrides) {
    && |o.systems| <= MAX_SYSTEMS && |o.roms| <= MAX_ROMS
    && (forall e | e in o.systems :: SystemFits(e))
    && (forall e | e in o.roms :: RomFits(e))
  }

  predicate Storable(o: CoreOverrides) {
    && (forall e | e in o.systems :: SystemLoadable(e))
    && (forall e | e in o.roms :: RomLoadable(e))
  }

  /** Load undoes save exactly when every entry of both arrays is loadable. */
  lemma RoundTripIff(o: CoreOverrides)
    requires Fits(o)
    ensures Load(FileText(o)) == o <==> Storable(o)
  {
    hide Load, FileText, FoldSystems, FoldRoms, SystemLoadable, RomLoadable, SystemFits, RomFits;
    SavedReads(o);
    SystemsReturnIff(o.systems);
    RomsReturnIff(o.roms);
  }

  /** A state that holds a frequency anywhere never comes back. */
  lemma FrequencyIsLost(o: CoreOverrides)
    requires Fits(o)
    requires (exists e :: e in o.systems && e.frequency != 0) || (exists e :: e in o.roms && e.frequency != 0)
    ensures Load(FileText(o)) != o
  {
    hide Load, FileText;
    RoundTripIff(o);
  }
}
