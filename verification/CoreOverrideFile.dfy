/** The core override file of the text UI: optional fields, numbers, and a loader that amends what it reads. */
module CoreOverrideFile {
  import opened Optional
  import opened Json
  import opened JsonText
  import opened JsonObject
  import opened TextUiList
  import opened TextUiChecks
  import opened Decimals

  const MAX_SYSTEMS: nat := 256
  const MAX_ROMS: nat := 1024
  const SYSTEM_SIZE: nat := 64
  const PATH_SIZE: nat := 1024
  const PROFILE_SIZE: nat := 128
  const POLICY_SIZE: nat := 32
  const SUFFIX_SIZE: nat := 256
  const DRIVER_SIZE: nat := 16
  const TRUTH_SIZE: nat := 16
  const CYCLES_SIZE: nat := 32

  datatype SystemOverride = SystemOverride(system: string, profile: string, policy: string, frequency: int)

  datatype RomOverride = RomOverride(system: string, path: string, profile: string, policy: string, frequency: int,
                                     suffix: string, driver: string, latency: int, force60: string, cycles: string)

  datatype CoreOverrides = CoreOverrides(systems: seq<SystemOverride>, roms: seq<RomOverride>)

  // ---------- the text ----------

  /** A number that is written only when it is positive. */
  function Positive(key: string, n: int): Fields { if n > 0 then [(key, Plain(Decimal(n)))] else [] }

  /** The frequency is written only beside a policy. */
  function PolicyFields(policy: string, frequency: int): Fields {
    Choice("cpu_policy", policy) + (if policy == "" then [] else Positive("cpu_freq_khz", frequency))
  }

  function SystemFields(e: SystemOverride): Fields {
    [("system_id", Text(e.system))] + Choice("launch_profile", e.profile) + PolicyFields(e.policy, e.frequency)
  }

  function RomFields(e: RomOverride): Fields {
    [("system_id", Text(e.system)), ("relative_path", Text(e.path))] + Choice("launch_profile", e.profile)
    + PolicyFields(e.policy, e.frequency) + Choice("content_suffix", e.suffix) + Choice("audio_driver", e.driver)
    + Positive("audio_latency_ms", e.latency) + Choice("dosbox_pure_force60fps", e.force60) + Choice("dosbox_pure_cycles", e.cycles)
  }

  function SystemObjects(es: seq<SystemOverride>): (objs: seq<Fields>)
    ensures |objs| == |es| && forall i | 0 <= i < |es| :: objs[i] == SystemFields(es[i])
  {
    seq(|es|, i requires 0 <= i < |es| => SystemFields(es[i]))
  }

  function RomObjects(es: seq<RomOverride>): (objs: seq<Fields>)
    ensures |objs| == |es| && forall i | 0 <= i < |es| :: objs[i] == RomFields(es[i])
  {
    seq(|es|, i requires 0 <= i < |es| => RomFields(es[i]))
  }

  function FileText(o: CoreOverrides): string {
    SystemsAreWritten(o.systems);
    RomsAreWritten(o.roms);
    TwoArrays("system_overrides", SystemObjects(o.systems), "rom_overrides", RomObjects(o.roms))
  }

  // ---------- names ----------

  lemma EarlyNames()
    ensures IsName("system_id") && IsName("relative_path") && IsName("launch_profile") && IsName("cpu_policy")
    ensures IsName("system_overrides") && IsName("rom_overrides")
  {}

  lemma LateNames()
    ensures IsName("cpu_freq_khz") && IsName("content_suffix") && IsName("audio_driver") && IsName("audio_latency_ms")
  {}

  lemma DosboxNames()
    ensures IsName("dosbox_pure_force60fps") && IsName("dosbox_pure_cycles")
  {}

  lemma Names()
    ensures IsName("system_id") && IsName("relative_path") && IsName("launch_profile") && IsName("cpu_policy")
    ensures IsName("system_overrides") && IsName("rom_overrides")
    ensures IsName("cpu_freq_khz") && IsName("content_suffix") && IsName("audio_driver") && IsName("audio_latency_ms")
    ensures IsName("dosbox_pure_force60fps") && IsName("dosbox_pure_cycles")
  {
    EarlyNames();
    LateNames();
    DosboxNames();
  }

  lemma ProperAppend(a: Fields, b: Fields)
    requires Proper(a) && Proper(b)
    ensures Proper(a + b)
  {}

  lemma ChoiceProper(key: string, v: string)
    requires IsName(key)
    ensures Proper(Choice(key, v))
  {}

  lemma PositiveProper(key: string, n: int)
    requires IsName(key)
    ensures Proper(Positive(key, n))
  {
    if n > 0 { DecimalIs(n); }
  }

  lemma PolicyProper(policy: string, frequency: int)
    ensures Proper(PolicyFields(policy, frequency))
  {
    hide IsName, Proper, Choice, Positive;
    Names();
    ChoiceProper("cpu_policy", policy);
    PositiveProper("cpu_freq_khz", frequency);
    if policy != "" {
      ProperAppend(Choice("cpu_policy", policy), Positive("cpu_freq_khz", frequency));
    } else {
      assert Choice("cpu_policy", policy) + [] == Choice("cpu_policy", policy);
    }
  }

  lemma SystemProper(e: SystemOverride)
    ensures Proper(SystemFields(e)) && SystemFields(e) != []
  {
    hide IsName, Choice, PolicyFields;
    Names();
    ChoiceProper("launch_profile", e.profile);
    PolicyProper(e.policy, e.frequency);
    var a: Fields := [("system_id", Text(e.system))];
    ProperAppend(a, Choice("launch_profile", e.profile));
    ProperAppend(a + Choice("launch_profile", e.profile), PolicyFields(e.policy, e.frequency));
  }

  lemma RomProper(e: RomOverride)
    ensures Proper(RomFields(e)) && RomFields(e) != []
  {
    hide IsName, Choice, Positive, PolicyFields, Proper;
    Names();
    var a: Fields := [("system_id", Text(e.system)), ("relative_path", Text(e.path))];
    assert Proper(a) by { TwoProper(e.system, e.path); }
    ChoiceProper("launch_profile", e.profile);
    ProperAppend(a, Choice("launch_profile", e.profile));
    a := a + Choice("launch_profile", e.profile);
    PolicyProper(e.policy, e.frequency);
    ProperAppend(a, PolicyFields(e.policy, e.frequency));
    a := a + PolicyFields(e.policy, e.frequency);
    ChoiceProper("content_suffix", e.suffix);
    ProperAppend(a, Choice("content_suffix", e.suffix));
    a := a + Choice("content_suffix", e.suffix);
    ChoiceProper("audio_driver", e.driver);
    ProperAppend(a, Choice("audio_driver", e.driver));
    a := a + Choice("audio_driver", e.driver);
    PositiveProper("audio_latency_ms", e.latency);
    ProperAppend(a, Positive("audio_latency_ms", e.latency));
    a := a + Positive("audio_latency_ms", e.latency);
    ChoiceProper("dosbox_pure_force60fps", e.force60);
    ProperAppend(a, Choice("dosbox_pure_force60fps", e.force60));
    a := a + Choice("dosbox_pure_force60fps", e.force60);
    ChoiceProper("dosbox_pure_cycles", e.cycles);
    ProperAppend(a, Choice("dosbox_pure_cycles", e.cycles));
  }

  lemma TwoProper(system: string, path: string)
    ensures Proper([("system_id", Text(system)), ("relative_path", Text(path))])
  {
    hide IsName;
    EarlyNames();
  }

  lemma SystemsAreWritten(es: seq<SystemOverride>)
    ensures Written(SystemObjects(es))
  {
    hide SystemFields, Proper;
    forall i | 0 <= i < |es| ensures SystemObjects(es)[i] != [] && Proper(SystemObjects(es)[i]) {
      SystemProper(es[i]);
    }
  }

  lemma RomsAreWritten(es: seq<RomOverride>)
    ensures Written(RomObjects(es))
  {
    hide RomFields, Proper;
    forall i | 0 <= i < |es| ensures RomObjects(es)[i] != [] && Proper(RomObjects(es)[i]) {
      RomProper(es[i]);
    }
  }

  // ---------- looking fields up ----------

  function Opt(v: string): Option<Value> { if v == "" then None else Some(Text(v)) }

  function OptNumber(n: int): Option<Value> { if n > 0 then Some(Plain(Decimal(n))) else None }

  function Pick(a: Option<Value>, b: Option<Value>): Option<Value> { if a.Some? then a else b }

  lemma ChoiceLookup(name: string, v: string, key: string)
    ensures Lookup(Choice(name, v), key) == if key == name then Opt(v) else None
  {}

  lemma PositiveLookup(name: string, n: int, key: string)
    ensures Lookup(Positive(name, n), key) == if key == name then OptNumber(n) else None
  {}

  lemma PolicyLookup(policy: string, frequency: int, key: string)
    ensures key == "cpu_policy" ==> Lookup(PolicyFields(policy, frequency), key) == Opt(policy)
    ensures key != "cpu_policy" && key != "cpu_freq_khz" ==> Lookup(PolicyFields(policy, frequency), key) == None
  {
    hide Lookup, Choice, Positive;
    var rest := if policy == "" then [] else Positive("cpu_freq_khz", frequency);
    LookupAppend(Choice("cpu_policy", policy), rest, key);
    ChoiceLookup("cpu_policy", policy, key);
    PositiveLookup("cpu_freq_khz", frequency, key);
    LookupNone(key);
  }

  lemma LookupNone(key: string)
    ensures Lookup([], key) == None
  {}

  lemma SystemLookup(e: SystemOverride, key: string)
    requires key != "cpu_freq_khz"
    ensures Lookup(SystemFields(e), key)
         == if key == "system_id" then Some(Text(e.system)) else if key == "launch_profile" then Opt(e.profile)
            else if key == "cpu_policy" then Opt(e.policy) else None
  {
    hide Lookup, Choice, PolicyFields;
    var a: Fields := [("system_id", Text(e.system))];
    var b := a + Choice("launch_profile", e.profile);
    LookupOne("system_id", Text(e.system), key);
    LookupAppend(a, Choice("launch_profile", e.profile), key);
    LookupAppend(b, PolicyFields(e.policy, e.frequency), key);
    ChoiceLookup("launch_profile", e.profile, key);
    PolicyLookup(e.policy, e.frequency, key);
  }

  /** Each key of a ROM's object finds its own field. */
  lemma RomLookup(e: RomOverride, key: string)
    requires key != "cpu_freq_khz"
    ensures Lookup(RomFields(e), key)
         == Pick(if key == "system_id" then Some(Text(e.system)) else if key == "relative_path" then Some(Text(e.path)) else None,
            Pick(if key == "launch_profile" then Opt(e.profile) else None,
            Pick(if key == "cpu_policy" then Opt(e.policy) else None,
            Pick(if key == "content_suffix" then Opt(e.suffix) else None,
            Pick(if key == "audio_driver" then Opt(e.driver) else None,
            Pick(if key == "audio_latency_ms" then OptNumber(e.latency) else None,
            Pick(if key == "dosbox_pure_force60fps" then Opt(e.force60) else None,
                 if key == "dosbox_pure_cycles" then Opt(e.cycles) else None)))))))
  {
    hide Lookup, Choice, PolicyFields, Positive, Opt, OptNumber;
    var a0: Fields := [("system_id", Text(e.system)), ("relative_path", Text(e.path))];
    var a1 := a0 + Choice("launch_profile", e.profile);
    var a2 := a1 + PolicyFields(e.policy, e.frequency);
    var a3 := a2 + Choice("content_suffix", e.suffix);
    var a4 := a3 + Choice("audio_driver", e.driver);
    var a5 := a4 + Positive("audio_latency_ms", e.latency);
    var a6 := a5 + Choice("dosbox_pure_force60fps", e.force60);
    LookupTwo("system_id", Text(e.system), "relative_path", Text(e.path), key);
    LookupAppend(a0, Choice("launch_profile", e.profile), key);
    LookupAppend(a1, PolicyFields(e.policy, e.frequency), key);
    LookupAppend(a2, Choice("content_suffix", e.suffix), key);
    LookupAppend(a3, Choice("audio_driver", e.driver), key);
    LookupAppend(a4, Positive("audio_latency_ms", e.latency), key);
    LookupAppend(a5, Choice("dosbox_pure_force60fps", e.force60), key);
    LookupAppend(a6, Choice("dosbox_pure_cycles", e.cycles), key);
    ChoiceLookup("launch_profile", e.profile, key);
    PolicyLookup(e.policy, e.frequency, key);
    ChoiceLookup("content_suffix", e.suffix, key);
    ChoiceLookup("audio_driver", e.driver, key);
    PositiveLookup("audio_latency_ms", e.latency, key);
    ChoiceLookup("dosbox_pure_force60fps", e.force60, key);
    ChoiceLookup("dosbox_pure_cycles", e.cycles, key);
  }
}
