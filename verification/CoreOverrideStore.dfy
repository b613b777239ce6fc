/** Writing and reading the core override file step by step, as the program does. */
module CoreOverrideStore {
  import opened Optional
  import opened Json
  import opened JsonText
  import opened JsonObject
  import opened ArrayFile
  import opened TextUiList
  import opened TextUiChecks
  import opened TextUiWriter
  import opened Decimals
  import opened CoreOverrideFile
  import opened CoreOverrideRoundTrip
  import S = FavoriteState

  // ---------- saving ----------

  method WritePositive(f: string, name: string, n: int, ghost line: string, ghost done: Fields) returns (out: string)
    requires IsName(name) && done != [] && f == line + Start(done)
    ensures out == line + Start(done + Positive(name, n))
  {
    hide Start, Decimal;
    out := f;
    if n > 0 {
      out := WritePlain(f, name, Decimal(n), line, done);
    } else {
      assert done + [] == done;
    }
  }

  method WritePolicy(f: string, policy: string, frequency: int, ghost line: string, ghost done: Fields) returns (out: string)
    requires done != [] && f == line + Start(done)
    ensures out == line + Start(done + PolicyFields(policy, frequency))
  {
    hide Start, IsName, Positive;
    Names();
    out := f;
    if policy != "" {
      out := WriteText(out, "cpu_policy", policy, line, done);
      out := WritePositive(out, "cpu_freq_khz", frequency, line, done + [("cpu_policy", Text(policy))]);
      assert done + [("cpu_policy", Text(policy))] + Positive("cpu_freq_khz", frequency) == done + PolicyFields(policy, frequency);
    } else {
      assert done + PolicyFields(policy, frequency) == done;
    }
  }

  method WriteSystem(f: string, e: SystemOverride, last: bool) returns (out: string)
    ensures SystemFields(e) != [] && out == (f + "    ") + (Object(SystemFields(e)) + LineEnd(last))
  {
    hide Start, Object, IsName, LineEnd, Choice, PolicyFields;
    Names();
    ghost var line := f + "    ";
    ghost var a: Fields := [("system_id", Text(e.system))];
    out := WriteFirst(f, "system_id", e.system);
    out := WriteChoice(out, "launch_profile", e.profile, line, a);
    a := a + Choice("launch_profile", e.profile);
    out := WritePolicy(out, e.policy, e.frequency, line, a);
    out := EndLine(out, last, line, a + PolicyFields(e.policy, e.frequency));
  }

  method WriteRom(f: string, e: RomOverride, last: bool) returns (out: string)
    ensures RomFields(e) != [] && out == (f + "    ") + (Object(RomFields(e)) + LineEnd(last))
  {
    hide Start, Object, IsName, LineEnd, Choice, Positive, PolicyFields;
    Names();
    ghost var line := f + "    ";
    ghost var a: Fields := [("system_id", Text(e.system))];
    out := WriteFirst(f, "system_id", e.system);
    out := WriteText(out, "relative_path", e.path, line, a);
    a := a + [("relative_path", Text(e.path))];
    assert a == [("system_id", Text(e.system)), ("relative_path", Text(e.path))];
    out := WriteChoice(out, "launch_profile", e.profile, line, a);
    a := a + Choice("launch_profile", e.profile);
    out := WritePolicy(out, e.policy, e.frequency, line, a);
    a := a + PolicyFields(e.policy, e.frequency);
    out := WriteChoice(out, "content_suffix", e.suffix, line, a);
    a := a + Choice("content_suffix", e.suffix);
    out := WriteChoice(out, "audio_driver", e.driver, line, a);
    a := a + Choice("audio_driver", e.driver);
    out := WritePositive(out, "audio_latency_ms", e.latency, line, a);
    a := a + Positive("audio_latency_ms", e.latency);
    out := WriteChoice(out, "dosbox_pure_force60fps", e.force60, line, a);
    a := a + Choice("dosbox_pure_force60fps", e.force60);
    out := WriteChoice(out, "dosbox_pure_cycles", e.cycles, line, a);
    a := a + Choice("dosbox_pure_cycles", e.cycles);
    out := EndLine(out, last, line, a);
  }

  method WriteSystems(f: string, es: seq<SystemOverride>) returns (out: string)
    ensures Written(SystemObjects(es)) && out == f + Items(SystemObjects(es))
  {
    hide Items, Object, LineEnd, SystemFields;
    ghost var objs := SystemObjects(es);
    SystemsAreWritten(es);
    out := f;
    assert objs[0..] == objs;
    for i := 0 to |es|
      invariant Written(objs[i..]) && out + Items(objs[i..]) == f + Items(objs)
    {
      assert objs[i..][1..] == objs[i + 1..] && objs[i..][0] == SystemFields(es[i]);
      LineWritten(out, objs[i..], i + 1 == |es|);
      out := WriteSystem(out, es[i], i + 1 == |es|);
    }
    NoItems();
    assert objs[|es|..] == [] && out + "" == out;
  }

  method WriteRoms(f: string, es: seq<RomOverride>) returns (out: string)
    ensures Written(RomObjects(es)) && out == f + Items(RomObjects(es))
  {
    hide Items, Object, LineEnd, RomFields;
    ghost var objs := RomObjects(es);
    RomsAreWritten(es);
    out := f;
    assert objs[0..] == objs;
    for i := 0 to |es|
      invariant Written(objs[i..]) && out + Items(objs[i..]) == f + Items(objs)
    {
      assert objs[i..][1..] == objs[i + 1..] && objs[i..][0] == RomFields(es[i]);
      LineWritten(out, objs[i..], i + 1 == |es|);
      out := WriteRom(out, es[i], i + 1 == |es|);
    }
    NoItems();
    assert objs[|es|..] == [] && out + "" == out;
  }

  method Save(o: CoreOverrides) returns (out: string)
    ensures out == FileText(o)
  {
    hide Items, TwoArrays, ArrayHead, IsName, SystemObjects, RomObjects;
    Names();
    HeadTexts();
    out := OPENING + "  \"system_overrides\": [\n";
    out := WriteSystems(out, o.systems);
    out := out + "  ],\n" + "  \"rom_overrides\": [\n";
    out := WriteRoms(out, o.roms);
    out := out + "  ]\n" + "}\n";
    TwoArraysIs("system_overrides", SystemObjects(o.systems), "rom_overrides", RomObjects(o.roms));
  }

  lemma HeadTexts()
    ensures "  \"system_overrides\": [\n" == ArrayHead("system_overrides")
    ensures "  \"rom_overrides\": [\n" == ArrayHead("rom_overrides")
  {}

  // ---------- loading ----------

  method ReadSystem(t: string) returns (e: SystemOverride)
    ensures e == SystemOf(t)
  {
    hide GetOr;
    var system := S.Field(t, "system_id", SYSTEM_SIZE);
    var profile := S.Field(t, "launch_profile", PROFILE_SIZE);
    var policy := S.Field(t, "cpu_policy", POLICY_SIZE);
    var frequency := FindLong(t, 0, |t|, "cpu_freq_khz", 0);
    frequency := 0;
    return SystemOverride(system, profile, policy, frequency);
  }

  method LoadSystems(t: string, start: nat, end: nat) returns (list: seq<SystemOverride>)
    requires start <= end <= |t|
    ensures list == LoadWith(t, start, end, [], MAX_SYSTEMS, AcceptSystem)
  {
    hide NextObject, SystemOf, ValidSystem, ValidProfile, ValidPolicy;
    list := [];
    var cursor := start;
    while |list| < MAX_SYSTEMS
      invariant start <= cursor <= end <= |t|
      invariant LoadWith(t, start, end, [], MAX_SYSTEMS, AcceptSystem) == LoadWith(t, cursor, end, list, MAX_SYSTEMS, AcceptSystem)
      decreases end - cursor
    {
      var next := NextObjectAt(t, cursor, end);
      if next.None? {
        break;
      }
      NextAdvances(t, cursor, end);
      var (s, e) := next.value;
      var entry := ReadSystem(t[s..e]);
      cursor := e;
      if ValidSystem(entry.system) && (entry.profile == "" || ValidProfile(entry.profile))
         && (entry.policy == "" || ValidPolicy(entry.policy)) {
        list := list + [entry];
      }
    }
  }

  method ReadRom(t: string) returns (e: RomOverride)
    ensures e == RomOf(t)
  {
    hide GetOr, GetLong;
    var system := S.Field(t, "system_id", SYSTEM_SIZE);
    var path := S.Field(t, "relative_path", PATH_SIZE);
    var profile := S.Field(t, "launch_profile", PROFILE_SIZE);
    var policy := S.Field(t, "cpu_policy", POLICY_SIZE);
    var suffix := S.Field(t, "content_suffix", SUFFIX_SIZE);
    var driver := S.Field(t, "audio_driver", DRIVER_SIZE);
    var force60 := S.Field(t, "dosbox_pure_force60fps", TRUTH_SIZE);
    var cycles := S.Field(t, "dosbox_pure_cycles", CYCLES_SIZE);
    var frequency := FindLong(t, 0, |t|, "cpu_freq_khz", 0);
    var latency := FindLong(t, 0, |t|, "audio_latency_ms", 0);
    frequency := 0;
    return RomOverride(system, path, profile, policy, frequency, suffix, driver, latency, force60, cycles);
  }

  method Amend(e0: RomOverride) returns (e: RomOverride)
    ensures e == Amended(e0)
  {
    hide ValidSuffix, ValidDriver, ValidTruth, ValidCycles;
    e := e0;
    if e.suffix != "" && !ValidSuffix(e.suffix) {
      e := e.(suffix := "");
    }
    if e.driver != "" && !ValidDriver(e.driver) {
      e := e.(driver := "");
    }
    if e.latency <= 0 || e.latency > 1000 {
      e := e.(latency := 0);
    }
    if e.force60 != "" && !ValidTruth(e.force60) {
      e := e.(force60 := "");
    }
    if e.cycles != "" && !ValidCycles(e.cycles) {
      e := e.(cycles := "");
    }
  }

  method LoadRoms(t: string, start: nat, end: nat) returns (list: seq<RomOverride>)
    requires start <= end <= |t|
    ensures list == LoadWith(t, start, end, [], MAX_ROMS, AcceptRom)
  {
    hide NextObject, RomOf, Amended, ValidSystem, ValidPath, ValidProfile, ValidPolicy;
    list := [];
    var cursor := start;
    while |list| < MAX_ROMS
      invariant start <= cursor <= end <= |t|
      invariant LoadWith(t, start, end, [], MAX_ROMS, AcceptRom) == LoadWith(t, cursor, end, list, MAX_ROMS, AcceptRom)
      decreases end - cursor
    {
      var next := NextObjectAt(t, cursor, end);
      if next.None? {
        break;
      }
      NextAdvances(t, cursor, end);
      var (s, e) := next.value;
      var read := ReadRom(t[s..e]);
      AmendKeepsKeys(read);
      var entry := Amend(read);
      cursor := e;
      if ValidSystem(entry.system) && ValidPath(entry.path) && (entry.profile == "" || ValidProfile(entry.profile))
         && (entry.policy == "" || ValidPolicy(entry.policy)) {
        list := list + [entry];
      }
    }
  }

  lemma AmendKeepsKeys(e: RomOverride)
    ensures var a := Amended(e); a.system == e.system && a.path == e.path && a.profile == e.profile && a.policy == e.policy
  {}

  method LoadCoreOverrides(t: string) returns (o: CoreOverrides)
    ensures o == Load(t)
  {
    hide FindArray, LoadWith;
    o := CoreOverrides([], []);
    var a := FindArrayAt(t, "system_overrides");
    ArrayInside(t, "system_overrides");
    if a.Some? {
      var systems := LoadSystems(t, a.value.0, a.value.1);
      o := o.(systems := systems);
    }
    a := FindArrayAt(t, "rom_overrides");
    ArrayInside(t, "rom_overrides");
    if a.Some? {
      var roms := LoadRoms(t, a.value.0, a.value.1);
      o := o.(roms := roms);
    }
  }
}
