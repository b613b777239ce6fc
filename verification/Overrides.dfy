/** The override file of the cartridge view: written whole from memory, read back by key search. */
module Overrides {
  import opened Optional
  import opened Strings
  import opened Json
  import opened JsonText
  import opened JsonObject
  import opened ArrayFile

  const MAX_ROMS: nat := 256
  const ID_SIZE: nat := 64
  const PATH_SIZE: nat := 4096
  const PROFILE_SIZE: nat := 128
  const MAX_FILE: nat := 0x10_0000

  datatype Rom = Rom(path: string, profile: string)

  /** The system-wide profile, if one is set, and the per-ROM profiles in array order. */
  datatype Overrides = Overrides(system: Option<string>, roms: seq<Rom>)

  const EMPTY := Overrides(None, [])

  // ---------- writing ----------

  function SystemFields(id: string, profile: string): Fields {
    [("system_id", Text(id)), ("launch_profile", Text(profile))]
  }

  function RomFields(id: string, r: Rom): Fields {
    [("system_id", Text(id)), ("relative_path", Text(r.path)), ("launch_profile", Text(r.profile))]
  }

  lemma FieldsAreProper(id: string, profile: string, r: Rom)
    ensures Proper(SystemFields(id, profile)) && Proper(RomFields(id, r))
  {
    hide IsName;
    Names();
  }

  lemma Names()
    ensures IsName("system_id") && IsName("relative_path") && IsName("launch_profile")
    ensures IsName("system_overrides") && IsName("rom_overrides")
  {}

  const ITEM := "\n    "

  function SystemBody(id: string, system: Option<string>): string {
    if system.None? || system.value == "" then "" else ITEM + (ObjectText(Ggfe, SystemFields(id, system.value)) + "\n  ")
  }

  /** Entries without a profile are not written. */
  function Stored(roms: seq<Rom>): seq<Rom> {
    if roms == [] then []
    else Stored(roms[..|roms| - 1]) + (if roms[|roms| - 1].profile == "" then [] else [roms[|roms| - 1]])
  }

  function Separator(first: bool): string { if first then ITEM else "," + ITEM }

  function RomItems(id: string, roms: seq<Rom>, first: bool): string {
    if roms == [] then ""
    else Separator(first) + (ObjectText(Ggfe, RomFields(id, roms[0])) + RomItems(id, roms[1..], false))
  }

  function RomsBody(id: string, roms: seq<Rom>): string {
    RomItems(id, roms, true) + (if roms == [] then "" else "\n  ")
  }

  function FileText(id: string, o: Overrides): string {
    FileOf(Ggfe, TwoMembers(Ggfe, "system_overrides", SystemBody(id, o.system), "rom_overrides", RomsBody(id, Stored(o.roms))))
  }

  lemma {:induction false} RomItemsSnoc(id: string, roms: seq<Rom>, r: Rom, first: bool)
    ensures RomItems(id, roms + [r], first)
         == RomItems(id, roms, first) + (Separator(first && roms == []) + ObjectText(Ggfe, RomFields(id, r)))
  {
    hide ObjectText, Separator;
    if roms == [] {
      assert [r][1..] == [] && roms + [r] == [r];
      var a, b := Separator(first), ObjectText(Ggfe, RomFields(id, r));
      assert RomItems(id, [r], first) == a + (b + "") == "" + (a + b);
    } else {
      RomItemsSnoc(id, roms[1..], r, false);
      assert (roms + [r])[1..] == roms[1..] + [r];
    }
  }

  // ---------- the writer's literals ----------

  lemma SystemIdLiteral()
    ensures "{ \"system_id\": \"" == "{ " + (Quote(Ggfe, "system_id") + (": " + "\""))
  {
    hide Quote;
    NameLength(Ggfe, "system_id");
  }

  lemma PathLiteral()
    ensures "\", \"relative_path\": \"" == "\"" + (", " + (Quote(Ggfe, "relative_path") + (": " + "\"")))
  {
    hide Quote;
    NameLength(Ggfe, "relative_path");
  }

  lemma ProfileLiteral()
    ensures "\", \"launch_profile\": \"" == "\"" + (", " + (Quote(Ggfe, "launch_profile") + (": " + "\"")))
    ensures "\" }" == "\"" + " }"
  {
    hide Quote;
    NameLength(Ggfe, "launch_profile");
  }

  /** One object of three fields, from its pieces in the order they are printed. */
  lemma RomLiteral(id: string, r: Rom)
    ensures ObjectText(Ggfe, RomFields(id, r))
         == "{ \"system_id\": \"" + (Esc(Ggfe, id) + ("\", \"relative_path\": \"" + (Esc(Ggfe, r.path)
            + ("\", \"launch_profile\": \"" + (Esc(Ggfe, r.profile) + "\" }")))))
  {
    hide FieldsText, Quote, Esc;
    var fs := RomFields(id, r);
    var f1, f2 := fs[1..], fs[2..];
    assert f1[1..] == f2;
    SystemIdLiteral();
    PathLiteral();
    ProfileLiteral();
    FieldText(Ggfe, fs);
    FieldText(Ggfe, f1);
    FieldText(Ggfe, f2);
    Split(Quote(Ggfe, "system_id") + (": " + "\""), Esc(Ggfe, id) + ("\"" + Rest(Ggfe, fs)));
    Regroup("\"", ", ", Quote(Ggfe, "relative_path") + (": " + "\""), Esc(Ggfe, r.path) + ("\"" + Rest(Ggfe, f1)));
    Regroup("\"", ", ", Quote(Ggfe, "launch_profile") + (": " + "\""), Esc(Ggfe, r.profile) + ("\"" + Rest(Ggfe, f2)));
  }

  lemma SystemLiteral(id: string, profile: string)
    ensures ObjectText(Ggfe, SystemFields(id, profile))
         == "{ \"system_id\": \"" + (Esc(Ggfe, id) + ("\", \"launch_profile\": \"" + (Esc(Ggfe, profile) + "\" }")))
  {
    hide FieldsText, Quote, Esc;
    var fs := SystemFields(id, profile);
    SystemIdLiteral();
    ProfileLiteral();
    FieldText(Ggfe, fs);
    FieldText(Ggfe, fs[1..]);
    Split(Quote(Ggfe, "system_id") + (": " + "\""), Esc(Ggfe, id) + ("\"" + Rest(Ggfe, fs)));
    Regroup("\"", ", ", Quote(Ggfe, "launch_profile") + (": " + "\""), Esc(Ggfe, profile) + ("\"" + Rest(Ggfe, fs[1..])));
  }
}
