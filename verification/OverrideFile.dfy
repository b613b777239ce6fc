/** Saving and loading the override file: what comes back, and exactly when it is what was saved. */
module OverrideFile {
  import opened Optional
  import opened Strings
  import opened Json
  import opened JsonText
  import opened JsonObject
  import opened ArrayFile
  import opened Overrides

  // ---------- saving ----------

  const HEAD := "{\n  \"version\": 1,\n  \"system_overrides\": ["
  const MIDDLE := "],\n  \"rom_overrides\": ["
  const TAIL := "]\n}\n"

  lemma VersionLiteral()
    ensures "{\n  \"version\": 1,\n  " == "{\n  " + (Quote(Ggfe, "version") + ": 1,\n  ")
  {
    hide Quote;
    NameLength(Ggfe, "version");
  }

  lemma SystemKeyLiteral()
    ensures "\"system_overrides\": [" == Quote(Ggfe, "system_overrides") + (": " + "[")
  {
    hide Quote;
    NameLength(Ggfe, "system_overrides");
  }

  lemma HeadLiteral()
    ensures HEAD == "{\n  " + (Quote(Ggfe, "version") + (": 1,\n  " + (Quote(Ggfe, "system_overrides") + (": " + "["))))
  {
    hide Quote;
    VersionLiteral();
    SystemKeyLiteral();
    HeadShape(Quote(Ggfe, "version"), "", Quote(Ggfe, "system_overrides") + (": " + "["));
    assert HEAD == "{\n  \"version\": 1,\n  " + "\"system_overrides\": [";
    assert ": 1,\n  " + "" == ": 1,\n  ";
    var k := Quote(Ggfe, "system_overrides") + (": " + "[");
    assert "" + k == k;
  }

  lemma MiddleLiteral()
    ensures MIDDLE == "]" + (",\n  " + (Quote(Ggfe, "rom_overrides") + (": " + "[")))
    ensures TAIL == "]" + "\n}\n"
  {
    hide Quote;
    NameLength(Ggfe, "rom_overrides");
  }

  /** The file is its two bodies between the writer's three literals. */
  lemma FileLiteral(id: string, o: Overrides)
    ensures FileText(id, o) == HEAD + (SystemBody(id, o.system) + (MIDDLE + (RomsBody(id, Stored(o.roms)) + TAIL)))
  {
    hide Quote, SystemBody, RomsBody, Stored;
    HeadLiteral();
    MiddleLiteral();
    var s, r := SystemBody(id, o.system), RomsBody(id, Stored(o.roms));
    var q := Quote(Ggfe, "rom_overrides");
    MemberShape("rom_overrides", r, "\n}\n");
    MemberShape("system_overrides", s, ",\n  " + Member(Ggfe, "rom_overrides", r, "\n}\n"));
    Regroup("]", ",\n  ", q + (": " + "["), r + ("]" + "\n}\n"));
    HeadShape(Quote(Ggfe, "version"), Quote(Ggfe, "system_overrides") + (": " + "["), s + ("]" + (",\n  " + Member(Ggfe, "rom_overrides", r, "\n}\n"))));
  }

  lemma MemberShape(key: string, body: string, rest: string)
    ensures Member(Ggfe, key, body, rest) == (Quote(Ggfe, key) + (": " + "[")) + (body + ("]" + rest))
  {
    hide Quote;
  }

  lemma HeadShape(q: string, a: string, b: string)
    ensures "{\n  " + (q + (": 1,\n  " + (a + b))) == ("{\n  " + (q + (": 1,\n  " + a))) + b
  {}

  method JsonEscape(f: string, s: string) returns (out: string)
    ensures out == f + Esc(Ggfe, s)
  {
    hide EscChar;
    out := f;
    var i := 0;
    while i < |s|
      invariant 0 <= i <= |s| && out + Esc(Ggfe, s[i..]) == f + Esc(Ggfe, s)
    {
      assert s[i..][1..] == s[i + 1..];
      EscHead(Ggfe, s[i..]);
      if s[i] == '"' || s[i] == '\\' {
        EscQuoted(s[i]);
        out := out + ['\\', s[i]];
      } else if s[i] < ' ' {
        EscControl(s[i]);
        out := out + ['\\', 'u', '0', '0', HexDigit(s[i] as int / 16), HexDigit(s[i] as int % 16)];
      } else {
        EscPlain(s[i]);
        out := out + [s[i]];
      }
      i := i + 1;
    }
  }

  lemma EscQuoted(c: char)
    requires c == '"' || c == '\\'
    ensures EscChar(Ggfe, c) == ['\\', c]
  {}
  lemma EscControl(c: char)
    requires c < ' '
    ensures EscChar(Ggfe, c) == ['\\', 'u', '0', '0', HexDigit(c as int / 16), HexDigit(c as int % 16)]
  {}
  lemma EscPlain(c: char)
    requires c >= ' ' && c != '"' && c != '\\'
    ensures EscChar(Ggfe, c) == [c]
  {}

  /** The entry the C code prints, appended to what is written so far. */
  method WriteRom(f: string, id: string, r: Rom, first: bool) returns (out: string)
    ensures out == f + (Separator(first) + ObjectText(Ggfe, RomFields(id, r)))
  {
    hide Esc, ObjectText;
    out := f + ((if first then "" else ",") + "\n    { \"system_id\": \"");
    out := JsonEscape(out, id);
    out := out + "\", \"relative_path\": \"";
    out := JsonEscape(out, r.path);
    out := out + "\", \"launch_profile\": \"";
    out := JsonEscape(out, r.profile);
    out := out + "\" }";
    RomLiteral(id, r);
    Chain6(f + Separator(first), "{ \"system_id\": \"", Esc(Ggfe, id), "\", \"relative_path\": \"", Esc(Ggfe, r.path),
      "\", \"launch_profile\": \"", Esc(Ggfe, r.profile), "\" }");
    SeparatorLiteral(first);
    Grouped(f, Separator(first), "{ \"system_id\": \"");
    Grouped(f, Separator(first), ObjectText(Ggfe, RomFields(id, r)));
  }

  lemma SeparatorLiteral(first: bool)
    ensures (if first then "" else ",") + "\n    { \"system_id\": \"" == Separator(first) + "{ \"system_id\": \""
  {}

  lemma Chain6(f: string, a: string, b: string, c: string, d: string, e: string, g: string, h: string)
    ensures (((((((f + a) + b) + c) + d) + e) + g) + h) == f + (a + (b + (c + (d + (e + (g + h))))))
  {
    Grouped(f, a, b + (c + (d + (e + (g + h)))));
    Grouped(f + a, b, c + (d + (e + (g + h))));
    Grouped((f + a) + b, c, d + (e + (g + h)));
    Grouped(((f + a) + b) + c, d, e + (g + h));
    Grouped((((f + a) + b) + c) + d, e, g + h);
    Grouped(((((f + a) + b) + c) + d) + e, g, h);
  }

  method WriteSystem(f: string, id: string, system: Option<string>) returns (out: string)
    ensures out == f + SystemBody(id, system)
  {
    hide Esc, ObjectText;
    out := f;
    if system.Some? && system.value != "" {
      out := out + "\n    { \"system_id\": \"";
      out := JsonEscape(out, id);
      out := out + "\", \"launch_profile\": \"";
      out := JsonEscape(out, system.value);
      out := out + "\" }\n  ";
      SystemLiteral(id, system.value);
      SystemPieces();
      SystemShape(f, "{ \"system_id\": \"", Esc(Ggfe, id), "\", \"launch_profile\": \"", Esc(Ggfe, system.value), "\" }");
    } else {
      assert f + "" == f;
    }
  }

  lemma SystemPieces()
    ensures "\n    { \"system_id\": \"" == ITEM + "{ \"system_id\": \""
    ensures "\" }\n  " == "\" }" + "\n  "
  {}

  lemma SystemShape(f: string, a: string, b: string, c: string, d: string, e: string)
    ensures (((((f + (ITEM + a)) + b) + c) + d) + (e + "\n  ")) == f + (ITEM + ((a + (b + (c + (d + e)))) + "\n  "))
  {
    Grouped(f, ITEM, (a + (b + (c + (d + e)))) + "\n  ");
    Grouped(f, ITEM, a);
    var g := f + ITEM;
    Grouped(g, a + (b + (c + (d + e))), "\n  ");
    Grouped(g, a, b + (c + (d + e)));
    Grouped(g + a, b, c + (d + e));
    Grouped((g + a) + b, c, d + e);
    Grouped(((g + a) + b) + c, d, e);
    Grouped((((g + a) + b) + c) + d, e, "\n  ");
  }

  method Save(id: string, o: Overrides) returns (out: string)
    ensures out == FileText(id, o)
  {
    hide RomItems, FileText, SystemBody, Stored;
    out := HEAD;
    out := WriteSystem(out, id, o.system);
    out := out + MIDDLE;
    var first;
    out, first := WriteRoms(out, id, o.roms);
    out := out + ((if first then "" else "\n  ") + "]\n}\n");
    FileLiteral(id, o);
    SaveShape(HEAD, SystemBody(id, o.system), MIDDLE, RomItems(id, Stored(o.roms), true), if first then "" else "\n  ", TAIL);
  }

  /** The entries that have a profile, a comma before each but the first. */
  method WriteRoms(start: string, id: string, roms: seq<Rom>) returns (out: string, first: bool)
    ensures out == start + RomItems(id, Stored(roms), true) && first == (Stored(roms) == [])
  {
    hide ObjectText, RomItems, Stored, Separator;
    out, first := start, true;
    StoredNone(id, start);
    for i := 0 to |roms|
      invariant first == (Stored(roms[..i]) == [])
      invariant out == start + RomItems(id, Stored(roms[..i]), true)
    {
      var r := roms[i];
      StoredSnoc(roms[..i], r);
      assert roms[..i + 1] == roms[..i] + [r];
      if r.profile != "" {
        out := WriteRom(out, id, r, first);
        RomItemsSnoc(id, Stored(roms[..i]), r, true);
        Grouped(start, RomItems(id, Stored(roms[..i]), true), Separator(first) + ObjectText(Ggfe, RomFields(id, r)));
        first := false;
      }
    }
    assert roms[..|roms|] == roms;
  }

  lemma StoredNone(id: string, s: string)
    ensures s == s + RomItems(id, Stored([]), true) && Stored([]) == []
  {}

  lemma StoredSnoc(roms: seq<Rom>, r: Rom)
    ensures Stored(roms + [r]) == if r.profile == "" then Stored(roms) else Stored(roms) + [r]
  {
    assert (roms + [r])[..|roms|] == roms;
  }

  lemma SaveShape(a: string, b: string, c: string, d: string, e: string, f: string)
    ensures ((((a + b) + c) + d) + (e + f)) == a + (b + (c + ((d + e) + f)))
  {
    Grouped(a, b, c + ((d + e) + f));
    Grouped(a + b, c, (d + e) + f);
    Grouped((a + b) + c, d + e, f);
    Grouped((a + b) + c, d, e);
    Grouped(((a + b) + c) + d, e, f);
  }

  // ---------- loading ----------

  /** A failed lookup empties its buffer, except where the value is no string at all. */
  predicate Clears(t: string, start: nat, end: nat, key: string)
    requires end <= |t|
  {
    match Find(t, start, end, key)
    case None => true
    case Some(v) => v < end && t[v] == '"' && DecodeRaw(t, v + 1, end).None?
  }

  /** The system profile after one object: a readable profile of the right id replaces it, an unreadable one may empty it. */
  function KeptAfter(t: string, o: nat, e: nat, id: string, kept: Option<string>): Option<string>
    requires e <= |t|
  {
    var profile := GetString(t, o, e, "launch_profile", PROFILE_SIZE);
    if GetString(t, o, e, "system_id", ID_SIZE) != Some(id) then kept
    else if profile.Some? then profile
    else if kept.Some? && Clears(t, o, e, "launch_profile") then Some("")
    else kept
  }

  /** What the system loop keeps. */
  function LoadSystem(t: string, p: nat, end: nat, id: string, kept: Option<string>): Option<string>
    requires p <= end <= |t|
    decreases end - p
  {
    match NextObject(t, p, end)
    case None => kept
    case Some((o, e)) => LoadSystem(t, e, end, id, KeptAfter(t, o, e, id, kept))
  }

  /** The entry an object holds for this system, if it holds one. */
  function RomAt(t: string, o: nat, e: nat, id: string): Option<Rom>
    requires e <= |t|
  {
    var path := GetString(t, o, e, "relative_path", PATH_SIZE);
    var profile := GetString(t, o, e, "launch_profile", PROFILE_SIZE);
    if GetString(t, o, e, "system_id", ID_SIZE) == Some(id) && path.Some? && profile.Some?
    then Some(Rom(path.value, profile.value)) else None
  }

  function Add(roms: seq<Rom>, r: Option<Rom>): seq<Rom> { if r.None? then roms else roms + [r.value] }

  function LoadRoms(t: string, p: nat, end: nat, id: string, roms: seq<Rom>): seq<Rom>
    requires p <= end <= |t|
    decreases end - p
  {
    if |roms| >= MAX_ROMS then roms
    else match NextObject(t, p, end)
      case None => roms
      case Some((o, e)) => LoadRoms(t, e, end, id, Add(roms, RomAt(t, o, e, id)))
  }

  function Load(t: string, id: string): Overrides {
    if |t| > MAX_FILE then EMPTY
    else
      var s, r := FindArray(t, "system_overrides"), FindArray(t, "rom_overrides");
      Overrides(if s.None? then None else LoadSystem(t, s.value.0, s.value.1, id, None),
                if r.None? then [] else LoadRoms(t, r.value.0, r.value.1, id, []))
  }

  method LoadFile(t: string, id: string) returns (o: Overrides)
    ensures o == Load(t, id)
  {
    hide NextObject, FindArray, GetString;
    o := EMPTY;
    if |t| > MAX_FILE {
      return;
    }
    var a := FindArrayAt(t, "system_overrides");
    if a.Some? {
      var system := ReadSystem(t, a.value.0, a.value.1, id);
      o := o.(system := system);
    }
    a := FindArrayAt(t, "rom_overrides");
    if a.Some? {
      var roms := ReadRoms(t, a.value.0, a.value.1, id);
      o := o.(roms := roms);
    }
  }

  method ReadSystem(t: string, start: nat, end: nat, id: string) returns (kept: Option<string>)
    requires start <= end <= |t|
    ensures kept == LoadSystem(t, start, end, id, None)
  {
    hide NextObject, GetString, Clears;
    kept := None;
    var cursor := start;
    while true
      invariant cursor <= end && LoadSystem(t, start, end, id, None) == LoadSystem(t, cursor, end, id, kept)
      decreases end - cursor
    {
      var next := NextObjectAt(t, cursor, end);
      if next.None? {
        break;
      }
      var (s, e) := next.value;
      NextAdvances(t, cursor, end);
      cursor := e;
      var found := FindStringAt(t, s, e, "system_id", ID_SIZE);
      if found != Some(id) {
        continue;
      }
      var profile := FindStringAt(t, s, e, "launch_profile", PROFILE_SIZE);
      if profile.Some? {
        kept := profile;
      } else if kept.Some? {
        var clears := LookupClears(t, s, e, "launch_profile");
        kept := if clears then Some("") else kept;
      }
    }
  }

  method LookupClears(t: string, start: nat, end: nat, key: string) returns (clears: bool)
    requires end <= |t|
    ensures clears == Clears(t, start, end, key)
  {
    hide DecodeRaw;
    var v := FindKeyValue(t, start, end, key);
    if v.None? {
      return true;
    }
    if v.value >= end || t[v.value] != '"' {
      return false;
    }
    var s := DecodeString(t, v.value, end, 1);
    return s.None?;
  }

  method ReadRoms(t: string, start: nat, end: nat, id: string) returns (roms: seq<Rom>)
    requires start <= end <= |t|
    ensures roms == LoadRoms(t, start, end, id, [])
  {
    hide NextObject, GetString;
    roms := [];
    var cursor := start;
    while |roms| < MAX_ROMS
      invariant cursor <= end && LoadRoms(t, start, end, id, []) == LoadRoms(t, cursor, end, id, roms)
      decreases end - cursor
    {
      var next := NextObjectAt(t, cursor, end);
      if next.None? {
        break;
      }
      var (s, e) := next.value;
      NextAdvances(t, cursor, end);
      cursor := e;
      var found := FindStringAt(t, s, e, "system_id", ID_SIZE);
      if found != Some(id) {
        continue;
      }
      var path := FindStringAt(t, s, e, "relative_path", PATH_SIZE);
      var profile := FindStringAt(t, s, e, "launch_profile", PROFILE_SIZE);
      if path.Some? && profile.Some? {
        roms := roms + [Rom(path.value, profile.value)];
      }
    }
  }
}
