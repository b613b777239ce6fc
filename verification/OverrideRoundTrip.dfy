/** Loading a saved override file: the exact result, and exactly when it is the saved set. */
module OverrideRoundTrip {
  import opened Optional
  import opened Json
  import opened JsonText
  import opened JsonObject
  import opened ArrayFile
  import opened Overrides
  import opened OverrideFile

  // ---------- one entry ----------

  function Image(r: Rom): Rom { Rom(Fit(Reads(Ggfe, r.path), PATH_SIZE), Fit(Reads(Ggfe, r.profile), PROFILE_SIZE)) }

  predicate IdReads(id: string) { Fit(Reads(Ggfe, id), ID_SIZE) == id }

  lemma RomReads(t: string, p: nat, id: string, r: Rom)
    requires Has(t, p, ObjectText(Ggfe, RomFields(id, r)))
    ensures p + |ObjectText(Ggfe, RomFields(id, r))| <= |t|
    ensures RomAt(t, p, p + |ObjectText(Ggfe, RomFields(id, r))|, id) == if IdReads(id) then Some(Image(r)) else None
  {
    hide ObjectText, GetString, Reads, Fit, IsName, Proper, Lookup;
    var fs := RomFields(id, r);
    FieldsAreProper(id, "", r);
    Names();
    LookupAt(fs, 0);
    LookupAt(fs, 1);
    LookupAt(fs, 2);
    ObjectReads(Ggfe, t, p, fs, "system_id", ID_SIZE);
    ObjectReads(Ggfe, t, p, fs, "relative_path", PATH_SIZE);
    ObjectReads(Ggfe, t, p, fs, "launch_profile", PROFILE_SIZE);
  }

  // ---------- the arrays ----------

  function Images(roms: seq<Rom>): seq<Rom> { if roms == [] then [] else [Image(roms[0])] + Images(roms[1..]) }

  lemma {:induction false} ItemsRead(t: string, p: nat, end: nat, id: string, roms: seq<Rom>, first: bool, kept: seq<Rom>)
    requires |kept| + |roms| <= MAX_ROMS
    requires var tail := if first && roms == [] then "" else "\n  ";
             && Has(t, p, RomItems(id, roms, first)) && Has(t, p + |RomItems(id, roms, first)|, tail)
             && end == p + |RomItems(id, roms, first)| + |tail|
    ensures LoadRoms(t, p, end, id, kept) == if IdReads(id) then kept + Images(roms) else kept
    decreases |roms|
  {
    hide ObjectText, NextObject, RomAt, Image, Reads, Fit, Has, Separator, IdReads, Proper;
    HasLength(t, p + |RomItems(id, roms, first)|, if first && roms == [] then "" else "\n  ");
    if roms == [] {
      NoneLeft(t, p, end, if first then "" else "\n  ");
      assert kept + [] == kept;
    } else {
      var fs, sep := RomFields(id, roms[0]), Separator(first);
      var rest := RomItems(id, roms[1..], false);
      HasAppend(t, p, sep, ObjectText(Ggfe, fs) + rest);
      HasAppend(t, p + |sep|, ObjectText(Ggfe, fs), rest);
      RomReads(t, p + |sep|, id, roms[0]);
      var e := p + |sep| + |ObjectText(Ggfe, fs)|;
      SeparatorIsRaw(first);
      FieldsAreProper(id, "", roms[0]);
      NextIs(Ggfe, t, p, end, sep, fs);
      var added := Add(kept, RomAt(t, p + |sep|, e, id));
      ItemsRead(t, e, end, id, roms[1..], false, added);
      assert kept + ([Image(roms[0])] + Images(roms[1..])) == (kept + [Image(roms[0])]) + Images(roms[1..]);
    }
  }

  lemma SeparatorIsRaw(first: bool)
    ensures forall c | c in Separator(first) :: c != '"' && c != '{' && c != '[' && c != ']'
  {}

  lemma SystemReads(t: string, p: nat, id: string, system: Option<string>)
    requires Has(t, p, SystemBody(id, system))
    ensures p + |SystemBody(id, system)| <= |t|
    ensures LoadSystem(t, p, p + |SystemBody(id, system)|, id, None)
         == if system.Some? && system.value != "" && IdReads(id) then Some(Fit(Reads(Ggfe, system.value), PROFILE_SIZE)) else None
  {
    hide ObjectText, NextObject, GetString, Reads, Fit, Has, IsName, Proper, Lookup;
    var end := p + |SystemBody(id, system)|;
    HasLength(t, p, SystemBody(id, system));
    if system.None? || system.value == "" {
      NoneLeft(t, p, end, "");
    } else {
      var fs := SystemFields(id, system.value);
      HasAppend(t, p, ITEM, ObjectText(Ggfe, fs) + "\n  ");
      HasAppend(t, p + |ITEM|, ObjectText(Ggfe, fs), "\n  ");
      FieldsAreProper(id, system.value, Rom("", ""));
      Names();
      NextIs(Ggfe, t, p, end, ITEM, fs);
      LookupAt(fs, 0);
      LookupAt(fs, 1);
      ObjectReads(Ggfe, t, p + |ITEM|, fs, "system_id", ID_SIZE);
      ObjectReads(Ggfe, t, p + |ITEM|, fs, "launch_profile", PROFILE_SIZE);
      NoneLeft(t, p + |ITEM| + |ObjectText(Ggfe, fs)|, end, "\n  ");
    }
  }

  // ---------- finding the arrays ----------

  /** A bracket scan passes over a body: its brackets stand inside strings. */
  lemma SystemCloses(t: string, p: nat, end: nat, id: string, system: Option<string>)
    requires end <= |t| && Has(t, p, SystemBody(id, system)) && p + |SystemBody(id, system)| <= end
    ensures CloseFrom(t, p, end, '[', ']', 1, false, false)
         == CloseFrom(t, p + |SystemBody(id, system)|, end, '[', ']', 1, false, false)
  {
    hide FieldsText, CloseFrom, Has, ObjectText;
    if system.Some? && system.value != "" {
      var fs := SystemFields(id, system.value);
      HasAppend(t, p, ITEM, ObjectText(Ggfe, fs) + "\n  ");
      HasAppend(t, p + |ITEM|, ObjectText(Ggfe, fs), "\n  ");
      ClosesPastRaw(t, p, end, '[', ']', 1, ITEM);
      FieldsAreProper(id, system.value, Rom("", ""));
      ObjectCloses(Ggfe, t, p + |ITEM|, end, fs);
      ClosesPastRaw(t, p + |ITEM| + |ObjectText(Ggfe, fs)|, end, '[', ']', 1, "\n  ");
    }
  }

  lemma {:induction false} ItemsClose(t: string, p: nat, end: nat, id: string, roms: seq<Rom>, first: bool)
    requires end <= |t| && Has(t, p, RomItems(id, roms, first)) && p + |RomItems(id, roms, first)| <= end
    ensures CloseFrom(t, p, end, '[', ']', 1, false, false)
         == CloseFrom(t, p + |RomItems(id, roms, first)|, end, '[', ']', 1, false, false)
    decreases |roms|
  {
    hide ObjectText, CloseFrom, Has;
    if roms != [] {
      var fs, sep := RomFields(id, roms[0]), Separator(first);
      var rest := RomItems(id, roms[1..], false);
      HasAppend(t, p, sep, ObjectText(Ggfe, fs) + rest);
      HasAppend(t, p + |sep|, ObjectText(Ggfe, fs), rest);
      SeparatorIsRaw(first);
      FieldsAreProper(id, "", roms[0]);
      ClosesPastRaw(t, p, end, '[', ']', 1, sep);
      ObjectCloses(Ggfe, t, p + |sep|, end, fs);
      ItemsClose(t, p + |sep| + |ObjectText(Ggfe, fs)|, end, id, roms[1..], false);
    }
  }

  lemma RomsClose(t: string, p: nat, end: nat, id: string, roms: seq<Rom>)
    requires end <= |t| && Has(t, p, RomsBody(id, roms)) && p + |RomsBody(id, roms)| <= end
    ensures CloseFrom(t, p, end, '[', ']', 1, false, false)
         == CloseFrom(t, p + |RomsBody(id, roms)|, end, '[', ']', 1, false, false)
  {
    hide RomItems, CloseFrom, Has;
    var tail := if roms == [] then "" else "\n  ";
    HasAppend(t, p, RomItems(id, roms, true), tail);
    ItemsClose(t, p, end, id, roms, true);
    ClosesPastRaw(t, p + |RomItems(id, roms, true)|, end, '[', ']', 1, tail);
  }

  /** A key lookup passes over the system body: no string in it is taken for a key. */
  lemma SystemSkips(t: string, p: nat, end: nat, key: string, id: string, system: Option<string>)
    requires end <= |t| && Has(t, p, SystemBody(id, system)) && p + |SystemBody(id, system)| <= end
    requires key == "rom_overrides"
    ensures Find(t, p, end, key) == Find(t, p + |SystemBody(id, system)|, end, key)
  {
    hide FieldsText, Find, Has, ObjectText, IsName, Proper;
    if system.Some? && system.value != "" {
      var fs := SystemFields(id, system.value);
      FieldsAreProper(id, system.value, Rom("", ""));
      Names();
      SystemLookups(id, system.value);
      HasAppend(t, p, ITEM, ObjectText(Ggfe, fs) + "\n  ");
      HasAppend(t, p + |ITEM|, ObjectText(Ggfe, fs), "\n  ");
      ObjectParts(Ggfe, t, p + |ITEM|, fs);
      SkipsRaw(t, p, end, key, ITEM);
      SkipsRaw(t, p + |ITEM|, end, key, "{ ");
      FieldFound(Ggfe, t, p + |ITEM| + 2, end, fs, key);
      SkipsRaw(t, p + |ITEM| + |ObjectText(Ggfe, fs)|, end, key, "\n  ");
    }
  }

  lemma SystemLookups(id: string, profile: string)
    ensures Lookup(SystemFields(id, profile), "rom_overrides") == None
  {
    hide Lookup;
    LookupTwo("system_id", Text(id), "launch_profile", Text(profile), "rom_overrides");
  }

  // ---------- the whole file ----------

  lemma FindsSystem(id: string, o: Overrides)
    ensures var t, s := FileText(id, o), SystemBody(id, o.system);
            FindArray(t, "system_overrides") == Some((41, 41 + |s|)) && Has(t, 41, s)
  {
    hide FileOf, TwoMembers, SystemBody, RomsBody, Stored, CloseFrom, Find, Has, FindArray, IsName;
    var s, roms := SystemBody(id, o.system), RomsBody(id, Stored(o.roms));
    Names();
    BodiesStand(Ggfe, "system_overrides", s, "rom_overrides", roms);
    SystemCloses(FileText(id, o), 41, |FileText(id, o)|, id, o.system);
    FindsFirst(Ggfe, "system_overrides", s, "rom_overrides", roms);
  }

  lemma FindsRoms(id: string, o: Overrides)
    ensures var t, p, roms := FileText(id, o), 64 + |SystemBody(id, o.system)|, RomsBody(id, Stored(o.roms));
            FindArray(t, "rom_overrides") == Some((p, p + |roms|)) && Has(t, p, roms)
  {
    hide SystemBody, RomsBody, Stored, Has, IsName, TwoMembers, FileOf, FindArray;
    Names();
    RomsFound(id, o, "system_overrides", "rom_overrides");
  }

  lemma RomsFound(id: string, o: Overrides, key1: string, key2: string)
    requires IsName(key1) && IsName(key2) && key1 != "version" && key2 != "version" && |key1| == 16 && key2 == "rom_overrides"
    ensures var s, roms := SystemBody(id, o.system), RomsBody(id, Stored(o.roms));
            var t := FileOf(Ggfe, TwoMembers(Ggfe, key1, s, key2, roms));
            FindArray(t, key2) == Some((64 + |s|, 64 + |s| + |roms|)) && Has(t, 64 + |s|, roms)
  {
    hide FileOf, TwoMembers, SystemBody, RomsBody, Stored, CloseFrom, Find, Has, FindArray, IsName;
    var s, roms := SystemBody(id, o.system), RomsBody(id, Stored(o.roms));
    var t := FileOf(Ggfe, TwoMembers(Ggfe, key1, s, key2, roms));
    BodiesStand(Ggfe, key1, s, key2, roms);
    SystemSkips(t, 41, |t|, key2, id, o.system);
    RomsClose(t, 64 + |s|, |t|, id, Stored(o.roms));
    FindsSecond(Ggfe, key1, s, key2, roms);
  }

  // ---------- what comes back ----------

  /** The set a reload of the saved file gives. */
  function Reload(id: string, o: Overrides): Overrides {
    if |FileText(id, o)| > MAX_FILE || !IdReads(id) then EMPTY
    else Overrides(if o.system.Some? && o.system.value != "" then Some(Fit(Reads(Ggfe, o.system.value), PROFILE_SIZE)) else None,
                   Images(Stored(o.roms)))
  }

  predicate AllNamed(roms: seq<Rom>) { forall i | 0 <= i < |roms| :: roms[i].profile != "" }

  lemma {:induction false} StoredLength(roms: seq<Rom>)
    ensures |Stored(roms)| <= |roms|
    ensures |Stored(roms)| == |roms| ==> Stored(roms) == roms
    ensures |Stored(roms)| == |roms| <==> AllNamed(roms)
  {
    hide AllNamed;
    if roms != [] {
      var n := |roms| - 1;
      StoredLength(roms[..n]);
      AllNamedSnoc(roms[..n], roms[n]);
      assert roms == roms[..n] + [roms[n]];
    } else {
      NoneNamed();
    }
  }

  lemma NoneNamed()
    ensures AllNamed([])
  {}

  lemma AllNamedSnoc(roms: seq<Rom>, r: Rom)
    ensures AllNamed(roms + [r]) <==> AllNamed(roms) && r.profile != ""
  {
    var both := roms + [r];
    assert forall i | 0 <= i < |roms| :: both[i] == roms[i];
    if AllNamed(both) {
      assert both[|roms|] == r;
      forall i | 0 <= i < |roms| ensures roms[i].profile != "" {
        assert both[i].profile != "";
      }
    }
  }

  /** Every saved file reads back as `Reload` says, for every set and every system. */
  lemma SavedReads(id: string, o: Overrides)
    requires |o.roms| <= MAX_ROMS
    ensures Load(FileText(id, o), id) == Reload(id, o)
  {
    hide FileText, SystemBody, RomItems, Stored, Images, Has, LoadRoms, LoadSystem, FindArray, Fit, Reads;
    var t, s, roms := FileText(id, o), SystemBody(id, o.system), Stored(o.roms);
    FindsSystem(id, o);
    FindsRoms(id, o);
    SystemReads(t, 41, id, o.system);
    StoredLength(o.roms);
    var items, tail := RomItems(id, roms, true), if roms == [] then "" else "\n  ";
    HasAppend(t, 64 + |s|, items, tail);
    ItemsRead(t, 64 + |s|, 64 + |s| + |items| + |tail|, id, roms, true, []);
  }

  /** The sizes of the fields in memory. */
  predicate Fits(o: Overrides) {
    && |o.roms| <= MAX_ROMS
    && (o.system.Some? ==> |o.system.value| < PROFILE_SIZE)
    && forall i | 0 <= i < |o.roms| :: |o.roms[i].path| < PATH_SIZE && |o.roms[i].profile| < PROFILE_SIZE
  }

  /** What a set must meet to survive: no empty profile, no control byte, an id its buffer holds, a file within the read limit. */
  predicate Storable(id: string, o: Overrides) {
    && |FileText(id, o)| <= MAX_FILE
    && (o != EMPTY ==> |id| < ID_SIZE && Clean(Ggfe, id))
    && (o.system.Some? ==> o.system.value != "" && Clean(Ggfe, o.system.value))
    && AllNamed(o.roms)
    && forall i | 0 <= i < |o.roms| :: Clean(Ggfe, o.roms[i].profile) && Clean(Ggfe, o.roms[i].path)
  }

  lemma IdReadsIff(id: string)
    ensures IdReads(id) <==> |id| < ID_SIZE && Clean(Ggfe, id)
  {
    hide Reads;
    if |id| < ID_SIZE {
      SurvivesIff(Ggfe, id, ID_SIZE);
    }
  }

  lemma {:induction false} ImagesSame(roms: seq<Rom>)
    requires forall i | 0 <= i < |roms| :: |roms[i].path| < PATH_SIZE && |roms[i].profile| < PROFILE_SIZE
    ensures |Images(roms)| == |roms|
    ensures Images(roms) == roms <==> forall i | 0 <= i < |roms| :: Clean(Ggfe, roms[i].profile) && Clean(Ggfe, roms[i].path)
  {
    hide Fit, Reads, Clean;
    if roms != [] {
      ImagesSame(roms[1..]);
      SurvivesIff(Ggfe, roms[0].path, PATH_SIZE);
      SurvivesIff(Ggfe, roms[0].profile, PROFILE_SIZE);
      assert roms == [roms[0]] + roms[1..];
      assert Images(roms)[1..] == Images(roms[1..]);
    }
  }

  lemma EmptyFileIsShort(id: string)
    ensures |FileText(id, EMPTY)| <= MAX_FILE
  {
    hide Esc;
    assert Stored([]) == [];
    FileLiteral(id, EMPTY);
  }

  /** Load undoes save exactly for the storable sets. */
  lemma RoundTripIff(id: string, o: Overrides)
    requires Fits(o)
    ensures Load(FileText(id, o), id) == o <==> Storable(id, o)
  {
    hide FileText, Load, Stored, Images, Clean, Fit, Reads;
    SavedReads(id, o);
    IdReadsIff(id);
    EmptyFileIsShort(id);
    StoredLength(o.roms);
    if o.system.Some? {
      SurvivesIff(Ggfe, o.system.value, PROFILE_SIZE);
    }
    StoredFits(o.roms);
    forall i | 0 <= i < |Stored(o.roms)|
      ensures |Stored(o.roms)[i].path| < PATH_SIZE && |Stored(o.roms)[i].profile| < PROFILE_SIZE
    {
      assert Stored(o.roms)[i] in o.roms;
    }
    ImagesSame(Stored(o.roms));
  }

  lemma {:induction false} StoredFits(roms: seq<Rom>)
    ensures forall r :: r in Stored(roms) ==> r in roms
  {
    if roms != [] {
      StoredFits(roms[..|roms| - 1]);
    }
  }
}
