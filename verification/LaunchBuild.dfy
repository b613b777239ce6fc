/** Building the command line in its fixed buffer, step by step as the program does. */
module LaunchBuild {
  import opened Optional
  import opened Strings
  import opened ShellWord
  import opened LaunchPlan
  import opened Decimals
  import opened LaunchMeaning

  datatype Status = Done | Full {
    predicate IsFailure() { Full? }
    function PropagateFailure(): Status { this }
  }

  /** What stands before the next word: the words so far and a space. */
  function Head(items: seq<Item>): string { if items == [] then "" else Line(items) + " " }

  lemma HeadItem(items: seq<Item>, i: Item)
    ensures Line(items + [i]) == Head(items) + ItemText(i)
  {
    assert (items + [i])[..|items|] == items;
    assert "" + ItemText(i) == ItemText(i);
  }

  /** A longer line is a longer text. */
  lemma {:induction false} LineGrows(a: seq<Item>, b: seq<Item>)
    requires a <= b
    ensures |Line(a)| <= |Line(b)| && (a < b ==> |Head(a)| <= |Line(b)|)
    decreases |b|
  {
    hide Line;
    if a < b {
      var n := |b| - 1;
      assert b == b[..n] + [b[n]];
      HeadItem(b[..n], b[n]);
      assert a <= b[..n];
      LineGrows(a, b[..n]);
      LineEmpty();
      if |a| == n {
        assert a == b[..n];
      }
    } else {
      assert a == b;
    }
  }

  lemma LineEmpty()
    ensures Line([]) == ""
  {}

  lemma BodyStep(v: string, i: nat)
    requires i < |v|
    ensures QuotedBody(v[i..]) == (if v[i] == '\'' then "'\\''" else [v[i]]) + QuotedBody(v[i + 1..])
  {
    assert v[i..][1..] == v[i + 1..];
  }

  class CommandLine {
    var text: string

    constructor ()
      ensures text == ""
    {
      text := "";
    }

    method Append(s: string) returns (status: Status)
      modifies this
      ensures status.Done? <==> |old(text)| + |s| < TEXT_COMMAND_MAX
      ensures status.Done? ==> text == old(text) + s
    {
      if |text| + |s| + 1 > TEXT_COMMAND_MAX {
        return Full;
      }
      text := text + s;
      return Done;
    }

    method AppendQuoted(v: string) returns (status: Status)
      modifies this
      ensures status.Done? <==> |old(text)| + |Quote(v)| < TEXT_COMMAND_MAX
      ensures status.Done? ==> text == old(text) + Quote(v)
    {
      hide QuotedBody;
      ghost var before := text;
      ghost var body := QuotedBody(v);
      :- Append("'");
      assert v[0..] == v;
      for i := 0 to |v|
        invariant text + QuotedBody(v[i..]) == (before + "'") + body
      {
        BodyStep(v, i);
        ghost var rest := QuotedBody(v[i + 1..]);
        ghost var was := text;
        if v[i] == '\'' {
          :- Append("'\\''");
          assert (was + "'\\''") + rest == was + ("'\\''" + rest);
        } else {
          :- Append([v[i]]);
          assert (was + [v[i]]) + rest == was + ([v[i]] + rest);
        }
      }
      BodyEnd(v);
      assert text + "" == text;
      :- Append("'");
      assert text == before + ("'" + body + "'");
      return Done;
    }

    /** NAME='value' and a space. */
    method Assign(name: string, v: string, ghost done: seq<Item>) returns (status: Status)
      requires text == Head(done)
      modifies this
      ensures status.Done? <==> |Head(done + [Item(name, Some(v))])| < TEXT_COMMAND_MAX
      ensures status.Done? ==> text == Head(done + [Item(name, Some(v))])
    {
      hide Line, Quote;
      ghost var next := done + [Item(name, Some(v))];
      HeadItem(done, Item(name, Some(v)));
      assert Head(next) == ((Head(done) + name) + Quote(v)) + " ";
      :- Append(name);
      :- AppendQuoted(v);
      :- Append(" ");
      return Done;
    }

    /** The shell, its applet when it is BusyBox, and the script. */
    method AppendScript(shell: string, script: string, ghost done: seq<Item>) returns (status: Status)
      requires text == Head(done) && script != ""
      modifies this
      ensures status.Done? <==> |Line(done + Invocation(shell, script))| < TEXT_COMMAND_MAX
      ensures status.Done? ==> text == Line(done + Invocation(shell, script))
    {
      hide Line, Quote, Busybox, Head;
      ghost var a := done + [Safely(shell)];
      HeadItem(done, Safely(shell));
      ghost var b := if Busybox(shell) then a + [Plainly("sh")] else a;
      HeadItem(a, Plainly("sh"));
      HeadItem(b, Safely(script));
      assert b + [Safely(script)] == done + Invocation(shell, script);
      HeadOf(a);
      HeadOf(b);
      ItemTexts("sh", shell);
      ItemTexts("sh", script);
      :- AppendQuoted(shell);
      assert text == Line(a);
      if Busybox(shell) {
        :- Append(" sh");
        assert text == (Line(a) + " ") + "sh";
      }
      :- Append(" ");
      :- AppendQuoted(script);
      return Done;
    }

    /** A flag and its quoted value. */
    method AppendFlag(flag: string, v: string, ghost done: seq<Item>) returns (status: Status)
      requires done != [] && text == Line(done)
      modifies this
      ensures status.Done? <==> |Line(done + [Plainly(flag), Safely(v)])| < TEXT_COMMAND_MAX
      ensures status.Done? ==> text == Line(done + [Plainly(flag), Safely(v)])
    {
      hide Line, Quote, Head;
      ghost var a := done + [Plainly(flag)];
      assert a + [Safely(v)] == done + [Plainly(flag), Safely(v)];
      HeadItem(done, Plainly(flag));
      HeadItem(a, Safely(v));
      HeadOf(done);
      HeadOf(a);
      ItemTexts(flag, v);
      assert ((Line(done) + " ") + flag) + " " == Line(done) + (" " + flag + " ");
      :- Append(" " + flag + " ");
      :- AppendQuoted(v);
      return Done;
    }

    /** A flag that is given only when its value is not empty. */
    method AppendChoice(flag: string, v: string, ghost done: seq<Item>) returns (status: Status)
      requires done != [] && text == Line(done)
      modifies this
      ensures status.Done? <==> v == "" || |Line(done + Choice(flag, v))| < TEXT_COMMAND_MAX
      ensures status.Done? ==> text == Line(done + Choice(flag, v))
    {
      if v != "" {
        :- AppendFlag(flag, v, done);
      } else {
        assert done + [] == done;
      }
      return Done;
    }

    /** A quoted argument after a space. */
    method AppendArgument(v: string, ghost done: seq<Item>) returns (status: Status)
      requires done != [] && text == Line(done)
      modifies this
      ensures status.Done? <==> |Line(done + [Safely(v)])| < TEXT_COMMAND_MAX
      ensures status.Done? ==> text == Line(done + [Safely(v)])
    {
      hide Line, Quote, Head;
      HeadItem(done, Safely(v));
      HeadOf(done);
      ItemTexts("", v);
      :- Append(" ");
      :- AppendQuoted(v);
      return Done;
    }
  }

  lemma BodyEnd(v: string)
    ensures QuotedBody(v[|v|..]) == ""
  {}

  lemma HeadOf(items: seq<Item>)
    requires items != []
    ensures Head(items) == Line(items) + " "
  {}

  lemma ItemTexts(flag: string, v: string)
    ensures ItemText(Plainly(flag)) == flag && ItemText(Safely(v)) == Quote(v)
  {}

  // ---------- the kinds ----------

  /** What a build of the wanted launch must leave: the whole line, or a refusal because it does not fit. */
  predicate Builds(l: Launch, status: Status, text: string) {
    && (status.Done? <==> |Line(Items(l))| < TEXT_COMMAND_MAX)
    && (status.Done? ==> text == Line(Items(l)))
  }

  method AppendOptions(q: Request, c: CommandLine, ghost a3: seq<Item>) returns (status: Status)
    requires a3 != [] && c.text == Line(a3)
    modifies c
    ensures status.Done? ==> c.text == Line(WithOptions(a3, q))
    ensures status.Full? ==> |Line(WithOptions(a3, q))| >= TEXT_COMMAND_MAX
  {
    hide Line, Choice, Decimal;
    var o := q.options;
    ghost var a4 := a3 + Choice("--cpu", q.cpu);
    ghost var a5 := a4 + Choice("--audio", o.audio);
    ghost var a6 := a5 + Choice("--audio-latency", Latency(o.latency));
    ghost var a7 := a6 + Choice("--dosbox-pure-force60fps", o.force60);
    LineExtends(a7, Choice("--dosbox-pure-cycles", o.cycles));
    LineExtends(a6, Choice("--dosbox-pure-force60fps", o.force60));
    LineExtends(a5, Choice("--audio-latency", Latency(o.latency)));
    LineExtends(a4, Choice("--audio", o.audio));
    :- c.AppendChoice("--cpu", q.cpu, a3);
    :- c.AppendChoice("--audio", o.audio, a4);
    :- c.AppendChoice("--audio-latency", Latency(o.latency), a5);
    :- c.AppendChoice("--dosbox-pure-force60fps", o.force60, a6);
    :- c.AppendChoice("--dosbox-pure-cycles", o.cycles, a7);
    return Done;
  }

  lemma OptionsExtend(a: seq<Item>, q: Request)
    ensures |Line(a)| <= |Line(WithOptions(a, q))| && a <= WithOptions(a, q)
  {
    hide Line, Choice, Decimal;
    LineGrows(a, WithOptions(a, q));
  }

  method BuildRetroarch(d: Device, q: Request, id: string, c: CommandLine) returns (status: Status)
    requires Retroarch(d, q, id).Start? && c.text == ""
    modifies c
    ensures Builds(Retroarch(d, q, id).launch, status, c.text)
  {
    hide Line, WithOptions, Invocation, Under, RetroCore, JoinPath;
    var shell := d.shell.value;
    var launcher, core := Under(q.root, "bin", "plumos-retroarch-launch").value, RetroCore(TEXT_PATH_MAX, q.root, id).value;
    ghost var a0 := Invocation(shell, launcher);
    ghost var a1 := a0 + [Plainly("--system"), Safely(q.system)];
    ghost var a2 := a1 + [Plainly("--core"), Safely(core)];
    ghost var a3 := a2 + [Plainly("--rom"), Safely(q.rom)];
    ghost var a8 := WithOptions(a3, q);
    ghost var all := a8 + [Plainly("--safe-exit"), Plainly("false")];
    NoAssigns(Retroarch(d, q, id).launch);
    UnderIsPath(q.root, "bin", "plumos-retroarch-launch");
    LineExtends(a8, [Plainly("--safe-exit"), Plainly("false")]);
    OptionsExtend(a3, q);
    LineExtends(a2, [Plainly("--rom"), Safely(q.rom)]);
    LineExtends(a1, [Plainly("--core"), Safely(core)]);
    LineExtends(a0, [Plainly("--system"), Safely(q.system)]);
    InvocationBegins(shell, launcher);
    assert [] + a0 == a0;
    :- c.AppendScript(shell, launcher, []);
    :- c.AppendFlag("--system", q.system, a0);
    :- c.AppendFlag("--core", core, a1);
    :- c.AppendFlag("--rom", q.rom, a2);
    :- AppendOptions(q, c, a3);
    SafeExitText(a8);
    :- c.Append(" --safe-exit false");
    return Done;
  }

  lemma NoAssigns(l: Launch)
    requires l.assigns == []
    ensures Items(l) == l.argv
  {
    assert AssignItems([]) == [];
  }

  lemma LineExtends(a: seq<Item>, b: seq<Item>)
    ensures |Line(a)| <= |Line(a + b)| && (b != [] ==> |Head(a)| <= |Line(a + b)|)
  {
    LineGrows(a, a + b);
  }

  lemma UnderIsPath(root: string, dir: string, file: string)
    requires file != ""
    ensures Under(root, dir, file) != Some("")
  {}

  lemma SafeExitText(a: seq<Item>)
    requires a != []
    ensures Line(a + [Plainly("--safe-exit"), Plainly("false")]) == Line(a) + " --safe-exit false"
  {
    hide Line;
    var b := a + [Plainly("--safe-exit")];
    HeadItem(a, Plainly("--safe-exit"));
    HeadItem(b, Plainly("false"));
    assert b + [Plainly("false")] == a + [Plainly("--safe-exit"), Plainly("false")];
    assert ((Line(a) + " " + "--safe-exit") + " ") + "false" == Line(a) + " --safe-exit false";
  }

  lemma PolicyItems(name: string, v: string)
    ensures AssignItems(Policy(name, v)) == if v == "" then [] else [Item(name + "=", Some(v))]
  {}

  method AssignPolicy(name: string, v: string, c: CommandLine) returns (status: Status)
    requires c.text == ""
    modifies c
    ensures status.Done? ==> c.text == Head(AssignItems(Policy(name, v)))
    ensures status.Done? <==> v == "" || |Head(AssignItems(Policy(name, v)))| < TEXT_COMMAND_MAX
  {
    hide Line;
    PolicyItems(name, v);
    if v != "" {
      assert [] + [Item(name + "=", Some(v))] == [Item(name + "=", Some(v))];
      :- c.Assign(name + "=", v, []);
    }
    return Done;
  }

  method BuildPyxel(d: Device, q: Request, profile: string, c: CommandLine) returns (status: Status)
    requires Pyxel(d, q, profile).Start? && c.text == ""
    modifies c
    ensures Builds(Pyxel(d, q, profile).launch, status, c.text)
  {
    hide Line, Invocation, Under, JoinPath, PyxelLauncher, PyxelCommand, Policy, AssignItems, Head;
    var shell := d.shell.value;
    var launcher, command := Under(q.root, "bin", PyxelLauncher(profile).value).value, PyxelCommand(q.rom).value;
    ghost var p := AssignItems(Policy("PLUMOS_PYXEL_CPU_POLICY", q.cpu));
    ghost var a0 := p + Invocation(shell, launcher);
    ghost var rest := [Plainly("-m"), Plainly("pyxel"), Plainly(command), Safely(q.rom)];
    ghost var all := a0 + rest;
    assert all == Items(Pyxel(d, q, profile).launch);
    LineExtends(a0, rest);
    LineExtends(p, Invocation(shell, launcher));
    InvocationBegins(shell, launcher);
    NonemptyLauncher(profile);
    UnderIsPath(q.root, "bin", PyxelLauncher(profile).value);
    :- AssignPolicy("PLUMOS_PYXEL_CPU_POLICY", q.cpu, c);
    :- c.AppendScript(shell, launcher, p);
    PyxelText(a0, command, q.rom);
    :- c.Append(" -m pyxel ");
    :- c.Append(command);
    :- c.Append(" ");
    :- c.AppendQuoted(q.rom);
    return Done;
  }

  lemma NonemptyLauncher(profile: string)
    ensures PyxelLauncher(profile) != Some("")
  {}

  lemma PyxelText(a: seq<Item>, command: string, rom: string)
    requires a != []
    ensures Line(a + [Plainly("-m"), Plainly("pyxel"), Plainly(command), Safely(rom)])
         == (((Line(a) + " -m pyxel ") + command) + " ") + Quote(rom)
  {
    hide Line, Quote;
    var a1, a2 := a + [Plainly("-m")], a + [Plainly("-m"), Plainly("pyxel")];
    var a3 := a2 + [Plainly(command)];
    HeadItem(a, Plainly("-m"));
    HeadItem(a1, Plainly("pyxel"));
    HeadItem(a2, Plainly(command));
    HeadItem(a3, Safely(rom));
    assert a1 + [Plainly("pyxel")] == a2;
    assert a3 + [Safely(rom)] == a + [Plainly("-m"), Plainly("pyxel"), Plainly(command), Safely(rom)];
    assert " " + "-m" + " " + "pyxel" + " " == " -m pyxel ";
    ItemTexts(command, rom);
    ItemTexts("-m", rom);
    ItemTexts("pyxel", rom);
    assert ((((Line(a) + " ") + "-m") + " ") + "pyxel") + " " == Line(a) + (" " + "-m" + " " + "pyxel" + " ");
  }

  method BuildPicoarch(d: Device, q: Request, id: string, c: CommandLine) returns (status: Status)
    requires Picoarch(d, q, id).Start? && c.text == ""
    modifies c
    ensures Builds(Picoarch(d, q, id).launch, status, c.text)
  {
    hide Line, Invocation, Under, JoinPath, PicoCore, Policy, AssignItems, Head;
    var shell := d.shell.value;
    var launcher := Under(q.root, "bin", "plumos-picoarch-launch").value;
    ghost var p := AssignItems(Policy("PLUMOS_PICOARCH_CPU_POLICY", q.cpu));
    ghost var p1 := p + [Item("PLUMOS_PICOARCH_SYSTEM=", Some(q.system))];
    ghost var a0 := p1 + Invocation(shell, launcher);
    ghost var a1 := a0 + [Safely(id)];
    ghost var all := a1 + [Safely(q.rom)];
    SystemItems(Policy("PLUMOS_PICOARCH_CPU_POLICY", q.cpu), q.system);
    assert all == Items(Picoarch(d, q, id).launch);
    LineExtends(a1, [Safely(q.rom)]);
    LineExtends(a0, [Safely(id)]);
    InvocationBegins(shell, launcher);
    LineExtends(p1, Invocation(shell, launcher));
    HeadExtends(p, Item("PLUMOS_PICOARCH_SYSTEM=", Some(q.system)));
    UnderIsPath(q.root, "bin", "plumos-picoarch-launch");
    :- AssignPolicy("PLUMOS_PICOARCH_CPU_POLICY", q.cpu, c);
    :- c.Assign("PLUMOS_PICOARCH_SYSTEM=", q.system, p);
    :- c.AppendScript(shell, launcher, p1);
    :- c.AppendArgument(id, a0);
    :- c.AppendArgument(q.rom, a1);
    return Done;
  }

  lemma SystemItems(assigns: seq<(string, string)>, system: string)
    ensures AssignItems(assigns + [("PLUMOS_PICOARCH_SYSTEM", system)])
         == AssignItems(assigns) + [Item("PLUMOS_PICOARCH_SYSTEM=", Some(system))]
  {
    assert "PLUMOS_PICOARCH_SYSTEM" + "=" == "PLUMOS_PICOARCH_SYSTEM=";
  }

  lemma HeadExtends(a: seq<Item>, i: Item)
    ensures |Head(a)| <= |Head(a + [i])|
  {
    hide Line;
    LineExtends(a, [i]);
  }

  method BuildStandalone(d: Device, q: Request, emulator: string, c: CommandLine) returns (status: Status)
    requires Standalone(d, q, emulator).Start? && c.text == ""
    modifies c
    ensures Builds(Standalone(d, q, emulator).launch, status, c.text)
  {
    hide Line, Invocation, Under, JoinPath, Policy, AssignItems, Head, Content;
    var shell := d.shell.value;
    var launcher := Under(q.root, "bin", "plumos-standalone-launch").value;
    var content := Content(emulator, q.rom);
    ghost var p := AssignItems(Policy("PLUMOS_STANDALONE_CPU_POLICY", q.cpu));
    ghost var a0 := p + Invocation(shell, launcher);
    ghost var a1 := a0 + [Safely(emulator)];
    ghost var all := a1 + [Safely(content)];
    assert all == Items(Standalone(d, q, emulator).launch);
    LineExtends(a1, [Safely(content)]);
    LineExtends(a0, [Safely(emulator)]);
    InvocationBegins(shell, launcher);
    LineExtends(p, Invocation(shell, launcher));
    UnderIsPath(q.root, "bin", "plumos-standalone-launch");
    :- AssignPolicy("PLUMOS_STANDALONE_CPU_POLICY", q.cpu, c);
    :- c.AppendScript(shell, launcher, p);
    :- c.AppendArgument(emulator, a0);
    :- c.AppendArgument(content, a1);
    return Done;
  }

  method BuildExternal(d: Device, q: Request, c: CommandLine) returns (status: Status)
    requires External(d, q).Start? && c.text == ""
    modifies c
    ensures Builds(External(d, q).launch, status, c.text)
  {
    hide Line, Invocation, JoinPath;
    var shell := d.shell.value;
    NoAssigns(External(d, q).launch);
    if q.profile == "external:port" {
      var launcher := JoinPath(PATH_MAX, q.root, "bin/plumos-portmaster-port-launch").value;
      JoinIsPath(PATH_MAX, q.root, "bin/plumos-portmaster-port-launch");
      ghost var a0 := Invocation(shell, launcher);
      LineExtends(a0, [Safely(q.rom)]);
      InvocationBegins(shell, launcher);
      assert [] + a0 == a0;
      :- c.AppendScript(shell, launcher, []);
      :- c.AppendArgument(q.rom, a0);
    } else {
      assert [] + Invocation(shell, q.rom) == Invocation(shell, q.rom);
      :- c.AppendScript(shell, q.rom, []);
    }
    return Done;
  }

  lemma JoinIsPath(size: nat, a: string, b: string)
    requires b != ""
    ensures JoinPath(size, a, b) != Some("")
  {}

  // ---------- the plan ----------

  /** Whether the launcher, the core and the ROM a kind needs are there. */
  predicate Ready(d: Device, q: Request) {
    var mmf := Present(d, q.root, "config/enable-mmf-ra-runtime") || Present(d, q.root, "config/enable-mmf-onion-compatible-ra");
    var onion := Present(d, q.root, "config/enable-mmf-emulator-runtime")
                 || Present(d, q.root, "config/enable-mmf-onion-compatible-emulators");
    && WantedFor(d, q).Start?
    && q.rom in d.roms
    && if Starts(q.profile, "retroarch:") then
         && Under(q.root, "bin", "plumos-retroarch-launch").value in d.files
         && (mmf ==> Present(d, q.root, "bin/plumos-retroarch-mmf-launch") || Present(d, q.root, "bin/plumos-retroarch-onion-launch"))
         && RetroCore(TEXT_PATH_MAX, q.root, After(q.profile, "retroarch:")).value in d.files
       else if Starts(q.profile, "pyxel:") then
         Under(q.root, "bin", PyxelLauncher(After(q.profile, "pyxel:")).value).value in d.files
       else if Starts(q.profile, "picoarch:") then
         && Under(q.root, "bin", "plumos-picoarch-launch").value in d.files
         && (onion ==> Present(d, q.root, "bin/plumos-picoarch-onion-launch") && Present(d, q.root, "bin/plumos-picoarch-launch.noncompat"))
         && PicoCore(d.files, q.root, After(q.profile, "picoarch:")).value in d.files
       else if Starts(q.profile, "standalone:") then
         Under(q.root, "bin", "plumos-standalone-launch").value in d.files
       else q.profile == "external:port" ==> JoinPath(PATH_MAX, q.root, "bin/plumos-portmaster-port-launch").value in d.files
  }

  /** A command may be run exactly when everything it names is there. */
  lemma ReadyIff(d: Device, q: Request)
    ensures Ready(d, q) <==> CanRun(d, q)
  {
    hide Ready, CanRun, Starts, After, Detail, Asks;
    KindIs(q.profile, "retroarch:");
    KindIs(q.profile, "pyxel:");
    KindIs(q.profile, "picoarch:");
    KindIs(q.profile, "standalone:");
    KindIs(q.profile, "external:");
    WantedIsGood(d, q);
    if !Askable(d, q, q.rom) {
      NotReady(d, q);
      NotRun(d, q);
    } else if Kind(q.profile, "retroarch:") {
      RetroarchReady(d, q);
    } else if Kind(q.profile, "pyxel:") {
      PyxelReady(d, q);
    } else if Kind(q.profile, "picoarch:") {
      PicoarchReady(d, q);
    } else {
      OthersReady(d, q);
    }
  }

  lemma NotRun(d: Device, q: Request)
    requires !Askable(d, q, q.rom)
    ensures !CanRun(d, q)
  {}

  lemma RetroarchReady(d: Device, q: Request)
    requires WantedFor(d, q).Start? && Askable(d, q, q.rom) && Kind(q.profile, "retroarch:")
    ensures Ready(d, q) <==> CanRun(d, q)
  {
    hide WantedFor, In, Present, There, Under, RetroCore, CorePath, PicoCore, JoinPath;
    var id := Detail(q.profile, "retroarch:");
    KindIs(q.profile, "retroarch:");
    UnderIs(q.root, "bin", "plumos-retroarch-launch");
    RetroarchBin();
    RetroCoreIs(TEXT_PATH_MAX, q.root, id);
    ConfigIs(q.root);
    PresentIff(d, q, "config/enable-mmf-ra-runtime", "bin/plumos-retroarch-launch");
    PresentIff(d, q, "config/enable-mmf-onion-compatible-ra", "bin/plumos-retroarch-launch");
    PresentIff(d, q, "bin/plumos-retroarch-mmf-launch", "bin/plumos-retroarch-launch");
    PresentIff(d, q, "bin/plumos-retroarch-onion-launch", "bin/plumos-retroarch-launch");
    ThereIs(d, q, "bin/plumos-retroarch-launch");
  }

  lemma ThereIs(d: Device, q: Request, file: string)
    ensures There(d, q, file) <==> In(q.root, file) in d.files
  {}

  lemma PyxelReady(d: Device, q: Request)
    requires WantedFor(d, q).Start? && Askable(d, q, q.rom) && Kind(q.profile, "pyxel:") && !Kind(q.profile, "retroarch:")
    ensures Ready(d, q) <==> CanRun(d, q)
  {
    hide WantedFor, In, Present, There, Under, PyxelLauncher, PyxelDevice, PyxelScript, EndsLike, PicoCore, RetroCore, JoinPath;
    KindIs(q.profile, "retroarch:");
    KindIs(q.profile, "pyxel:");
    PyxelNames(q.profile);
    UnderIs(q.root, "bin", PyxelLauncher(Detail(q.profile, "pyxel:")).value);
    ThereIs(d, q, PyxelScript(q.profile));
  }

  lemma PicoarchReady(d: Device, q: Request)
    requires WantedFor(d, q).Start? && Askable(d, q, q.rom) && Kind(q.profile, "picoarch:")
    requires !Kind(q.profile, "retroarch:") && !Kind(q.profile, "pyxel:")
    ensures Ready(d, q) <==> CanRun(d, q)
  {
    hide WantedFor, In, Present, There, Under, RetroCore, CorePath, PicoCore, PicoPath, JoinPath;
    var id := Detail(q.profile, "picoarch:");
    KindIs(q.profile, "retroarch:");
    KindIs(q.profile, "pyxel:");
    KindIs(q.profile, "picoarch:");
    UnderIs(q.root, "bin", "plumos-picoarch-launch");
    PicoarchBin();
    PicoCoreIs(d.files, q.root, id);
    RootFits(q.root);
    PresentIff(d, q, "config/enable-mmf-emulator-runtime", "bin/plumos-picoarch-launch");
    PresentIff(d, q, "config/enable-mmf-onion-compatible-emulators", "bin/plumos-picoarch-launch");
    PresentIff(d, q, "bin/plumos-picoarch-onion-launch", "bin/plumos-picoarch-launch");
    PresentIff(d, q, "bin/plumos-picoarch-launch.noncompat", "bin/plumos-picoarch-launch");
    ThereIs(d, q, "bin/plumos-picoarch-launch");
  }

  lemma OthersReady(d: Device, q: Request)
    requires WantedFor(d, q).Start? && Askable(d, q, q.rom)
    requires !Kind(q.profile, "retroarch:") && !Kind(q.profile, "pyxel:") && !Kind(q.profile, "picoarch:")
    ensures Ready(d, q) <==> CanRun(d, q)
  {
    hide WantedFor, In, Present, There, Under, RetroCore, PicoCore, JoinPath;
    KindIs(q.profile, "retroarch:");
    KindIs(q.profile, "pyxel:");
    KindIs(q.profile, "picoarch:");
    KindIs(q.profile, "standalone:");
    UnderIs(q.root, "bin", "plumos-standalone-launch");
    StandaloneBin();
    JoinIs(PATH_MAX, q.root, "bin/plumos-portmaster-port-launch");
    ThereIs(d, q, "bin/plumos-standalone-launch");
    ThereIs(d, q, "bin/plumos-portmaster-port-launch");
  }

  /** What a plan without a refusal is worth: told from the request alone. */
  predicate PlanMeets(d: Device, q: Request, plan: Plan) {
    var cut := q.(rom := if |q.rom| < 1024 then q.rom else "", cpu := if |q.cpu| < 32 then q.cpu else "");
    && (plan.canExecute <==> CanRun(d, cut))
    && (d.Valid() ==> (plan.command != "" <==> Askable(d, q, cut.rom)))
    && (d.Valid() && plan.command != "" ==>
          d.shell.Some? && ShellReads(plan.command).Some? && Asks(d, q, cut.rom, cut.cpu, ShellReads(plan.command).value))
  }

  lemma MeetsPlan(d: Device, q: Request, plan: Plan)
    requires var w := WantedFor(d, Cut(q)); !w.Refuse? && plan == Plan(if w.Start? then Line(Items(w.launch)) else "", Ready(d, Cut(q)))
    ensures PlanMeets(d, q, plan)
  {
    hide WantedFor, Line, Items, Ready, CanRun, ShellReads, ItemValues, Asks, Askable;
    WantedIsGood(d, Cut(q));
    ReadyIff(d, Cut(q));
    CutKeeps(d, q);
    if d.Valid() && WantedFor(d, Cut(q)).Start? {
      CommandIsWanted(d, Cut(q));
      NothingReads();
    }
  }

  lemma NothingReads()
    ensures ShellReads("") == None
  {}

  /** What is asked depends on the ROM path and the policy only as they are given. */
  lemma CutKeeps(d: Device, q: Request)
    ensures Askable(d, Cut(q), Cut(q).rom) <==> Askable(d, q, Cut(q).rom)
    ensures d.shell.Some? ==> forall c :: Asks(d, Cut(q), Cut(q).rom, Cut(q).cpu, c) <==> Asks(d, q, Cut(q).rom, Cut(q).cpu, c)
  {
    hide In, CorePath, PicoPath, Script, Given, Env, EndsLike, DirectoryOf, PyxelScript, PyxelDevice;
  }

  datatype Plan = Plan(command: string, canExecute: bool)

  /** The plan, or nothing when a path or the command line does not fit. It is made from the request as the plan holds it. */
  method BuildLaunchPlan(d: Device, request: Request) returns (plan: Option<Plan>)
    ensures var w := WantedFor(d, Cut(request));
            && (plan.Some? <==> !w.Refuse? && (w.Start? ==> |Line(Items(w.launch))| < 8192))
            && (plan.Some? ==> plan.value == Plan(if w.Start? then Line(Items(w.launch)) else "", Ready(d, Cut(request))))
    ensures plan.Some? && WantedFor(d, Cut(request)).Start? && d.Valid() ==>
              (ReadAs(plan.value.command, WantedFor(d, request)) <==> Uncut(request))
    ensures plan.Some? ==> PlanMeets(d, request, plan.value)
  {
    hide Retroarch, Pyxel, Picoarch, Standalone, External, Line, Ready, Items, ReadAs, Uncut, PlanMeets, Starts;
    var q := request.(rom := Copied(request.rom, TEXT_PATH_MAX), cpu := Copied(request.cpu, POLICY_MAX));
    var wanted := WantedFor(d, q);
    if wanted.Refuse? {
      return None;
    }
    if wanted.NoCommand? {
      assert !Ready(d, q) by { NotReady(d, q); }
      MeetsPlan(d, request, Plan("", false));
      return Some(Plan("", false));
    }
    var c := new CommandLine();
    var status: Status;
    if Starts(q.profile, "retroarch:") {
      status := BuildRetroarch(d, q, After(q.profile, "retroarch:"), c);
    } else if Starts(q.profile, "pyxel:") {
      status := BuildPyxel(d, q, After(q.profile, "pyxel:"), c);
    } else if Starts(q.profile, "picoarch:") {
      status := BuildPicoarch(d, q, After(q.profile, "picoarch:"), c);
    } else if Starts(q.profile, "standalone:") {
      status := BuildStandalone(d, q, After(q.profile, "standalone:"), c);
    } else {
      status := BuildExternal(d, q, c);
    }
    if status.Full? {
      return None;
    }
    if d.Valid() {
      ReadsAskedIff(d, request);
    }
    MeetsPlan(d, request, Plan(c.text, Ready(d, q)));
    return Some(Plan(c.text, Ready(d, q)));
  }

  lemma NotReady(d: Device, q: Request)
    requires !WantedFor(d, q).Start?
    ensures !Ready(d, q)
  {}

  lemma Among(items: seq<Item>, v: string)
    requires Safely(v) in items
    ensures v in ItemValues(items)
  {
    var i :| 0 <= i < |items| && items[i] == Safely(v);
    assert ItemValues(items)[i] == "" + v == v;
  }

  predicate HasRom(items: seq<Item>, q: Request) {
    Safely(q.rom) in items
    || (q.profile == "standalone:easyrpg" && Extension(q.rom) == Some("ldb") && Safely(Dirname(q.rom)) in items)
  }

  lemma RetroarchHasRom(d: Device, q: Request, id: string)
    requires Retroarch(d, q, id).Start?
    ensures HasRom(Retroarch(d, q, id).launch.argv, q)
  {
    hide WithOptions, Invocation, Under, RetroCore, JoinPath;
    var launcher, core := Under(q.root, "bin", "plumos-retroarch-launch").value, RetroCore(TEXT_PATH_MAX, q.root, id).value;
    var a2 := Invocation(d.shell.value, launcher) + [Plainly("--system"), Safely(q.system)] + [Plainly("--core"), Safely(core)];
    var a3 := a2 + [Plainly("--rom"), Safely(q.rom)];
    assert a3[|a2| + 1] == Safely(q.rom);
    OptionsExtend(a3, q);
    assert WithOptions(a3, q)[|a2| + 1] == Safely(q.rom);
  }

  lemma OthersHaveRom(d: Device, q: Request, s: string)
    ensures Pyxel(d, q, s).Start? ==> HasRom(Pyxel(d, q, s).launch.argv, q)
    ensures Picoarch(d, q, s).Start? ==> HasRom(Picoarch(d, q, s).launch.argv, q)
    ensures External(d, q).Start? ==> HasRom(External(d, q).launch.argv, q)
    ensures Standalone(d, q, s).Start? && "standalone:" + s == q.profile ==> HasRom(Standalone(d, q, s).launch.argv, q)
  {
    hide Under, JoinPath, PicoCore, PyxelCommand, PyxelLauncher, Extension, Dirname;
  }

  lemma WantedHasRom(d: Device, q: Request)
    requires WantedFor(d, q).Start?
    ensures HasRom(WantedFor(d, q).launch.argv, q)
  {
    hide Retroarch, Pyxel, Picoarch, Standalone, External, HasRom;
    if Starts(q.profile, "retroarch:") {
      RetroarchHasRom(d, q, After(q.profile, "retroarch:"));
    } else if Starts(q.profile, "pyxel:") {
      OthersHaveRom(d, q, After(q.profile, "pyxel:"));
    } else if Starts(q.profile, "picoarch:") {
      OthersHaveRom(d, q, After(q.profile, "picoarch:"));
    } else if Starts(q.profile, "standalone:") {
      assert "standalone:" + After(q.profile, "standalone:") == q.profile;
      OthersHaveRom(d, q, After(q.profile, "standalone:"));
    } else {
      OthersHaveRom(d, q, "");
    }
  }

  /** A plan that may be executed carries the ROM path whole: a path too long for its buffer never runs. */
  lemma ReadyKeepsRom(d: Device, request: Request)
    requires d.Valid() && Ready(d, Cut(request))
    ensures |request.rom| < TEXT_PATH_MAX
    ensures var argv := ItemValues(WantedFor(d, Cut(request)).launch.argv);
            request.rom in argv
            || (request.profile == "standalone:easyrpg" && Extension(request.rom) == Some("ldb") && Dirname(request.rom) in argv)
  {
    hide Extension, Dirname, ItemValues, WantedFor;
    var q := Cut(request);
    var argv := WantedFor(d, q).launch.argv;
    WantedHasRom(d, q);
    Among(argv, if Safely(q.rom) in argv then q.rom else Dirname(q.rom));
  }

  // ---------- a path that is too long ----------

  lemma {:induction false} BodyLength(v: string)
    ensures |QuotedBody(v)| <= 4 * |v|
  {
    if v != "" { BodyLength(v[1..]); }
  }

  /** A port with a ROM path of 1024 characters: the plan is accepted, and its command passes an empty path. */
  lemma LongRomIsCut()
    ensures exists d: Device, q: Request ::
              && d.Valid() && |q.rom| == TEXT_PATH_MAX && WantedFor(d, Cut(q)).Start?
              && |Line(Items(WantedFor(d, Cut(q)).launch))| < TEXT_COMMAND_MAX
              && !ReadAs(Line(Items(WantedFor(d, Cut(q)).launch)), WantedFor(d, q))
  {
    hide ReadAs, Line, Busybox;
    var d := Device(Some("/bin/sh"), {}, {});
    var q := Request("/r", "s", seq(TEXT_PATH_MAX, _ => 'a'), "external:port", "", Options("", 0, "", ""));
    var c := Cut(q);
    assert c.rom == "";
    PortProfile();
    var launcher := "/r" + "/" + "bin/plumos-portmaster-port-launch";
    assert "/r"[1] == 'r' && "bin/plumos-portmaster-port-launch"[0] == 'b';
    assert JoinPath(PATH_MAX, "/r", "bin/plumos-portmaster-port-launch") == Some(launcher);
    var w := WantedFor(d, c);
    assert w == External(d, c);
    ShortLine("/bin/sh", launcher, "");
    NoAssigns(w.launch);
    ReadsAskedIff(d, q);
  }

  lemma PortProfile()
    ensures var p := "external:port"; !Starts(p, "retroarch:") && !Starts(p, "pyxel:") && !Starts(p, "picoarch:")
                                      && !Starts(p, "standalone:") && Starts(p, "external:")
  {
    var p := "external:port";
    assert p[0] == 'e' && "retroarch:"[0] == 'r' && "pyxel:"[0] == "picoarch:"[0] == 'p' && "standalone:"[0] == 's';
  }

  lemma ShortLine(shell: string, script: string, v: string)
    requires |shell| + |script| + |v| < 100
    ensures |Line(Invocation(shell, script) + [Safely(v)])| < TEXT_COMMAND_MAX
  {
    hide Line, Busybox;
    BodyLength(shell);
    BodyLength(script);
    BodyLength(v);
    var a: seq<Item> := [Safely(shell)];
    var b := if Busybox(shell) then a + [Plainly("sh")] else a;
    HeadItem([], Safely(shell));
    HeadItem(a, Plainly("sh"));
    HeadItem(b, Safely(script));
    HeadItem(b + [Safely(script)], Safely(v));
    assert [] + a == a;
    assert b + [Safely(script)] == Invocation(shell, script);
  }
}
