/** From a launch profile to the command line, and what a shell makes of that line. */
module LaunchPlan {
  import opened Optional
  import opened Strings
  import opened ShellWord
  import opened Decimals

  const TEXT_COMMAND_MAX: nat := 8192
  const TEXT_PATH_MAX: nat := 1024
  const PATH_MAX: nat := 4096

  // ---------- paths ----------

  function JoinPath(size: nat, a: string, b: string): Option<string> {
    var joined := if b != "" && b[0] == '/' then b
                  else a + (if a != "" && a[|a| - 1] != '/' then "/" else "") + b;
    if |joined| < size then Some(joined) else None
  }

  function Under(root: string, dir: string, file: string): Option<string> {
    match JoinPath(PATH_MAX, root, dir)
    case None => None
    case Some(d) => JoinPath(TEXT_PATH_MAX, d, file)
  }

  function LastIndex(s: string, c: char): (i: int)
    ensures -1 <= i < |s|
  {
    if s == "" then -1 else if s[|s| - 1] == c then |s| - 1 else LastIndex(s[..|s| - 1], c)
  }

  function Lower(s: string): string {
    seq(|s|, i requires 0 <= i < |s| => if 'A' <= s[i] <= 'Z' then (s[i] as int + 32) as char else s[i])
  }

  /** path_extension_lower with a buffer of 32 bytes. */
  function Extension(path: string): Option<string> {
    var dot, slash := LastIndex(path, '.'), LastIndex(path, '/');
    if dot < 0 || dot < slash || dot + 1 == |path| || |path| - (dot + 1) >= 32 then None
    else Some(Lower(path[dot + 1..]))
  }

  function Dirname(path: string): string {
    var slash := LastIndex(path, '/');
    if slash < 0 then "." else if slash == 0 then "/" else path[..slash]
  }

  function CoreFile(id: string): Option<string> {
    if |id| + |"_libretro.so"| >= 256 then None else Some(id + "_libretro.so")
  }

  function RetroCore(size: nat, root: string, id: string): Option<string> {
    match (CoreFile(id), JoinPath(PATH_MAX, root, "cores"))
    case (Some(f), Some(d)) => JoinPath(size, d, f)
    case _ => None
  }

  function PicoCore(files: set<string>, root: string, id: string): Option<string> {
    match (CoreFile(id), JoinPath(PATH_MAX, root, "picoarch/cores"))
    case (Some(f), Some(d)) =>
      (match JoinPath(PATH_MAX, d, f)
       case None => None
       case Some(pico) =>
         var retro := RetroCore(PATH_MAX, root, id);
         var core := if pico !in files && retro.Some? && retro.value in files then retro.value else pico;
         if |core| < TEXT_PATH_MAX then Some(core) else None)
    case _ => None
  }

  // ---------- what is asked for, and where ----------

  datatype Options = Options(audio: string, latency: int, force60: string, cycles: string)

  datatype Request = Request(root: string, system: string, rom: string, profile: string, cpu: string, options: Options)

  /** The device: the runtime shell, the files there are, and the ROM paths that exist. */
  datatype Device = Device(shell: Option<string>, files: set<string>, roms: set<string>) {
    predicate Valid() { shell != Some("") && "" !in roms }
  }

  const POLICY_MAX: nat := 32

  /** The request as the plan holds it: a ROM path or a policy that does not fit its buffer is copied as nothing. */
  function Cut(q: Request): Request {
    q.(rom := Copied(q.rom, TEXT_PATH_MAX), cpu := Copied(q.cpu, POLICY_MAX))
  }

  predicate Starts(s: string, prefix: string) { prefix <= s }

  function After(s: string, prefix: string): string
    requires Starts(s, prefix)
  {
    s[|prefix|..]
  }

  predicate Present(d: Device, root: string, file: string) {
    var p := JoinPath(PATH_MAX, root, file);
    p.Some? && p.value in d.files
  }

  // ---------- what the command asks for ----------

  /** Assignments, then the words of the program and its arguments. */
  datatype Launch = Launch(assigns: seq<(string, string)>, argv: seq<Item>)

  function AssignItems(assigns: seq<(string, string)>): seq<Item> {
    seq(|assigns|, i requires 0 <= i < |assigns| => Item(assigns[i].0 + "=", Some(assigns[i].1)))
  }

  function Items(l: Launch): seq<Item> { AssignItems(l.assigns) + l.argv }

  predicate Busybox(shell: string) { shell[LastIndex(shell, '/') + 1..] == "busybox" }

  function Invocation(shell: string, script: string): seq<Item> {
    [Safely(shell)] + (if Busybox(shell) then [Plainly("sh")] else []) + [Safely(script)]
  }

  function Choice(flag: string, v: string): seq<Item> { if v == "" then [] else [Plainly(flag), Safely(v)] }

  function Policy(name: string, v: string): seq<(string, string)> { if v == "" then [] else [(name, v)] }

  function Latency(n: int): string { if n > 0 then Decimal(n) else "" }

  /** A launch that is refused, one with no command, or one with a command. */
  datatype Wanted = Refuse | NoCommand | Start(launch: Launch)

  function Retroarch(d: Device, q: Request, id: string): Wanted {
    var launcher := Under(q.root, "bin", "plumos-retroarch-launch");
    var config := JoinPath(TEXT_PATH_MAX, q.root, "config/retroarch/v90s-powervr-quicknes.cfg");
    var core := RetroCore(TEXT_PATH_MAX, q.root, id);
    if launcher.None? || config.None? || core.None? || d.shell.None? then Refuse
    else Start(Launch([], WithOptions(Invocation(d.shell.value, launcher.value)
           + [Plainly("--system"), Safely(q.system)] + [Plainly("--core"), Safely(core.value)] + [Plainly("--rom"), Safely(q.rom)], q)
           + [Plainly("--safe-exit"), Plainly("false")]))
  }

  function WithOptions(a: seq<Item>, q: Request): seq<Item> {
    a + Choice("--cpu", q.cpu) + Choice("--audio", q.options.audio) + Choice("--audio-latency", Latency(q.options.latency))
      + Choice("--dosbox-pure-force60fps", q.options.force60) + Choice("--dosbox-pure-cycles", q.options.cycles)
  }

  function PyxelLauncher(profile: string): Option<string> {
    if profile == "bubble" then Some("plumos-pyxel-bubble-launch")
    else if profile == "mf" then Some("plumos-pyxel-mf-launch")
    else if profile == "a30" then Some("plumos-pyxel-a30-launch")
    else if profile == "mmf" then Some("plumos-pyxel-mmf-launch")
    else if profile == "" || profile == "v90s" then Some("plumos-pyxel-v90s-launch")
    else None
  }

  function PyxelCommand(rom: string): Option<string> {
    match Extension(rom)
    case Some(e) => if e == "pyxapp" then Some("play") else if e == "py" then Some("run") else None
    case None => None
  }

  function Pyxel(d: Device, q: Request, profile: string): Wanted {
    var name := PyxelLauncher(profile);
    if name.None? then NoCommand
    else
      var launcher, command := Under(q.root, "bin", name.value), PyxelCommand(q.rom);
      if launcher.None? then Refuse
      else if command.None? then NoCommand
      else if d.shell.None? then Refuse
      else Start(Launch(Policy("PLUMOS_PYXEL_CPU_POLICY", q.cpu), Invocation(d.shell.value, launcher.value)
             + [Plainly("-m"), Plainly("pyxel"), Plainly(command.value), Safely(q.rom)]))
  }

  function Picoarch(d: Device, q: Request, id: string): Wanted {
    var launcher := Under(q.root, "bin", "plumos-picoarch-launch");
    if id == "" || launcher.None? || PicoCore(d.files, q.root, id).None? || d.shell.None? then Refuse
    else Start(Launch(Policy("PLUMOS_PICOARCH_CPU_POLICY", q.cpu) + [("PLUMOS_PICOARCH_SYSTEM", q.system)],
                      Invocation(d.shell.value, launcher.value) + [Safely(id), Safely(q.rom)]))
  }

  /** EasyRPG is given the directory of the database file. */
  function Content(emulator: string, rom: string): string {
    if emulator == "easyrpg" && Extension(rom) == Some("ldb") then Dirname(rom) else rom
  }

  function Standalone(d: Device, q: Request, emulator: string): Wanted {
    var launcher := Under(q.root, "bin", "plumos-standalone-launch");
    if emulator == "" || launcher.None? || d.shell.None? then Refuse
    else Start(Launch(Policy("PLUMOS_STANDALONE_CPU_POLICY", q.cpu),
                      Invocation(d.shell.value, launcher.value) + [Safely(emulator), Safely(Content(emulator, q.rom))]))
  }

  function External(d: Device, q: Request): Wanted {
    if q.profile == "external:port" then
      var launcher := JoinPath(PATH_MAX, q.root, "bin/plumos-portmaster-port-launch");
      if launcher.None? || d.shell.None? then Refuse
      else Start(Launch([], Invocation(d.shell.value, launcher.value) + [Safely(q.rom)]))
    else if d.shell.None? || q.rom == "" then Refuse
    else Start(Launch([], Invocation(d.shell.value, q.rom)))
  }

  function WantedFor(d: Device, q: Request): Wanted {
    if Starts(q.profile, "retroarch:") then Retroarch(d, q, After(q.profile, "retroarch:"))
    else if Starts(q.profile, "pyxel:") then Pyxel(d, q, After(q.profile, "pyxel:"))
    else if Starts(q.profile, "picoarch:") then Picoarch(d, q, After(q.profile, "picoarch:"))
    else if Starts(q.profile, "standalone:") then Standalone(d, q, After(q.profile, "standalone:"))
    else if Starts(q.profile, "external:") then External(d, q)
    else NoCommand
  }

  // ---------- reading the command ----------

  predicate AllWritten(items: seq<Item>) { forall i | 0 <= i < |items| :: Written(items[i]) }

  predicate Sound(l: Launch) {
    && (forall i | 0 <= i < |l.assigns| :: VariableName(l.assigns[i].0))
    && AllWritten(l.argv)
    && l.argv != [] && l.argv[0].bare == "" && l.argv[0].arg.Some? && l.argv[0].arg.value != ""
  }

  lemma {:induction false} AssignsRead(assigns: seq<(string, string)>, words: seq<Word>, argv: seq<string>)
    requires forall i | 0 <= i < |assigns| :: VariableName(assigns[i].0)
    requires Simple(words) == Some(Command([], argv))
    ensures Simple(ItemWords(AssignItems(assigns)) + words) == Some(Command(assigns, argv))
    decreases |assigns|
  {
    hide Simple, ItemWord, VariableName;
    if assigns == [] {
      assert ItemWords(AssignItems(assigns)) + words == words;
    } else {
      var rest := ItemWords(AssignItems(assigns[1..])) + words;
      AssignsRead(assigns[1..], words, argv);
      AssignmentReads(assigns[0].0, assigns[0].1, rest);
      assert ItemWords(AssignItems(assigns)) + words == [ItemWord(Item(assigns[0].0 + "=", Some(assigns[0].1)))] + rest;
      assert [assigns[0]] + assigns[1..] == assigns;
    }
  }

  /** Any launch is read back by the shell: the same assignments, the same argument vector. */
  lemma LaunchReads(l: Launch)
    requires Sound(l)
    ensures ShellReads(Line(Items(l))) == Some(Command(l.assigns, ItemValues(l.argv)))
  {
    hide Simple, Line, Words, ItemWord, ItemValue;
    var items := Items(l);
    forall i | 0 <= i < |items| ensures Written(items[i]) {
      if i < |l.assigns| { AssignWritten(l.assigns[i].0, l.assigns[i].1); }
    }
    LineWords(items);
    CommandReads(l.argv);
    AssignsRead(l.assigns, ItemWords(l.argv), ItemValues(l.argv));
    assert ItemWords(items) == ItemWords(AssignItems(l.assigns)) + ItemWords(l.argv);
  }

  lemma AssignWritten(name: string, v: string)
    requires VariableName(name)
    ensures Written(Item(name + "=", Some(v)))
  {}

  /** The words of a program run by the shell: that shell first, all of them written plainly or quoted. */
  predicate Begins(items: seq<Item>, shell: string) { AllWritten(items) && items != [] && items[0] == Safely(shell) }

  lemma BeginsWith(a: seq<Item>, b: seq<Item>, shell: string)
    requires Begins(a, shell) && AllWritten(b)
    ensures Begins(a + b, shell)
  {}

  lemma InvocationBegins(shell: string, script: string)
    ensures Begins(Invocation(shell, script), shell)
  {}

  lemma BeginsSound(l: Launch, shell: string)
    requires Begins(l.argv, shell) && shell != "" && forall i | 0 <= i < |l.assigns| :: VariableName(l.assigns[i].0)
    ensures Sound(l)
  {}

  lemma Takes(a: seq<Item>, flag: string, v: string, shell: string)
    requires Begins(a, shell) && flag != "" && forall c | c in flag :: Ordinary(c)
    ensures Begins(a + [Plainly(flag), Safely(v)], shell) && Begins(a + Choice(flag, v), shell)
  {}

  lemma SafeExit()
    ensures AllWritten([Plainly("--safe-exit"), Plainly("false")])
  {}

  lemma TakesOptions(a3: seq<Item>, q: Request, shell: string)
    requires Begins(a3, shell)
    ensures Begins(WithOptions(a3, q), shell)
  {
    hide Choice, Decimal, Begins;
    var a4 := a3 + Choice("--cpu", q.cpu);
    Takes(a3, "--cpu", q.cpu, shell);
    var a5 := a4 + Choice("--audio", q.options.audio);
    Takes(a4, "--audio", q.options.audio, shell);
    var a6 := a5 + Choice("--audio-latency", Latency(q.options.latency));
    Takes(a5, "--audio-latency", Latency(q.options.latency), shell);
    var a7 := a6 + Choice("--dosbox-pure-force60fps", q.options.force60);
    Takes(a6, "--dosbox-pure-force60fps", q.options.force60, shell);
    var a8 := a7 + Choice("--dosbox-pure-cycles", q.options.cycles);
    Takes(a7, "--dosbox-pure-cycles", q.options.cycles, shell);
  }

  lemma RetroarchSound(d: Device, q: Request, id: string)
    requires d.Valid() && Retroarch(d, q, id).Start?
    ensures Sound(Retroarch(d, q, id).launch)
  {
    hide Invocation, Written, AllWritten, Under, RetroCore, JoinPath, Begins, Sound, WithOptions;
    var l, shell := Retroarch(d, q, id).launch, d.shell.value;
    var launcher, core := Under(q.root, "bin", "plumos-retroarch-launch").value, RetroCore(TEXT_PATH_MAX, q.root, id).value;
    var a0 := Invocation(shell, launcher);
    InvocationBegins(shell, launcher);
    var a1 := a0 + [Plainly("--system"), Safely(q.system)];
    Takes(a0, "--system", q.system, shell);
    var a2 := a1 + [Plainly("--core"), Safely(core)];
    Takes(a1, "--core", core, shell);
    var a3 := a2 + [Plainly("--rom"), Safely(q.rom)];
    Takes(a2, "--rom", q.rom, shell);
    var a8 := WithOptions(a3, q);
    TakesOptions(a3, q, shell);
    SafeExit();
    BeginsWith(a8, [Plainly("--safe-exit"), Plainly("false")], shell);
    BeginsSound(l, shell);
  }

  lemma PyxelSound(d: Device, q: Request, profile: string)
    requires d.Valid() && Pyxel(d, q, profile).Start?
    ensures Sound(Pyxel(d, q, profile).launch)
  {
    hide Invocation, Under, JoinPath, Begins, Sound, PyxelLauncher;
    var l, shell := Pyxel(d, q, profile).launch, d.shell.value;
    InvocationBegins(shell, Under(q.root, "bin", PyxelLauncher(profile).value).value);
    var rest := [Plainly("-m"), Plainly("pyxel"), Plainly(PyxelCommand(q.rom).value), Safely(q.rom)];
    assert AllWritten(rest);
    BeginsWith(Invocation(shell, Under(q.root, "bin", PyxelLauncher(profile).value).value), rest, shell);
    assert VariableName("PLUMOS_PYXEL_CPU_POLICY");
    BeginsSound(l, shell);
  }

  lemma PicoarchSound(d: Device, q: Request, id: string)
    requires d.Valid() && Picoarch(d, q, id).Start?
    ensures Sound(Picoarch(d, q, id).launch)
  {
    hide Invocation, Under, JoinPath, Begins, Sound, PicoCore, VariableName;
    var l, shell := Picoarch(d, q, id).launch, d.shell.value;
    var start := Invocation(shell, Under(q.root, "bin", "plumos-picoarch-launch").value);
    InvocationBegins(shell, Under(q.root, "bin", "plumos-picoarch-launch").value);
    assert AllWritten([Safely(id), Safely(q.rom)]);
    BeginsWith(start, [Safely(id), Safely(q.rom)], shell);
    Names();
    BeginsSound(l, shell);
  }

  lemma StandaloneSound(d: Device, q: Request, emulator: string)
    requires d.Valid() && Standalone(d, q, emulator).Start?
    ensures Sound(Standalone(d, q, emulator).launch)
  {
    hide Invocation, Under, JoinPath, Begins, Sound, Content, VariableName;
    var l, shell := Standalone(d, q, emulator).launch, d.shell.value;
    var start := Invocation(shell, Under(q.root, "bin", "plumos-standalone-launch").value);
    InvocationBegins(shell, Under(q.root, "bin", "plumos-standalone-launch").value);
    var rest := [Safely(emulator), Safely(Content(emulator, q.rom))];
    assert AllWritten(rest);
    BeginsWith(start, rest, shell);
    Names();
    BeginsSound(l, shell);
  }

  lemma Names()
    ensures VariableName("PLUMOS_PICOARCH_CPU_POLICY") && VariableName("PLUMOS_PICOARCH_SYSTEM")
    ensures VariableName("PLUMOS_STANDALONE_CPU_POLICY")
  {}

  lemma ExternalSound(d: Device, q: Request)
    requires d.Valid() && External(d, q).Start?
    ensures Sound(External(d, q).launch)
  {
    hide Invocation, JoinPath, Begins, Sound;
    var l, shell := External(d, q).launch, d.shell.value;
    if q.profile == "external:port" {
      var start := Invocation(shell, JoinPath(PATH_MAX, q.root, "bin/plumos-portmaster-port-launch").value);
      InvocationBegins(shell, JoinPath(PATH_MAX, q.root, "bin/plumos-portmaster-port-launch").value);
      assert AllWritten([Safely(q.rom)]);
      BeginsWith(start, [Safely(q.rom)], shell);
    } else {
      InvocationBegins(shell, q.rom);
    }
    BeginsSound(l, shell);
  }

  /** Every command line the program builds is read by the shell as exactly the launch that was wanted. */
  lemma CommandIsWanted(d: Device, q: Request)
    requires d.Valid() && WantedFor(d, q).Start?
    ensures var l := WantedFor(d, q).launch;
            ShellReads(Line(Items(l))) == Some(Command(l.assigns, ItemValues(l.argv)))
  {
    hide Retroarch, Pyxel, Picoarch, Standalone, External, Sound, ShellReads, Line, Starts, After;
    if Starts(q.profile, "retroarch:") {
      RetroarchSound(d, q, After(q.profile, "retroarch:"));
    } else if Starts(q.profile, "pyxel:") {
      PyxelSound(d, q, After(q.profile, "pyxel:"));
    } else if Starts(q.profile, "picoarch:") {
      PicoarchSound(d, q, After(q.profile, "picoarch:"));
    } else if Starts(q.profile, "standalone:") {
      StandaloneSound(d, q, After(q.profile, "standalone:"));
    } else {
      ExternalSound(d, q);
    }
    LaunchReads(WantedFor(d, q).launch);
  }

  // ---------- the command that was asked for ----------

  predicate TakesPolicy(profile: string) {
    Starts(profile, "retroarch:") || Starts(profile, "pyxel:") || Starts(profile, "picoarch:") || Starts(profile, "standalone:")
  }

  /** The ROM path fits its buffer, and so does the policy of a kind that takes one. */
  predicate Uncut(q: Request) { |q.rom| < TEXT_PATH_MAX && (TakesPolicy(q.profile) ==> |q.cpu| < POLICY_MAX) }

  /** A shell reads the line as exactly the assignments and arguments of a launch. */
  predicate ReadAs(line: string, w: Wanted) {
    w.Start? && ShellReads(line) == Some(Command(w.launch.assigns, ItemValues(w.launch.argv)))
  }

  /** Two launches ask for the same. */
  predicate SameCommand(a: Launch, b: Launch) { a.assigns == b.assigns && ItemValues(a.argv) == ItemValues(b.argv) }

  lemma DifferAt(a: Launch, b: Launch, i: nat)
    requires i < |a.argv| && i < |b.argv| && ItemValue(a.argv[i]) != ItemValue(b.argv[i])
    ensures !SameCommand(a, b)
  {
    assert ItemValues(a.argv)[i] != ItemValues(b.argv)[i];
  }

  lemma DifferInLength(a: Launch, b: Launch)
    requires |a.argv| != |b.argv| || |a.assigns| != |b.assigns|
    ensures !SameCommand(a, b)
  {
    assert |ItemValues(a.argv)| == |a.argv| && |ItemValues(b.argv)| == |b.argv|;
  }

  lemma WithOptionsLength(a: seq<Item>, q: Request)
    ensures |WithOptions(a, q)| == |WithOptions(a, q.(cpu := ""))| + (if q.cpu == "" then 0 else 2)
    ensures |WithOptions(a, q)| >= |a| && forall i | 0 <= i < |a| :: WithOptions(a, q)[i] == a[i]
  {
    hide Decimal;
  }

  lemma RetroarchCut(d: Device, q: Request, id: string)
    requires Retroarch(d, Cut(q), id).Start?
    ensures Retroarch(d, q, id).Start?
    ensures SameCommand(Retroarch(d, Cut(q), id).launch, Retroarch(d, q, id).launch) <==> |q.rom| < TEXT_PATH_MAX && |q.cpu| < POLICY_MAX
  {
    hide WithOptions, Under, RetroCore, JoinPath, ItemValues, SameCommand;
    var c := Cut(q);
    var a, b := Retroarch(d, c, id).launch, Retroarch(d, q, id).launch;
    var launcher, core := Under(q.root, "bin", "plumos-retroarch-launch").value, RetroCore(TEXT_PATH_MAX, q.root, id).value;
    var start := Invocation(d.shell.value, launcher) + [Plainly("--system"), Safely(q.system)] + [Plainly("--core"), Safely(core)];
    var x, y := start + [Plainly("--rom"), Safely(c.rom)], start + [Plainly("--rom"), Safely(q.rom)];
    WithOptionsLength(x, c);
    WithOptionsLength(y, q);
    assert c.(cpu := "") == Request(q.root, q.system, c.rom, q.profile, "", q.options);
    if |q.rom| >= TEXT_PATH_MAX {
      assert x[|start| + 1] == Safely("") && y[|start| + 1] == Safely(q.rom);
      assert a.argv[|start| + 1] == Safely("") && b.argv[|start| + 1] == Safely(q.rom);
      DifferAt(a, b, |start| + 1);
    } else if |q.cpu| >= POLICY_MAX {
      assert x == y;
      SameOptions(x, c, q);
      DifferInLength(a, b);
    } else {
      assert c == q;
      Itself(a);
    }
  }

  lemma SameOptions(a: seq<Item>, c: Request, q: Request)
    requires c.options == q.options
    ensures |WithOptions(a, c.(cpu := ""))| == |WithOptions(a, q.(cpu := ""))|
  {
    hide Decimal;
  }

  lemma Itself(a: Launch)
    ensures SameCommand(a, a)
  {}

  lemma PyxelCut(d: Device, q: Request, profile: string)
    requires Pyxel(d, Cut(q), profile).Start?
    ensures Pyxel(d, q, profile).Start?
    ensures SameCommand(Pyxel(d, Cut(q), profile).launch, Pyxel(d, q, profile).launch) <==> |q.rom| < TEXT_PATH_MAX && |q.cpu| < POLICY_MAX
  {
    hide Under, JoinPath, ItemValues, PyxelLauncher, SameCommand, Invocation, PyxelCommand;
    NoCommandForNothing();
    if |q.cpu| >= POLICY_MAX {
      DifferInLength(Pyxel(d, Cut(q), profile).launch, Pyxel(d, q, profile).launch);
    } else {
      assert Cut(q) == q;
      Itself(Pyxel(d, q, profile).launch);
    }
  }

  lemma NoCommandForNothing()
    ensures PyxelCommand("") == None
  {}

  lemma PicoarchCut(d: Device, q: Request, id: string)
    requires Picoarch(d, Cut(q), id).Start?
    ensures Picoarch(d, q, id).Start?
    ensures SameCommand(Picoarch(d, Cut(q), id).launch, Picoarch(d, q, id).launch) <==> |q.rom| < TEXT_PATH_MAX && |q.cpu| < POLICY_MAX
  {
    hide Under, JoinPath, ItemValues, PicoCore, SameCommand, Invocation;
    var a, b := Picoarch(d, Cut(q), id).launch, Picoarch(d, q, id).launch;
    var n := |a.argv| - 1;
    if |q.rom| >= TEXT_PATH_MAX {
      assert a.argv[n] == Safely("") && b.argv[n] == Safely(q.rom);
      DifferAt(a, b, n);
    } else if |q.cpu| >= POLICY_MAX {
      DifferInLength(a, b);
    } else {
      assert Cut(q) == q;
      Itself(a);
    }
  }

  lemma StandaloneCut(d: Device, q: Request, emulator: string)
    requires Standalone(d, Cut(q), emulator).Start?
    ensures Standalone(d, q, emulator).Start?
    ensures SameCommand(Standalone(d, Cut(q), emulator).launch, Standalone(d, q, emulator).launch)
       <==> |q.rom| < TEXT_PATH_MAX && |q.cpu| < POLICY_MAX
  {
    hide Under, JoinPath, ItemValues, SameCommand, Invocation, Content;
    var a, b := Standalone(d, Cut(q), emulator).launch, Standalone(d, q, emulator).launch;
    var n := |a.argv| - 1;
    if |q.rom| >= TEXT_PATH_MAX {
      ContentIsPath(emulator, q.rom);
      assert a.argv[n] == Safely(Content(emulator, "")) && b.argv[n] == Safely(Content(emulator, q.rom));
      DifferAt(a, b, n);
    } else if |q.cpu| >= POLICY_MAX {
      DifferInLength(a, b);
    } else {
      assert Cut(q) == q;
      Itself(a);
    }
  }

  lemma ContentIsPath(emulator: string, rom: string)
    requires rom != ""
    ensures Content(emulator, rom) != "" && Content(emulator, "") == ""
  {}

  lemma ExternalCut(d: Device, q: Request)
    requires External(d, Cut(q)).Start?
    ensures External(d, q).Start?
    ensures SameCommand(External(d, Cut(q)).launch, External(d, q).launch) <==> |q.rom| < TEXT_PATH_MAX
  {
    hide JoinPath, ItemValues, SameCommand, Invocation;
    var a, b := External(d, Cut(q)).launch, External(d, q).launch;
    if |q.rom| >= TEXT_PATH_MAX {
      var n := |a.argv| - 1;
      assert a.argv[n] == Safely("") && b.argv[n] == Safely(q.rom);
      DifferAt(a, b, n);
    } else {
      Itself(a);
    }
  }

  lemma SafelyValue(v: string)
    ensures ItemValue(Safely(v)) == v
  {}

  /** An accepted command is the one that was asked for exactly when nothing was too long for its buffer. */
  lemma ReadsAskedIff(d: Device, q: Request)
    requires d.Valid() && WantedFor(d, Cut(q)).Start?
    ensures ReadAs(Line(Items(WantedFor(d, Cut(q)).launch)), WantedFor(d, q)) <==> Uncut(q)
  {
    hide Retroarch, Pyxel, Picoarch, Standalone, External, ShellReads, Line, Items;
    CommandIsWanted(d, Cut(q));
    CutSame(d, q);
  }

  lemma CutSame(d: Device, q: Request)
    requires WantedFor(d, Cut(q)).Start?
    ensures WantedFor(d, q).Start? && (SameCommand(WantedFor(d, Cut(q)).launch, WantedFor(d, q).launch) <==> Uncut(q))
  {
    hide Retroarch, Pyxel, Picoarch, Standalone, External, SameCommand, Starts, After;
    if Starts(q.profile, "retroarch:") {
      RetroarchCut(d, q, After(q.profile, "retroarch:"));
    } else if Starts(q.profile, "pyxel:") {
      PyxelCut(d, q, After(q.profile, "pyxel:"));
    } else if Starts(q.profile, "picoarch:") {
      PicoarchCut(d, q, After(q.profile, "picoarch:"));
    } else if Starts(q.profile, "standalone:") {
      StandaloneCut(d, q, After(q.profile, "standalone:"));
    } else {
      ExternalCut(d, q);
    }
  }
}
