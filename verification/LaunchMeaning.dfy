/** What the program asks a shell to run, word by word, and when: the launch kinds told without the way their commands are put together. */
module LaunchMeaning {
  import opened Optional
  import opened ShellWord
  import opened LaunchPlan
  import opened Decimals

  // ---------- paths ----------

  /** A path below a root. */
  function In(root: string, name: string): string {
    root + (if root == "" || root[|root| - 1] == '/' then "" else "/") + name
  }

  lemma JoinIs(size: nat, a: string, b: string)
    requires b == "" || b[0] != '/'
    ensures JoinPath(size, a, b) == if |In(a, b)| < size then Some(In(a, b)) else None
  {}

  lemma InTwice(root: string, dir: string, file: string)
    requires dir != "" && dir[|dir| - 1] != '/'
    ensures In(In(root, dir), file) == In(root, dir + "/" + file) && |In(root, dir)| < |In(root, dir + "/" + file)|
  {
    var d := In(root, dir);
    assert d[|d| - 1] == dir[|dir| - 1];
    var s := if root == "" || root[|root| - 1] == '/' then "" else "/";
    assert ((root + s) + dir) + "/" + file == (root + s) + (dir + "/" + file);
  }

  lemma UnderIs(root: string, dir: string, file: string)
    requires dir != "" && dir[0] != '/' && dir[|dir| - 1] != '/' && file != "" && file[0] != '/'
    ensures Under(root, dir, file) == if |In(root, dir + "/" + file)| < 1024 then Some(In(root, dir + "/" + file)) else None
  {
    hide In, JoinPath;
    JoinIs(PATH_MAX, root, dir);
    InTwice(root, dir, file);
    JoinIs(TEXT_PATH_MAX, In(root, dir), file);
  }

  /** The library of a core; an id that is itself an absolute path is taken as one. */
  function CorePath(root: string, dir: string, id: string): string {
    if id != "" && id[0] == '/' then id + "_libretro.so" else In(root, dir + "/" + id + "_libretro.so")
  }

  lemma CoreIs(size: nat, root: string, dir: string, id: string)
    requires dir != "" && dir[0] != '/' && dir[|dir| - 1] != '/'
    ensures JoinPath(size, In(root, dir), id + "_libretro.so")
         == if |CorePath(root, dir, id)| < size then Some(CorePath(root, dir, id)) else None
  {
    var f := id + "_libretro.so";
    if id != "" && id[0] == '/' {
      assert f[0] == '/';
    } else {
      assert f[0] != '/';
      hide In, JoinPath;
      JoinIs(size, In(root, dir), f);
      InTwice(root, dir, f);
      assert dir + "/" + f == dir + "/" + id + "_libretro.so";
    }
  }

  lemma RetroCoreIs(size: nat, root: string, id: string)
    ensures RetroCore(size, root, id)
         == if |id| < 244 && |In(root, "cores")| < 4096 && |CorePath(root, "cores", id)| < size then Some(CorePath(root, "cores", id)) else None
  {
    hide In, JoinPath, CorePath;
    JoinIs(PATH_MAX, root, "cores");
    CoreIs(size, root, "cores", id);
  }

  /** PicoArch's own core, unless only RetroArch's is there. */
  function PicoPath(files: set<string>, root: string, id: string): string {
    var pico, retro := CorePath(root, "picoarch/cores", id), CorePath(root, "cores", id);
    if pico !in files && retro in files && |retro| < 4096 then retro else pico
  }

  lemma PicoCoreIs(files: set<string>, root: string, id: string)
    ensures PicoCore(files, root, id)
         == if |id| < 244 && |In(root, "picoarch/cores")| < 4096 && |CorePath(root, "picoarch/cores", id)| < 4096 && |PicoPath(files, root, id)| < 1024
            then Some(PicoPath(files, root, id)) else None
  {
    CoresIsShorter(root);
    hide In, JoinPath, CorePath;
    JoinIs(PATH_MAX, root, "picoarch/cores");
    CoreIs(PATH_MAX, root, "picoarch/cores", id);
    RetroCoreIs(PATH_MAX, root, id);
  }

  lemma CoresIsShorter(root: string)
    ensures |In(root, "cores")| < |In(root, "picoarch/cores")|
  {}

  // ---------- file names ----------

  /** The same letter, small or capital. */
  predicate SameLetter(c: char, small: char) { c == small || ('a' <= small <= 'z' && c as int == small as int - 32) }

  /** A path that ends in a suffix, in small or capital letters. */
  predicate EndsLike(path: string, suffix: string) {
    |path| >= |suffix| && forall i | 0 <= i < |suffix| :: SameLetter(path[|path| - |suffix| + i], suffix[i])
  }

  lemma {:induction false} LastIs(s: string, c: char)
    ensures var i := LastIndex(s, c); (i >= 0 ==> s[i] == c) && forall k | i < k < |s| :: s[k] != c
    decreases |s|
  {
    if s != "" && s[|s| - 1] != c {
      LastIs(s[..|s| - 1], c);
      assert forall k | 0 <= k < |s| - 1 :: s[k] == s[..|s| - 1][k];
    }
  }

  lemma ExtensionIff(path: string, e: string)
    requires 0 < |e| < 32 && forall c | c in e :: 'a' <= c <= 'z'
    ensures Extension(path) == Some(e) <==> EndsLike(path, "." + e)
  {
    hide LastIndex;
    LastIs(path, '.');
    LastIs(path, '/');
    var dot, slash := LastIndex(path, '.'), LastIndex(path, '/');
    var n, suffix := |path| - |e|, "." + e;
    if Extension(path) == Some(e) {
      var rest := path[dot + 1..];
      assert |rest| == |e| && n == dot + 1;
      forall i | 0 <= i < |suffix| ensures SameLetter(path[|path| - |suffix| + i], suffix[i]) {
        if i > 0 {
          assert Lower(rest)[i - 1] == e[i - 1] && rest[i - 1] == path[n + i - 1];
          LowerIs(rest[i - 1]);
        }
      }
    }
    if EndsLike(path, suffix) {
      assert SameLetter(path[n - 1], suffix[0]);
      forall k | n <= k < |path| ensures SameLetter(path[k], e[k - n]) && e[k - n] in e {
        assert SameLetter(path[|path| - |suffix| + (k - n + 1)], suffix[k - n + 1]);
      }
      assert dot == n - 1 && slash < dot;
      forall k | 0 <= k < |e| ensures Lower(path[n..])[k] == e[k] {
        assert SameLetter(path[n + k], e[k]) && e[k] in e;
        SmallOf(path[n + k], e[k]);
      }
      assert Lower(path[n..]) == e;
    }
  }

  lemma LowerIs(c: char)
    ensures SameLetter(c, if 'A' <= c <= 'Z' then (c as int + 32) as char else c)
  {}

  lemma SmallOf(c: char, e: char)
    requires SameLetter(c, e) && 'a' <= e <= 'z'
    ensures (if 'A' <= c <= 'Z' then (c as int + 32) as char else c) == e
  {}

  /** The directory a path names: all before its last slash, the root, or the one it is looked up from. */
  predicate DirectoryOf(dir: string, path: string) {
    if '/' !in path then dir == "."
    else exists k :: 0 <= k < |path| && path[k] == '/' && '/' !in path[k + 1..] && dir == if k == 0 then "/" else path[..k]
  }

  lemma DirnameIs(path: string)
    ensures DirectoryOf(Dirname(path), path)
  {
    hide LastIndex;
    LastIs(path, '/');
    var k := LastIndex(path, '/');
    if k >= 0 {
      assert path[k] == '/' && '/' !in path[k + 1..];
    }
  }

  // ---------- the words of a command ----------

  predicate IsBusybox(shell: string) { shell == "busybox" || (|shell| >= 8 && shell[|shell| - 8..] == "/busybox") }

  /** A shell is given a script, behind its name as an applet when it is BusyBox. */
  function Script(shell: string, path: string): seq<string> { if IsBusybox(shell) then [shell, "sh", path] else [shell, path] }

  /** A flag and its value, if there is one. */
  function Given(flag: string, v: string): seq<string> { if v == "" then [] else [flag, v] }

  function Env(name: string, v: string): seq<(string, string)> { if v == "" then [] else [(name, v)] }

  predicate Kind(profile: string, prefix: string) { |profile| >= |prefix| && profile[..|prefix|] == prefix }

  function Detail(profile: string, prefix: string): string
    requires Kind(profile, prefix)
  {
    profile[|prefix|..]
  }

  /** The command a request asks for on a device with a shell, with the ROM path and the policy its plan holds. */
  predicate Asks(d: Device, q: Request, rom: string, cpu: string, c: Command)
    requires d.shell.Some?
  {
    var shell, o := d.shell.value, q.options;
    if Kind(q.profile, "retroarch:") then
      && c.assigns == []
      && c.argv == Script(shell, In(q.root, "bin/plumos-retroarch-launch"))
                   + ["--system", q.system, "--core", CorePath(q.root, "cores", Detail(q.profile, "retroarch:")), "--rom", rom]
                   + Given("--cpu", cpu) + Given("--audio", o.audio)
                   + (if o.latency > 0 then ["--audio-latency", Decimal(o.latency)] else [])
                   + Given("--dosbox-pure-force60fps", o.force60) + Given("--dosbox-pure-cycles", o.cycles) + ["--safe-exit", "false"]
    else if Kind(q.profile, "pyxel:") then
      var device := if q.profile == "pyxel:" then "v90s" else Detail(q.profile, "pyxel:");
      && c.assigns == Env("PLUMOS_PYXEL_CPU_POLICY", cpu)
      && c.argv == Script(shell, In(q.root, "bin/plumos-pyxel-" + device + "-launch"))
                   + ["-m", "pyxel", if EndsLike(rom, ".pyxapp") then "play" else "run", rom]
    else if Kind(q.profile, "picoarch:") then
      && c.assigns == Env("PLUMOS_PICOARCH_CPU_POLICY", cpu) + [("PLUMOS_PICOARCH_SYSTEM", q.system)]
      && c.argv == Script(shell, In(q.root, "bin/plumos-picoarch-launch")) + [Detail(q.profile, "picoarch:"), rom]
    else if Kind(q.profile, "standalone:") then
      && c.assigns == Env("PLUMOS_STANDALONE_CPU_POLICY", cpu)
      && c.argv != []
      && var content := c.argv[|c.argv| - 1];
      && c.argv == Script(shell, In(q.root, "bin/plumos-standalone-launch")) + [Detail(q.profile, "standalone:"), content]
      && (if q.profile == "standalone:easyrpg" && EndsLike(rom, ".ldb") then DirectoryOf(content, rom) else content == rom)
    else
      && c.assigns == []
      && c.argv == if q.profile == "external:port" then Script(shell, In(q.root, "bin/plumos-portmaster-port-launch")) + [rom]
                   else Script(shell, rom)
  }

  lemma BusyboxIff(shell: string)
    ensures Busybox(shell) <==> IsBusybox(shell)
  {
    hide LastIndex;
    LastIs(shell, '/');
    var k := LastIndex(shell, '/');
    if Busybox(shell) && k >= 0 {
      SlashName(shell, k);
    }
    if IsBusybox(shell) {
      if shell == "busybox" {
        NoSlashIn(shell);
      } else {
        NameBehind(shell, k);
      }
    }
  }

  lemma SlashName(shell: string, k: nat)
    requires k < |shell| && shell[k] == '/' && shell[k + 1..] == "busybox"
    ensures |shell| >= 8 && shell[|shell| - 8..] == "/busybox"
  {
    assert |shell| - (k + 1) == 7;
    assert shell[k..] == ['/'] + shell[k + 1..];
    assert ['/'] + "busybox" == "/busybox";
  }

  lemma NoSlashIn(shell: string)
    requires shell == "busybox"
    ensures '/' !in shell
  {}

  lemma NameBehind(shell: string, k: int)
    requires |shell| >= 8 && shell[|shell| - 8..] == "/busybox"
    requires -1 <= k < |shell| && (k >= 0 ==> shell[k] == '/') && forall i | k < i < |shell| :: shell[i] != '/'
    ensures k >= 0 && shell[k + 1..] == "busybox"
  {
    var n := |shell| - 8;
    var tail := shell[n..];
    NoSlashIn("busybox");
    assert tail == ['/'] + "busybox";
    assert shell[n] == tail[0];
    forall i | n < i < |shell| ensures shell[i] != '/' {
      assert shell[i] == tail[i - n] == "busybox"[i - n - 1];
      assert "busybox"[i - n - 1] in "busybox";
    }
    assert k == n;
    assert shell[n + 1..] == tail[1..];
  }

  lemma ValuesConcat(a: seq<Item>, b: seq<Item>)
    ensures ItemValues(a + b) == ItemValues(a) + ItemValues(b)
  {
    hide ItemValue;
  }

  lemma ValueIs(v: string)
    ensures ItemValue(Safely(v)) == v && ItemValue(Plainly(v)) == v
    ensures ItemValues([Safely(v)]) == [v] && ItemValues([]) == []
  {}

  lemma PairIs(flag: string, v: string)
    ensures ItemValues([Plainly(flag), Safely(v)]) == [flag, v] && ItemValues([Safely(flag), Safely(v)]) == [flag, v]
    ensures ItemValues([Plainly(flag), Plainly(v)]) == [flag, v]
  {
    hide ItemValue;
    ValueIs(flag);
    ValueIs(v);
  }

  lemma ChoiceIs(flag: string, v: string)
    ensures ItemValues(Choice(flag, v)) == Given(flag, v)
  {
    hide ItemValue;
    PairIs(flag, v);
  }

  lemma InvocationIs(shell: string, path: string)
    ensures ItemValues(Invocation(shell, path)) == Script(shell, path)
  {
    hide ItemValue, ItemValues, Busybox, IsBusybox;
    BusyboxIff(shell);
    ValueIs(shell);
    ValueIs(path);
    PairIs(shell, path);
    ValueIs("sh");
    ShellItems(shell, path);
  }

  lemma ShellItems(shell: string, path: string)
    ensures ItemValues([Safely(shell)] + [Plainly("sh")] + [Safely(path)]) == [shell, "sh", path]
    ensures ItemValues([Safely(shell)] + [] + [Safely(path)]) == [shell, path]
  {
    hide ItemValue;
    ValueIs(shell);
    ValueIs(path);
    ValueIs("sh");
  }

  lemma OptionsAre(a: seq<Item>, q: Request)
    ensures ItemValues(WithOptions(a, q))
         == ItemValues(a) + Given("--cpu", q.cpu) + Given("--audio", q.options.audio)
            + (if q.options.latency > 0 then ["--audio-latency", Decimal(q.options.latency)] else [])
            + Given("--dosbox-pure-force60fps", q.options.force60) + Given("--dosbox-pure-cycles", q.options.cycles)
  {
    hide ItemValues, Choice, Given, Decimal;
    var o := q.options;
    var a1 := a + Choice("--cpu", q.cpu);
    var a2 := a1 + Choice("--audio", o.audio);
    var a3 := a2 + Choice("--audio-latency", Latency(o.latency));
    var a4 := a3 + Choice("--dosbox-pure-force60fps", o.force60);
    ValuesConcat(a, Choice("--cpu", q.cpu));
    ValuesConcat(a1, Choice("--audio", o.audio));
    ValuesConcat(a2, Choice("--audio-latency", Latency(o.latency)));
    ValuesConcat(a3, Choice("--dosbox-pure-force60fps", o.force60));
    ValuesConcat(a4, Choice("--dosbox-pure-cycles", o.cycles));
    ChoiceIs("--cpu", q.cpu);
    ChoiceIs("--audio", o.audio);
    ChoiceIs("--audio-latency", Latency(o.latency));
    ChoiceIs("--dosbox-pure-force60fps", o.force60);
    ChoiceIs("--dosbox-pure-cycles", o.cycles);
    LatencyIs(o.latency);
  }

  lemma LatencyIs(n: int)
    ensures Given("--audio-latency", Latency(n)) == if n > 0 then ["--audio-latency", Decimal(n)] else []
  {}

  // ---------- the kinds ----------

  /** The Pyxel builds there are. */
  predicate PyxelDevice(profile: string) { profile in ["pyxel:", "pyxel:v90s", "pyxel:bubble", "pyxel:mf", "pyxel:a30", "pyxel:mmf"] }

  function PyxelScript(profile: string): string
    requires Kind(profile, "pyxel:")
  {
    "bin/plumos-pyxel-" + (if profile == "pyxel:" then "v90s" else Detail(profile, "pyxel:")) + "-launch"
  }

  /** Requests that a device can be asked: a known kind, a shell, a core or emulator where one is needed, a ROM the kind can run,
      and paths that fit their buffers. */
  predicate Askable(d: Device, q: Request, rom: string) {
    if Kind(q.profile, "retroarch:") then
      var id := Detail(q.profile, "retroarch:");
      && d.shell.Some? && |id| < 244 && |CorePath(q.root, "cores", id)| < 1024
      && |In(q.root, "bin/plumos-retroarch-launch")| < 1024 && |In(q.root, "config/retroarch/v90s-powervr-quicknes.cfg")| < 1024
    else if Kind(q.profile, "pyxel:") then
      && d.shell.Some? && PyxelDevice(q.profile) && (EndsLike(rom, ".pyxapp") || EndsLike(rom, ".py"))
      && |In(q.root, PyxelScript(q.profile))| < 1024
    else if Kind(q.profile, "picoarch:") then
      var id := Detail(q.profile, "picoarch:");
      && d.shell.Some? && 0 < |id| < 244 && |In(q.root, "bin/plumos-picoarch-launch")| < 1024
      && |CorePath(q.root, "picoarch/cores", id)| < 4096 && |PicoPath(d.files, q.root, id)| < 1024
    else if Kind(q.profile, "standalone:") then
      d.shell.Some? && q.profile != "standalone:" && |In(q.root, "bin/plumos-standalone-launch")| < 1024
    else if q.profile == "external:port" then
      d.shell.Some? && |In(q.root, "bin/plumos-portmaster-port-launch")| < 4096
    else Kind(q.profile, "external:") && d.shell.Some? && rom != ""
  }

  /** The launch of a kind, with the words its command has. */
  predicate Good(d: Device, q: Request, w: Wanted) {
    && (w.Start? <==> Askable(d, q, q.rom))
    && (w.Start? ==> d.shell.Some? && Asks(d, q, q.rom, q.cpu, Command(w.launch.assigns, ItemValues(w.launch.argv))))
  }

  lemma KindIs(profile: string, prefix: string)
    ensures Starts(profile, prefix) <==> Kind(profile, prefix)
    ensures Starts(profile, prefix) ==> After(profile, prefix) == Detail(profile, prefix) && prefix + Detail(profile, prefix) == profile
  {}

  lemma RetroarchBin()
    ensures "bin" + "/" + "plumos-retroarch-launch" == "bin/plumos-retroarch-launch"
  {}

  lemma PicoarchBin()
    ensures "bin" + "/" + "plumos-picoarch-launch" == "bin/plumos-picoarch-launch"
  {}

  lemma StandaloneBin()
    ensures "bin" + "/" + "plumos-standalone-launch" == "bin/plumos-standalone-launch"
  {}

  lemma ConfigIs(root: string)
    ensures JoinPath(TEXT_PATH_MAX, root, "config/retroarch/v90s-powervr-quicknes.cfg").Some?
       <==> |In(root, "config/retroarch/v90s-powervr-quicknes.cfg")| < 1024
    ensures |In(root, "cores")| < |In(root, "config/retroarch/v90s-powervr-quicknes.cfg")|
  {}

  lemma RetroarchGood(d: Device, q: Request)
    requires Kind(q.profile, "retroarch:")
    ensures Good(d, q, Retroarch(d, q, Detail(q.profile, "retroarch:")))
  {
    hide In, JoinPath, Under, RetroCore, CorePath, ItemValues, Invocation, WithOptions, Script, Given, Decimal;
    var id := Detail(q.profile, "retroarch:");
    UnderIs(q.root, "bin", "plumos-retroarch-launch");
    RetroarchBin();
    RetroCoreIs(TEXT_PATH_MAX, q.root, id);
    ConfigIs(q.root);
    var w := Retroarch(d, q, id);
    if w.Start? {
      var shell, launcher, core := d.shell.value, In(q.root, "bin/plumos-retroarch-launch"), CorePath(q.root, "cores", id);
      RetroarchWords(q, shell, launcher, core);
    }
  }

  lemma RetroarchWords(q: Request, shell: string, launcher: string, core: string)
    ensures ItemValues(WithOptions(Invocation(shell, launcher)
              + [Plainly("--system"), Safely(q.system)] + [Plainly("--core"), Safely(core)] + [Plainly("--rom"), Safely(q.rom)], q)
              + [Plainly("--safe-exit"), Plainly("false")])
         == Script(shell, launcher) + ["--system", q.system, "--core", core, "--rom", q.rom]
            + Given("--cpu", q.cpu) + Given("--audio", q.options.audio)
            + (if q.options.latency > 0 then ["--audio-latency", Decimal(q.options.latency)] else [])
            + Given("--dosbox-pure-force60fps", q.options.force60) + Given("--dosbox-pure-cycles", q.options.cycles) + ["--safe-exit", "false"]
  {
    hide ItemValues, Invocation, WithOptions, Script, Given, Decimal;
    var a := Invocation(shell, launcher);
    var b := a + [Plainly("--system"), Safely(q.system)];
    var c := b + [Plainly("--core"), Safely(core)];
    var e := c + [Plainly("--rom"), Safely(q.rom)];
    InvocationIs(shell, launcher);
    ValuesConcat(a, [Plainly("--system"), Safely(q.system)]);
    ValuesConcat(b, [Plainly("--core"), Safely(core)]);
    ValuesConcat(c, [Plainly("--rom"), Safely(q.rom)]);
    ValuesConcat(WithOptions(e, q), [Plainly("--safe-exit"), Plainly("false")]);
    PairIs("--system", q.system);
    PairIs("--core", core);
    PairIs("--rom", q.rom);
    PairIs("--safe-exit", "false");
    OptionsAre(e, q);
    var s := Script(shell, launcher);
    assert s + ["--system", q.system] + ["--core", core] + ["--rom", q.rom] == s + ["--system", q.system, "--core", core, "--rom", q.rom];
  }

  lemma EnvIs(name: string, v: string)
    ensures Policy(name, v) == Env(name, v)
  {}

  lemma PyxelCommandIs(rom: string)
    ensures PyxelCommand(rom).Some? <==> EndsLike(rom, ".pyxapp") || EndsLike(rom, ".py")
    ensures PyxelCommand(rom).Some? ==> PyxelCommand(rom).value == if EndsLike(rom, ".pyxapp") then "play" else "run"
  {
    hide Extension, EndsLike;
    assert "." + "pyxapp" == ".pyxapp" && "." + "py" == ".py";
    ExtensionIff(rom, "pyxapp");
    ExtensionIff(rom, "py");
  }

  lemma PyxelNames(profile: string)
    requires Kind(profile, "pyxel:")
    ensures var name := PyxelLauncher(Detail(profile, "pyxel:"));
            && (name.Some? <==> PyxelDevice(profile))
            && (name.Some? ==> name.value != "" && name.value[0] != '/' && "bin" + "/" + name.value == PyxelScript(profile))
  {
    hide PyxelLauncher, PyxelDevice;
    var x := Detail(profile, "pyxel:");
    assert profile == "pyxel:" + x && (profile == "pyxel:" <==> x == "");
    PyxelDeviceIff(profile, x);
    PyxelLauncherIs(x);
    if PyxelLauncher(x).Some? {
      var v := if x == "" then "v90s" else x;
      assert "bin" + "/" + ("plumos-pyxel-" + v + "-launch") == "bin/plumos-pyxel-" + v + "-launch";
    }
  }

  lemma PyxelDeviceIff(profile: string, x: string)
    requires profile == "pyxel:" + x
    ensures PyxelDevice(profile) <==> x in ["", "v90s", "bubble", "mf", "a30", "mmf"]
  {
    PyxelRest(profile, x, "");
    PyxelRest(profile, x, "v90s");
    PyxelRest(profile, x, "bubble");
    PyxelRest(profile, x, "mf");
    PyxelRest(profile, x, "a30");
    PyxelRest(profile, x, "mmf");
    PyxelProfiles();
  }

  lemma PyxelProfiles()
    ensures "pyxel:" + "" == "pyxel:" && "pyxel:" + "v90s" == "pyxel:v90s" && "pyxel:" + "bubble" == "pyxel:bubble"
    ensures "pyxel:" + "mf" == "pyxel:mf" && "pyxel:" + "a30" == "pyxel:a30" && "pyxel:" + "mmf" == "pyxel:mmf"
  {}

  lemma PyxelLauncherIs(x: string)
    ensures PyxelLauncher(x).Some? <==> x in ["", "v90s", "bubble", "mf", "a30", "mmf"]
    ensures PyxelLauncher(x).Some? ==> PyxelLauncher(x).value == "plumos-pyxel-" + (if x == "" then "v90s" else x) + "-launch"
    ensures PyxelLauncher(x).Some? ==> PyxelLauncher(x).value != "" && PyxelLauncher(x).value[0] == 'p'
  {
    LauncherNames();
  }

  lemma LauncherNames()
    ensures "plumos-pyxel-" + "v90s" + "-launch" == "plumos-pyxel-v90s-launch" && "plumos-pyxel-" + "mf" + "-launch" == "plumos-pyxel-mf-launch"
    ensures "plumos-pyxel-" + "a30" + "-launch" == "plumos-pyxel-a30-launch" && "plumos-pyxel-" + "mmf" + "-launch" == "plumos-pyxel-mmf-launch"
    ensures "plumos-pyxel-" + "bubble" + "-launch" == "plumos-pyxel-bubble-launch"
  {}

  lemma PyxelRest(profile: string, x: string, y: string)
    requires profile == "pyxel:" + x
    ensures profile == "pyxel:" + y <==> x == y
  {
    assert profile[6..] == x && ("pyxel:" + y)[6..] == y;
  }

  lemma PyxelGood(d: Device, q: Request)
    requires Kind(q.profile, "pyxel:") && !Kind(q.profile, "retroarch:")
    ensures Good(d, q, Pyxel(d, q, Detail(q.profile, "pyxel:")))
  {
    hide In, Under, ItemValues, Invocation, Script, PyxelLauncher, PyxelDevice, PyxelScript, PyxelCommand, EndsLike, Policy, Env;
    var x := Detail(q.profile, "pyxel:");
    PyxelNames(q.profile);
    PyxelCommandIs(q.rom);
    EnvIs("PLUMOS_PYXEL_CPU_POLICY", q.cpu);
    if PyxelLauncher(x).Some? {
      UnderIs(q.root, "bin", PyxelLauncher(x).value);
      PyxelScriptIs(q.profile);
      if Pyxel(d, q, x).Start? {
        PyxelWords(d.shell.value, In(q.root, PyxelScript(q.profile)), PyxelCommand(q.rom).value, q.rom);
      }
    }
  }

  lemma PyxelScriptIs(profile: string)
    requires Kind(profile, "pyxel:")
    ensures PyxelScript(profile) == "bin/plumos-pyxel-" + (if profile == "pyxel:" then "v90s" else Detail(profile, "pyxel:")) + "-launch"
  {}

  lemma PyxelWords(shell: string, launcher: string, command: string, rom: string)
    ensures ItemValues(Invocation(shell, launcher) + [Plainly("-m"), Plainly("pyxel"), Plainly(command), Safely(rom)])
         == Script(shell, launcher) + ["-m", "pyxel", command, rom]
  {
    hide ItemValues, Invocation, Script;
    var a := [Plainly("-m"), Plainly("pyxel")];
    ValuesConcat(Invocation(shell, launcher), [Plainly("-m"), Plainly("pyxel"), Plainly(command), Safely(rom)]);
    ValuesConcat(a, [Plainly(command), Safely(rom)]);
    InvocationIs(shell, launcher);
    PairIs("-m", "pyxel");
    PairIs(command, rom);
    assert a + [Plainly(command), Safely(rom)] == [Plainly("-m"), Plainly("pyxel"), Plainly(command), Safely(rom)];
  }

  lemma PicoarchGood(d: Device, q: Request)
    requires Kind(q.profile, "picoarch:") && !Kind(q.profile, "retroarch:") && !Kind(q.profile, "pyxel:")
    ensures Good(d, q, Picoarch(d, q, Detail(q.profile, "picoarch:")))
  {
    hide In, Under, PicoCore, CorePath, PicoPath, ItemValues, Invocation, Script, Policy, Env;
    var id := Detail(q.profile, "picoarch:");
    UnderIs(q.root, "bin", "plumos-picoarch-launch");
    PicoarchBin();
    PicoCoreIs(d.files, q.root, id);
    RootFits(q.root);
    EnvIs("PLUMOS_PICOARCH_CPU_POLICY", q.cpu);
    if Picoarch(d, q, id).Start? {
      TwoWords(d.shell.value, In(q.root, "bin/plumos-picoarch-launch"), id, q.rom);
    }
  }

  lemma RootFits(root: string)
    ensures |In(root, "picoarch/cores")| < |In(root, "bin/plumos-picoarch-launch")|
  {}

  lemma TwoWords(shell: string, launcher: string, a: string, b: string)
    ensures ItemValues(Invocation(shell, launcher) + [Safely(a), Safely(b)]) == Script(shell, launcher) + [a, b]
    ensures ItemValues(Invocation(shell, launcher) + [Safely(b)]) == Script(shell, launcher) + [b]
  {
    hide ItemValues, Invocation, Script;
    ValuesConcat(Invocation(shell, launcher), [Safely(a), Safely(b)]);
    ValuesConcat(Invocation(shell, launcher), [Safely(b)]);
    InvocationIs(shell, launcher);
    PairIs(a, b);
    ValueIs(b);
  }

  lemma StandaloneGood(d: Device, q: Request)
    requires Kind(q.profile, "standalone:") && !Kind(q.profile, "retroarch:") && !Kind(q.profile, "pyxel:") && !Kind(q.profile, "picoarch:")
    ensures Good(d, q, Standalone(d, q, Detail(q.profile, "standalone:")))
  {
    hide In, Under, ItemValues, Invocation, Script, Policy, Env, Content, DirectoryOf, EndsLike;
    var emulator := Detail(q.profile, "standalone:");
    UnderIs(q.root, "bin", "plumos-standalone-launch");
    StandaloneBin();
    EnvIs("PLUMOS_STANDALONE_CPU_POLICY", q.cpu);
    assert q.profile == "standalone:" + emulator;
    assert q.profile == "standalone:" <==> emulator == "";
    EasyRpg(q.profile, emulator);
    ContentIs(emulator, q.rom);
    if Standalone(d, q, emulator).Start? {
      TwoWords(d.shell.value, In(q.root, "bin/plumos-standalone-launch"), emulator, Content(emulator, q.rom));
    }
  }

  lemma EasyRpg(profile: string, emulator: string)
    requires profile == "standalone:" + emulator
    ensures profile == "standalone:easyrpg" <==> emulator == "easyrpg"
  {
    assert profile[11..] == emulator && "standalone:easyrpg"[11..] == "easyrpg";
    assert "standalone:" + "easyrpg" == "standalone:easyrpg";
  }

  lemma ContentIs(emulator: string, rom: string)
    ensures if emulator == "easyrpg" && EndsLike(rom, ".ldb") then DirectoryOf(Content(emulator, rom), rom) else Content(emulator, rom) == rom
  {
    hide Extension, EndsLike, DirectoryOf, Dirname;
    assert "." + "ldb" == ".ldb";
    ExtensionIff(rom, "ldb");
    DirnameIs(rom);
  }

  lemma ExternalGood(d: Device, q: Request)
    requires Kind(q.profile, "external:") && !Kind(q.profile, "retroarch:") && !Kind(q.profile, "pyxel:") && !Kind(q.profile, "picoarch:")
    requires !Kind(q.profile, "standalone:")
    ensures Good(d, q, External(d, q))
  {
    hide In, JoinPath, ItemValues, Invocation, Script;
    JoinIs(PATH_MAX, q.root, "bin/plumos-portmaster-port-launch");
    if External(d, q).Start? {
      TwoWords(d.shell.value, In(q.root, "bin/plumos-portmaster-port-launch"), "", q.rom);
      InvocationIs(d.shell.value, q.rom);
    }
  }

  /** A request is started exactly when it can be asked of the device, and then with the words that were asked for. */
  lemma WantedIsGood(d: Device, q: Request)
    ensures Good(d, q, WantedFor(d, q))
  {
    hide Good, Retroarch, Pyxel, Picoarch, Standalone, External, Starts, After, Detail;
    KindIs(q.profile, "retroarch:");
    KindIs(q.profile, "pyxel:");
    KindIs(q.profile, "picoarch:");
    KindIs(q.profile, "standalone:");
    KindIs(q.profile, "external:");
    if Kind(q.profile, "retroarch:") {
      RetroarchGood(d, q);
    } else if Kind(q.profile, "pyxel:") {
      PyxelGood(d, q);
    } else if Kind(q.profile, "picoarch:") {
      PicoarchGood(d, q);
    } else if Kind(q.profile, "standalone:") {
      StandaloneGood(d, q);
    } else if Kind(q.profile, "external:") {
      ExternalGood(d, q);
    } else {
      UnknownKind(d, q);
    }
  }

  lemma UnknownKind(d: Device, q: Request)
    requires !Kind(q.profile, "retroarch:") && !Kind(q.profile, "pyxel:") && !Kind(q.profile, "picoarch:") && !Kind(q.profile, "standalone:")
    requires !Kind(q.profile, "external:")
    ensures Good(d, q, NoCommand)
  {
    assert "external:port"[..9] == "external:";
  }

  /** A request that is no launch at all: an unknown kind or Pyxel build, or a ROM that Pyxel cannot run. */
  lemma NoCommandIff(d: Device, q: Request)
    ensures WantedFor(d, q).NoCommand?
       <==> if Kind(q.profile, "retroarch:") then false
            else if Kind(q.profile, "pyxel:") then
              !PyxelDevice(q.profile) || (|In(q.root, PyxelScript(q.profile))| < 1024 && !EndsLike(q.rom, ".pyxapp") && !EndsLike(q.rom, ".py"))
            else !Kind(q.profile, "picoarch:") && !Kind(q.profile, "standalone:") && !Kind(q.profile, "external:")
  {
    hide Under, In, PyxelLauncher, PyxelDevice, PyxelScript, PyxelCommand, EndsLike, Starts, After, Detail, Invocation;
    KindIs(q.profile, "retroarch:");
    KindIs(q.profile, "pyxel:");
    KindIs(q.profile, "picoarch:");
    KindIs(q.profile, "standalone:");
    KindIs(q.profile, "external:");
    if Kind(q.profile, "pyxel:") {
      PyxelNames(q.profile);
      PyxelCommandIs(q.rom);
      var name := PyxelLauncher(Detail(q.profile, "pyxel:"));
      if name.Some? { UnderIs(q.root, "bin", name.value); }
    }
  }

  // ---------- when a command may be run ----------

  predicate There(d: Device, q: Request, file: string) { In(q.root, file) in d.files }

  /** The ROM exists, and so do the launcher and the core; RetroArch and PicoArch need more launchers where a device has their other
      builds switched on. */
  predicate CanRun(d: Device, q: Request) {
    && Askable(d, q, q.rom) && q.rom in d.roms
    && if Kind(q.profile, "retroarch:") then
         && There(d, q, "bin/plumos-retroarch-launch") && CorePath(q.root, "cores", Detail(q.profile, "retroarch:")) in d.files
         && (There(d, q, "config/enable-mmf-ra-runtime") || There(d, q, "config/enable-mmf-onion-compatible-ra") ==>
               There(d, q, "bin/plumos-retroarch-mmf-launch") || There(d, q, "bin/plumos-retroarch-onion-launch"))
       else if Kind(q.profile, "pyxel:") then There(d, q, PyxelScript(q.profile))
       else if Kind(q.profile, "picoarch:") then
         && There(d, q, "bin/plumos-picoarch-launch") && PicoPath(d.files, q.root, Detail(q.profile, "picoarch:")) in d.files
         && (There(d, q, "config/enable-mmf-emulator-runtime") || There(d, q, "config/enable-mmf-onion-compatible-emulators") ==>
               There(d, q, "bin/plumos-picoarch-onion-launch") && There(d, q, "bin/plumos-picoarch-launch.noncompat"))
       else if Kind(q.profile, "standalone:") then There(d, q, "bin/plumos-standalone-launch")
       else q.profile == "external:port" ==> There(d, q, "bin/plumos-portmaster-port-launch")
  }

  lemma PresentIff(d: Device, q: Request, file: string, launcher: string)
    requires |In(q.root, launcher)| < 1024 && |file| < 64 && (file == "" || file[0] != '/')
    ensures Present(d, q.root, file) <==> There(d, q, file)
  {
    JoinIs(PATH_MAX, q.root, file);
  }
}
