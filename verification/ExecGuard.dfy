/** The guard that keeps PortMaster's required library path, preload list and session in every child's environment. */
module ExecGuard {
  import opened Optional

  type Env = seq<string>

  const LIBRARY := "LD_LIBRARY_PATH"
  const PRELOAD := "LD_PRELOAD"
  const SESSION := "PLUMOS_PORTMASTER_SESSION_ID"

  /** What the guard's own environment requires. */
  datatype Required = Required(library: Option<string>, preload: Option<string>, session: Option<string>)

  // ---------- environments ----------

  predicate Assigns(entry: string, name: string) { name + "=" <= entry }

  /** The value of the first entry that assigns the name. */
  function EnvValue(env: Env, name: string): Option<string> {
    if env == [] then None
    else if Assigns(env[0], name) then Some(env[0][|name| + 1..])
    else EnvValue(env[1..], name)
  }

  // ---------- token lists ----------

  function ColonAt(s: string, p: nat): (e: nat)
    requires p <= |s|
    ensures p <= e <= |s| && (e < |s| ==> s[e] == ':')
    decreases |s| - p
  {
    if p < |s| && s[p] != ':' then ColonAt(s, p + 1) else p
  }

  /** The non-empty parts between colons. */
  function TokensFrom(s: string, p: nat): seq<string>
    requires p <= |s|
    decreases |s| - p
  {
    var e := ColonAt(s, p);
    (if e == p then [] else [s[p..e]]) + (if e < |s| then TokensFrom(s, e + 1) else [])
  }

  function Tokens(s: string): seq<string> { TokensFrom(s, 0) }

  predicate In(value: Option<string>, token: string) { value.Some? && token in Tokens(value.value) }

  predicate AllIn(tokens: seq<string>, value: Option<string>) { forall x | x in tokens :: In(value, x) }

  predicate HasTokens(value: Option<string>, required: string) { AllIn(Tokens(required), value) }

  /** A token among those from a position on. */
  predicate TokenFrom(s: string, p: nat, x: string)
    requires p <= |s|
  {
    x in TokensFrom(s, p)
  }

  method TokenPresent(value: Option<string>, token: string) returns (found: bool)
    ensures found <==> token != "" && In(value, token)
  {
    hide TokenFrom, ColonAt, In;
    if value.None? || token == "" {
      NoneIn(token);
      return false;
    }
    var s, cursor := value.value, 0;
    InIs(s, token);
    while cursor < |s|
      invariant cursor <= |s| && (In(value, token) <==> TokenFrom(s, cursor, token))
      decreases |s| - cursor
    {
      var end := ColonAt(s, cursor);
      TokenIn(s, cursor, token);
      if s[cursor..end] == token {
        return true;
      }
      if end == |s| {
        return false;
      }
      cursor := end + 1;
    }
    TokenIn(s, |s|, token);
    return false;
  }

  lemma NoneIn(token: string)
    ensures !In(None, token)
  {}

  lemma InIs(s: string, token: string)
    ensures In(Some(s), token) <==> TokenFrom(s, 0, token)
  {}

  method ContainsRequiredTokens(value: Option<string>, required: string) returns (all: bool)
    ensures all <==> HasTokens(value, required)
  {
    hide TokensFrom, In;
    var cursor := 0;
    while cursor < |required|
      invariant cursor <= |required|
      invariant HasTokens(value, required) == AllIn(TokensFrom(required, cursor), value)
      decreases |required| - cursor
    {
      var end := ColonAt(required, cursor);
      var token := required[cursor..end];
      Unroll(required, cursor);
      if end > cursor {
        var present := TokenPresent(value, token);
        if !present {
          return false;
        }
      }
      if end == |required| {
        return true;
      }
      cursor := end + 1;
    }
    Unroll(required, |required|);
    return true;
  }

  lemma TokenIn(s: string, p: nat, x: string)
    requires p <= |s| && x != ""
    ensures var e := ColonAt(s, p);
            TokenFrom(s, p, x) <==> x == s[p..e] || (e < |s| && TokenFrom(s, e + 1, x))
  {
    hide ColonAt;
  }

  lemma Unroll(s: string, p: nat)
    requires p <= |s|
    ensures var e := ColonAt(s, p);
            var rest := if e < |s| then TokensFrom(s, e + 1) else [];
            && (forall x :: x in TokensFrom(s, p) <==> (p < e && x == s[p..e]) || x in rest)
  {}

  // ---------- guarding ----------

  function Joined(current: Option<string>, required: string): string {
    var c := if current.None? then "" else current.value;
    c + (if c != "" && required != "" then ":" else "") + required
  }

  /** Something is required, and the environment does not have all of it. */
  predicate Lacks(env: Env, name: string, required: Option<string>) {
    required.Some? && required.value != "" && !HasTokens(EnvValue(env, name), required.value)
  }

  predicate Strays(env: Env, session: Option<string>) {
    session.Some? && session.value != "" && EnvValue(env, SESSION) != session
  }

  /** The entries that stay. */
  function Without(env: Env, library: bool, preload: bool, session: bool): Env {
    if env == [] then []
    else
      var last := env[|env| - 1];
      Without(env[..|env| - 1], library, preload, session)
      + (if (library && Assigns(last, LIBRARY)) || (preload && Assigns(last, PRELOAD)) || (session && Assigns(last, SESSION))
         then [] else [last])
  }

  function When(c: bool, entry: string): Env { if c then [entry] else [] }

  /** The environment the child gets. */
  function Guarded(env: Env, r: Required): Env {
    var l, p, s := Lacks(env, LIBRARY, r.library), Lacks(env, PRELOAD, r.preload), Strays(env, r.session);
    if !l && !p && !s then env
    else Without(env, l, p, s)
         + When(l, LIBRARY + "=" + Joined(EnvValue(env, LIBRARY), if r.library.Some? then r.library.value else ""))
         + When(p, PRELOAD + "=" + Joined(EnvValue(env, PRELOAD), if r.preload.Some? then r.preload.value else ""))
         + When(s, SESSION + "=" + (if r.session.Some? then r.session.value else ""))
  }

  method FindValue(env: Env, name: string) returns (r: Option<string>)
    ensures r == EnvValue(env, name)
  {
    for i := 0 to |env|
      invariant EnvValue(env, name) == EnvValue(env[i..], name)
    {
      assert env[i..][1..] == env[i + 1..];
      if Assigns(env[i], name) {
        return Some(env[i][|name| + 1..]);
      }
    }
    return None;
  }

  method Missing(env: Env, name: string, required: Option<string>) returns (lacks: bool)
    ensures lacks == Lacks(env, name, required)
  {
    hide HasTokens, EnvValue;
    var value := FindValue(env, name);
    lacks := false;
    if required.Some? && required.value != "" {
      var all := ContainsRequiredTokens(value, required.value);
      lacks := !all;
    }
  }

  /** Entries as they stand in the array. */
  function Slots(env: Env): seq<Option<string>> { seq(|env|, i requires 0 <= i < |env| => Some(env[i])) }

  method Put(entries: array<Option<string>>, output: nat, entry: string, ghost done: Env)
    requires output < entries.Length && entries[..output] == Slots(done)
    modifies entries
    ensures entries[..output + 1] == Slots(done + [entry])
  {
    entries[output] := Some(entry);
    assert entries[..output] == old(entries[..output]);
    assert entries[..output + 1] == entries[..output] + [Some(entry)];
  }

  /** The array of count + 4 slots, or nothing when the environment may stay as it is. */
  method BuildGuardedEnvironment(env: Env, r: Required) returns (entries: array?<Option<string>>, output: nat)
    ensures entries == null <==> !Lacks(env, LIBRARY, r.library) && !Lacks(env, PRELOAD, r.preload) && !Strays(env, r.session)
    ensures entries == null ==> Guarded(env, r) == env
    ensures entries != null ==>
              && fresh(entries) && entries.Length == |env| + 4
              && output < entries.Length && entries[..output] == Slots(Guarded(env, r)) && entries[output] == None
  {
    hide Lacks, Strays, EnvValue, Joined, Assigns, Slots;
    var l := Missing(env, LIBRARY, r.library);
    var p := Missing(env, PRELOAD, r.preload);
    var session := FindValue(env, SESSION);
    var s := r.session.Some? && r.session.value != "" && session != r.session;
    StraysIs(env, r.session);
    LacksSome(env, LIBRARY, r.library);
    LacksSome(env, PRELOAD, r.preload);
    if !l && !p && !s {
      return null, 0;
    }
    var currentLibrary := FindValue(env, LIBRARY);
    var currentPreload := FindValue(env, PRELOAD);
    entries := new Option<string>[|env| + 4](_ => None);
    output := 0;
    assert entries[..output] == Slots([]) by { NoSlots(); }
    for i := 0 to |env|
      invariant output <= i && entries[..output] == Slots(Without(env[..i], l, p, s))
    {
      assert env[..i + 1][..i] == env[..i];
      if (l && Assigns(env[i], LIBRARY)) || (p && Assigns(env[i], PRELOAD)) || (s && Assigns(env[i], SESSION)) {
        assert Without(env[..i], l, p, s) + [] == Without(env[..i], l, p, s);
        continue;
      }
      Put(entries, output, env[i], Without(env[..i], l, p, s));
      output := output + 1;
    }
    assert env[..|env|] == env;
    output := AddReplaced(entries, output, env, r, Without(env, l, p, s), l, p, s, currentLibrary, currentPreload);
    entries[output] := None;
    assert entries[..output] == Slots(Guarded(env, r));
  }

  lemma NoSlots()
    ensures Slots([]) == []
  {}

  /** The replaced assignments, after the entries that stay. */
  method AddReplaced(entries: array<Option<string>>, start: nat, env: Env, r: Required, ghost done: Env,
                     l: bool, p: bool, s: bool, library: Option<string>, preload: Option<string>) returns (output: nat)
    requires start + 3 < entries.Length && entries[..start] == Slots(done)
    requires r.library.Some? || !l
    requires r.preload.Some? || !p
    requires r.session.Some? || !s
    modifies entries
    ensures start <= output < entries.Length
    ensures entries[..output] == Slots(done + When(l, LIBRARY + "=" + Joined(library, if r.library.Some? then r.library.value else ""))
                                            + When(p, PRELOAD + "=" + Joined(preload, if r.preload.Some? then r.preload.value else ""))
                                            + When(s, SESSION + "=" + (if r.session.Some? then r.session.value else "")))
  {
    hide Slots, Joined;
    output := start;
    ghost var now := done;
    if l {
      Put(entries, output, LIBRARY + "=" + Joined(library, r.library.value), now);
      now, output := now + [LIBRARY + "=" + Joined(library, r.library.value)], output + 1;
    } else {
      assert now + [] == now;
    }
    if p {
      Put(entries, output, PRELOAD + "=" + Joined(preload, r.preload.value), now);
      now, output := now + [PRELOAD + "=" + Joined(preload, r.preload.value)], output + 1;
    } else {
      assert now + [] == now;
    }
    if s {
      Put(entries, output, SESSION + "=" + r.session.value, now);
      now, output := now + [SESSION + "=" + r.session.value], output + 1;
    } else {
      assert now + [] == now;
    }
  }

  lemma LacksSome(env: Env, name: string, required: Option<string>)
    ensures Lacks(env, name, required) ==> required.Some?
  {}

  lemma StraysIs(env: Env, session: Option<string>)
    ensures Strays(env, session) == (session.Some? && session.value != "" && EnvValue(env, SESSION) != session)
  {}

  // ---------- tokens of a joined list ----------

  lemma {:induction false} ColonShift(a: string, b: string, p: nat)
    requires p <= |b|
    ensures ColonAt(a + b, |a| + p) == |a| + ColonAt(b, p)
    decreases |b| - p
  {
    if p < |b| && b[p] != ':' {
      assert (a + b)[|a| + p] == b[p];
      ColonShift(a, b, p + 1);
    } else if p < |b| {
      assert (a + b)[|a| + p] == b[p];
    }
  }

  lemma TokensUnfold(s: string, p: nat)
    requires p <= |s|
    ensures var e := ColonAt(s, p);
            TokensFrom(s, p) == (if e == p then [] else [s[p..e]]) + (if e < |s| then TokensFrom(s, e + 1) else [])
  {
    hide ColonAt;
  }

  lemma {:induction false} TokensShift(a: string, b: string, p: nat)
    requires p <= |b|
    ensures TokensFrom(a + b, |a| + p) == TokensFrom(b, p)
    decreases |b| - p
  {
    hide ColonAt, TokensFrom;
    ColonShift(a, b, p);
    TokensUnfold(b, p);
    TokensUnfold(a + b, |a| + p);
    var e := ColonAt(b, p);
    assert (a + b)[|a| + p..|a| + e] == b[p..e];
    if e < |b| {
      TokensShift(a, b, e + 1);
    }
  }

  lemma {:induction false} ColonSame(a: string, b: string, p: nat)
    requires p <= |a| && b != "" && b[0] == ':'
    ensures ColonAt(a + b, p) == ColonAt(a, p)
    decreases |a| - p
  {
    if p < |a| {
      assert (a + b)[p] == a[p];
      if a[p] != ':' { ColonSame(a, b, p + 1); }
    } else {
      assert (a + b)[p] == b[0];
    }
  }

  lemma {:induction false} TokensJoin(a: string, b: string, p: nat)
    requires p <= |a|
    ensures TokensFrom(a + (":" + b), p) == TokensFrom(a, p) + Tokens(b)
    decreases |a| - p
  {
    hide ColonAt, TokensFrom;
    var c := ":" + b;
    ColonSame(a, c, p);
    TokensUnfold(a, p);
    TokensUnfold(a + c, p);
    var e := ColonAt(a, p);
    var head := if e == p then [] else [a[p..e]];
    assert (a + c)[p..e] == a[p..e];
    if e < |a| {
      TokensJoin(a, b, e + 1);
      assert head + (TokensFrom(a, e + 1) + Tokens(b)) == (head + TokensFrom(a, e + 1)) + Tokens(b);
    } else {
      assert a + c == (a + ":") + b;
      TokensShift(a + ":", b, 0);
      assert head + [] == head;
    }
  }

  /** The joined list has the old tokens, then the required ones, each as it was. */
  lemma JoinedTokens(current: Option<string>, required: string)
    ensures Tokens(Joined(current, required)) == (if current.None? then [] else Tokens(current.value)) + Tokens(required)
    ensures |Joined(current, required)| <= (if current.None? then 0 else |current.value| + 1) + |required|
  {
    hide TokensFrom;
    var c := if current.None? then "" else current.value;
    NoTokens();
    if c != "" && required != "" {
      TokensJoin(c, required, 0);
      assert Joined(current, required) == c + (":" + required);
    } else if c == "" {
      assert Joined(current, required) == required;
    } else {
      assert Joined(current, required) == c;
    }
  }

  lemma NoTokens()
    ensures Tokens("") == []
  {
    assert ColonAt("", 0) == 0;
  }

  lemma JoinedHasAll(current: Option<string>, required: string)
    ensures HasTokens(Some(Joined(current, required)), required)
  {
    hide Tokens, Joined;
    JoinedTokens(current, required);
  }

  // ---------- lookups ----------

  /** An entry assigns at most one name. */
  lemma AssignsOne(entry: string, a: string, b: string)
    requires '=' !in a && '=' !in b && Assigns(entry, a) && Assigns(entry, b)
    ensures a == b
  {
    var x, y := a + "=", b + "=";
    assert x[|a|] == '=' && y[|b|] == '=';
    assert entry[|a|] == '=' && entry[|b|] == '=';
    forall i | 0 <= i < |a| ensures entry[i] == a[i] && entry[i] != '=' { assert x[i] == a[i] && a[i] in a; }
    forall i | 0 <= i < |b| ensures entry[i] == b[i] && entry[i] != '=' { assert y[i] == b[i] && b[i] in b; }
    assert |a| == |b|;
  }

  lemma {:induction false} ValueAppend(a: Env, b: Env, name: string)
    ensures EnvValue(a + b, name) == if EnvValue(a, name).Some? then EnvValue(a, name) else EnvValue(b, name)
    decreases |a|
  {
    hide Assigns;
    if a == [] {
      assert a + b == b;
    } else {
      assert (a + b)[1..] == a[1..] + b;
      ValueAppend(a[1..], b, name);
    }
  }

  lemma OneValue(name: string, v: string, other: string)
    requires '=' !in name && '=' !in other
    ensures EnvValue([name + "=" + v], other) == if other == name then Some(v) else None
  {
    var entry := name + "=" + v;
    assert Assigns(entry, name);
    if Assigns(entry, other) {
      AssignsOne(entry, name, other);
      assert entry[|name| + 1..] == v;
    }
    var rest: Env := [entry][1..];
    assert rest == [];
  }

  lemma WhenValue(c: bool, name: string, v: string, other: string)
    requires '=' !in name && '=' !in other
    ensures EnvValue(When(c, name + "=" + v), other) == if c && other == name then Some(v) else None
  {
    hide EnvValue;
    if c { OneValue(name, v, other); } else { NoValue(other); }
  }

  lemma NoValue(name: string)
    ensures EnvValue([], name) == None
  {}

  predicate Dropped(name: string, l: bool, p: bool, s: bool) {
    (l && name == LIBRARY) || (p && name == PRELOAD) || (s && name == SESSION)
  }

  /** Removing assignments of some names removes all of theirs and none of another's. */
  lemma {:induction false} ValueWithout(env: Env, l: bool, p: bool, s: bool, name: string)
    requires '=' !in name
    ensures EnvValue(Without(env, l, p, s), name) == if Dropped(name, l, p, s) then None else EnvValue(env, name)
    decreases |env|
  {
    hide Assigns;
    if env != [] {
      var n := |env| - 1;
      var front, last := env[..n], env[n];
      ValueWithout(front, l, p, s, name);
      assert env == front + [last];
      ValueAppend(front, [last], name);
      if Assigns(last, name) {
        SameName(last, name, LIBRARY);
        SameName(last, name, PRELOAD);
        SameName(last, name, SESSION);
      }
      var kept := Without(env, l, p, s);
      assert kept == Without(front, l, p, s) || kept == Without(front, l, p, s) + [last];
      ValueAppend(Without(front, l, p, s), [last], name);
      assert EnvValue([last], name).Some? <==> Assigns(last, name);
    }
  }

  lemma SameName(entry: string, name: string, known: string)
    requires '=' !in name && '=' !in known && Assigns(entry, name)
    ensures Assigns(entry, known) <==> known == name
  {
    if Assigns(entry, known) { AssignsOne(entry, name, known); }
  }

  lemma KnownNames()
    ensures '=' !in LIBRARY && '=' !in PRELOAD && '=' !in SESSION
    ensures LIBRARY != PRELOAD && LIBRARY != SESSION && PRELOAD != SESSION
  {}

  // ---------- what guarding achieves ----------

  function ValueAfter(env: Env, r: Required, name: string): Option<string> {
    if name == LIBRARY && Lacks(env, LIBRARY, r.library) then Some(Joined(EnvValue(env, LIBRARY), r.library.value))
    else if name == PRELOAD && Lacks(env, PRELOAD, r.preload) then Some(Joined(EnvValue(env, PRELOAD), r.preload.value))
    else if name == SESSION && Strays(env, r.session) then r.session
    else EnvValue(env, name)
  }

  /** Every lookup in the guarded environment: only what had to change has changed. */
  lemma GuardedValue(env: Env, r: Required, name: string)
    requires '=' !in name
    ensures EnvValue(Guarded(env, r), name) == ValueAfter(env, r, name)
  {
    hide EnvValue, Lacks, Strays, Joined, Without, When;
    LacksSome(env, LIBRARY, r.library);
    LacksSome(env, PRELOAD, r.preload);
    StraysSome(env, r.session);
    KnownNames();
    var l, p, s := Lacks(env, LIBRARY, r.library), Lacks(env, PRELOAD, r.preload), Strays(env, r.session);
    var lv := Joined(EnvValue(env, LIBRARY), if r.library.Some? then r.library.value else "");
    var pv := Joined(EnvValue(env, PRELOAD), if r.preload.Some? then r.preload.value else "");
    var sv := if r.session.Some? then r.session.value else "";
    var e0 := Without(env, l, p, s);
    var e1 := e0 + When(l, LIBRARY + "=" + lv);
    var e2 := e1 + When(p, PRELOAD + "=" + pv);
    ValueWithout(env, l, p, s, name);
    ValueAppend(e0, When(l, LIBRARY + "=" + lv), name);
    ValueAppend(e1, When(p, PRELOAD + "=" + pv), name);
    ValueAppend(e2, When(s, SESSION + "=" + sv), name);
    WhenValue(l, LIBRARY, lv, name);
    WhenValue(p, PRELOAD, pv, name);
    WhenValue(s, SESSION, sv, name);
  }

  lemma StraysSome(env: Env, session: Option<string>)
    ensures Strays(env, session) ==> session.Some?
  {}

  /** After guarding nothing is lacking: every required token is present and the session matches. */
  lemma GuardedIsComplete(env: Env, r: Required)
    ensures var g := Guarded(env, r); !Lacks(g, LIBRARY, r.library) && !Lacks(g, PRELOAD, r.preload) && !Strays(g, r.session)
  {
    hide Guarded, EnvValue, Joined, HasTokens;
    KnownNames();
    GuardedValue(env, r, LIBRARY);
    GuardedValue(env, r, PRELOAD);
    GuardedValue(env, r, SESSION);
    if Lacks(env, LIBRARY, r.library) {
      JoinedHasAll(EnvValue(env, LIBRARY), r.library.value);
    }
    if Lacks(env, PRELOAD, r.preload) {
      JoinedHasAll(EnvValue(env, PRELOAD), r.preload.value);
    }
  }

  /** What a child finds under each name: all required library and preload tokens behind the ones that were there, the required
      session, and every other variable as it was. */
  lemma GuardedNames(env: Env, r: Required, name: string)
    requires '=' !in name
    ensures var g := Guarded(env, r);
            && (r.library.Some? ==> HasTokens(EnvValue(g, "LD_LIBRARY_PATH"), r.library.value))
            && (r.preload.Some? ==> HasTokens(EnvValue(g, "LD_PRELOAD"), r.preload.value))
            && (r.session.Some? && r.session.value != "" ==> EnvValue(g, "PLUMOS_PORTMASTER_SESSION_ID") == r.session)
            && (EnvValue(env, name).Some? ==> EnvValue(g, name).Some?)
            && (name != "PLUMOS_PORTMASTER_SESSION_ID" && EnvValue(env, name).Some? ==>
                  Tokens(EnvValue(env, name).value) <= Tokens(EnvValue(g, name).value))
            && (name !in ["LD_LIBRARY_PATH", "LD_PRELOAD", "PLUMOS_PORTMASTER_SESSION_ID"] ==> EnvValue(g, name) == EnvValue(env, name))
  {
    hide Guarded, EnvValue, Joined, TokensFrom;
    GuardedIsComplete(env, r);
    GuardedValue(env, r, name);
    NoTokens();
    if r.library.Some? { JoinedTokens(EnvValue(env, LIBRARY), r.library.value); }
    if r.preload.Some? { JoinedTokens(EnvValue(env, PRELOAD), r.preload.value); }
  }

  /** A second guard changes nothing, and the guard changes nothing exactly when nothing is lacking. */
  lemma GuardIsFixedPoint(env: Env, r: Required)
    ensures Guarded(Guarded(env, r), r) == Guarded(env, r)
    ensures Guarded(env, r) == env <==> !Lacks(env, LIBRARY, r.library) && !Lacks(env, PRELOAD, r.preload) && !Strays(env, r.session)
  {
    hide EnvValue, Joined, HasTokens, Without;
    GuardedIsComplete(env, r);
  }

  lemma {:induction false} WithoutTwice(env: Env, l: bool, p: bool, s: bool)
    ensures Without(Without(env, l, p, s), true, true, true) == Without(env, true, true, true)
    decreases |env|
  {
    hide Assigns;
    if env != [] {
      var n := |env| - 1;
      WithoutTwice(env[..n], l, p, s);
      assert Without(env[..n], l, p, s) + [] == Without(env[..n], l, p, s);
      WithoutSnoc(Without(env[..n], l, p, s), env[n], true, true, true);
      assert Without(env[..n], true, true, true) + [] == Without(env[..n], true, true, true);
    }
  }

  lemma WithoutSnoc(env: Env, entry: string, l: bool, p: bool, s: bool)
    ensures Without(env + [entry], l, p, s) == Without(env, l, p, s)
         + (if (l && Assigns(entry, LIBRARY)) || (p && Assigns(entry, PRELOAD)) || (s && Assigns(entry, SESSION)) then [] else [entry])
  {
    assert (env + [entry])[..|env|] == env;
  }

  lemma WithoutWhen(env: Env, c: bool, name: string, v: string)
    requires name == LIBRARY || name == PRELOAD || name == SESSION
    ensures Without(env + When(c, name + "=" + v), true, true, true) == Without(env, true, true, true)
  {
    var entry := name + "=" + v;
    assert Assigns(entry, name);
    hide Assigns;
    if c {
      WithoutSnoc(env, entry, true, true, true);
    } else {
      assert env + [] == env;
    }
  }

  /** The entries that assign none of the three names are the same ones, in the same order. */
  lemma UnrelatedStay(env: Env, r: Required)
    ensures Without(Guarded(env, r), true, true, true) == Without(env, true, true, true)
  {
    hide Lacks, Strays, Joined, Without, When;
    var l, p, s := Lacks(env, LIBRARY, r.library), Lacks(env, PRELOAD, r.preload), Strays(env, r.session);
    var lv := Joined(EnvValue(env, LIBRARY), if r.library.Some? then r.library.value else "");
    var pv := Joined(EnvValue(env, PRELOAD), if r.preload.Some? then r.preload.value else "");
    var sv := if r.session.Some? then r.session.value else "";
    var e0 := Without(env, l, p, s);
    var e1 := e0 + When(l, LIBRARY + "=" + lv);
    WithoutTwice(env, l, p, s);
    WithoutWhen(e0, l, LIBRARY, lv);
    WithoutWhen(e1, p, PRELOAD, pv);
    WithoutWhen(e1 + When(p, PRELOAD + "=" + pv), s, SESSION, sv);
  }
}
