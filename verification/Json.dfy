/** The strstr-based JSON reader, over a whole text and a range of it. */
module Json {
  import opened Optional

  /** isspace in the C locale. */
  predicate IsSpace(c: char) { c == ' ' || '\t' <= c <= '\r' }

  function SkipWs(t: string, p: nat, end: nat): (r: nat)
    requires p <= end <= |t|
    ensures p <= r <= end
    decreases end - p
  {
    if p < end && IsSpace(t[p]) then SkipWs(t, p + 1, end) else p
  }

  // ---------- strings ----------

  function Unescape(c: char): char {
    if c == 'b' then '\U{0008}' else if c == 'f' then '\U{000C}' else if c == 'n' then '\n'
    else if c == 'r' then '\r' else if c == 't' then '\t' else c
  }

  /** Five escapes stand for control characters, by their ASCII codes; any other escaped character for itself. */
  lemma UnescapeIs(c: char)
    ensures Unescape('b') as int == 8 && Unescape('t') as int == 9 && Unescape('n') as int == 10
    ensures Unescape('f') as int == 12 && Unescape('r') as int == 13
    ensures c !in "btnfr" ==> Unescape(c) == c
  {}

  /** The characters up to the closing quote, and the position after it. */
  function DecodeRaw(t: string, p: nat, end: nat): (r: Option<(string, nat)>)
    requires end <= |t|
    ensures r.Some? ==> p < r.value.1 <= end
    decreases end - p
  {
    if p >= end then None
    else if t[p] == '"' then Some(("", p + 1))
    else
      var escaped := t[p] == '\\' && p + 1 < end;
      match DecodeRaw(t, if escaped then p + 2 else p + 1, end)
      case None => None
      case Some((s, next)) => Some(([if escaped then Unescape(t[p + 1]) else t[p]] + s, next))
  }

  /** What fits in a buffer of `size` bytes. */
  function Fit(s: string, size: nat): string
    requires size > 0
  {
    if |s| < size then s else s[..size - 1]
  }

  function Decode(t: string, p: nat, end: nat, size: nat): Option<(string, nat)>
    requires end <= |t|
  {
    if p >= end || t[p] != '"' || size == 0 then None
    else match DecodeRaw(t, p + 1, end)
      case None => None
      case Some((s, next)) => Some((Fit(s, size), next))
  }

  /** The string decoded from the start, given what is decoded so far and what the rest decodes to. */
  function Joined(sofar: string, rest: Option<(string, nat)>): Option<(string, nat)> {
    match rest
    case None => None
    case Some((s, next)) => Some((sofar + s, next))
  }

  predicate Escaped(t: string, p: nat, end: nat)
    requires p < end <= |t|
  {
    t[p] == '\\' && p + 1 < end
  }

  lemma JoinedStart(goal: Option<(string, nat)>)
    ensures Joined("", goal) == goal
  {
    assert goal.Some? ==> "" + goal.value.0 == goal.value.0;
  }

  lemma JoinedStep(t: string, p: nat, end: nat, sofar: string)
    requires p < end <= |t| && t[p] != '"'
    ensures var e := Escaped(t, p, end);
            var c := if e then Unescape(t[p + 1]) else t[p];
            Joined(sofar, DecodeRaw(t, p, end)) == Joined(sofar + [c], DecodeRaw(t, if e then p + 2 else p + 1, end))
  {
    var e := Escaped(t, p, end);
    var c := if e then Unescape(t[p + 1]) else t[p];
    var rest := DecodeRaw(t, if e then p + 2 else p + 1, end);
    assert rest.Some? ==> sofar + ([c] + rest.value.0) == (sofar + [c]) + rest.value.0;
  }

  lemma JoinedEnd(t: string, p: nat, end: nat, sofar: string)
    requires end <= |t| && (p >= end || t[p] == '"')
    ensures Joined(sofar, DecodeRaw(t, p, end)) == if p >= end then None else Some((sofar, p + 1))
  {
    assert sofar + "" == sofar;
  }

  method DecodeString(t: string, cursor: nat, end: nat, size: nat) returns (r: Option<(string, nat)>)
    requires end <= |t|
    ensures r == Decode(t, cursor, end, size)
  {
    hide DecodeRaw, Unescape, Joined, Fit;
    var p := cursor;
    if p >= end || t[p] != '"' || size == 0 {
      return None;
    }
    p := p + 1;
    var out := "";
    ghost var all, goal := "", DecodeRaw(t, p, end);
    JoinedStart(goal);
    FitEmpty(size);
    while p < end && t[p] != '"'
      invariant p <= end && out == Fit(all, size) && goal == Joined(all, DecodeRaw(t, p, end))
      decreases end - p
    {
      JoinedStep(t, p, end, all);
      var c := t[p];
      p := p + 1;
      if c == '\\' && p < end {
        c := Unescape(t[p]);
        p := p + 1;
      }
      FitStep(all, c, size);
      if |out| + 1 < size {
        out := out + [c];
      }
      all := all + [c];
    }
    JoinedEnd(t, p, end, all);
    if p >= end || t[p] != '"' {
      return None;
    }
    return Some((out, p + 1));
  }

  lemma FitEmpty(size: nat)
    requires size > 0
    ensures Fit("", size) == ""
  {}

  /** A character is stored only while room is left for it and the terminator. */
  lemma FitStep(s: string, c: char, size: nat)
    requires size > 0
    ensures Fit(s + [c], size) == if |Fit(s, size)| + 1 < size then Fit(s, size) + [c] else Fit(s, size)
  {}

  // ---------- key lookup ----------

  /** Position of the ':' that follows a name ending at z, if one follows. */
  predicate ColonFollows(t: string, z: nat, end: nat)
    requires end <= |t|
  {
    z <= end && SkipWs(t, z, end) < end && t[SkipWs(t, z, end)] == ':'
  }

  predicate Pattern(t: string, q: nat, key: string) {
    && q + |key| + 2 <= |t| && t[q] == '"' && t[q + |key| + 1] == '"'
    && t[q + 1..q + 1 + |key|] == key
  }

  predicate KeyAt(t: string, q: nat, end: nat, key: string)
    requires end <= |t|
  {
    Pattern(t, q, key) && ColonFollows(t, q + |key| + 2, end)
  }

  /** Where the value of the first such key starts. */
  function Find(t: string, p: nat, end: nat, key: string): (r: Option<nat>)
    requires end <= |t|
    ensures r.Some? ==> r.value <= end
    decreases end - p
  {
    if p >= end then None
    else if KeyAt(t, p, end, key) then Some(SkipWs(t, SkipWs(t, p + |key| + 2, end) + 1, end))
    else Find(t, p + 1, end, key)
  }

  /** strstr: the first match at or after p. */
  method StrStr(t: string, p: nat, key: string) returns (q: nat)
    ensures p <= q
    ensures forall i | p <= i < q :: !Pattern(t, i, key)
    ensures q < |t| ==> Pattern(t, q, key)
  {
    q := p;
    while q < |t| && !Pattern(t, q, key)
      invariant p <= q
      invariant forall i | p <= i < q :: !Pattern(t, i, key)
    {
      q := q + 1;
    }
  }

  method FindKeyValue(t: string, start: nat, end: nat, key: string) returns (r: Option<nat>)
    requires end <= |t|
    ensures r == Find(t, start, end, key)
  {
    var p := start;
    while p < end
      invariant Find(t, start, end, key) == Find(t, p, end, key)
    {
      var q := StrStr(t, p, key);
      if q >= end {
        NoneBetween(t, p, end, end, key);
        return None;
      }
      NoneBetween(t, p, q, end, key);
      if q + |key| + 2 <= end {
        var w := SkipWs(t, q + |key| + 2, end);
        if w < end && t[w] == ':' {
          return Some(SkipWs(t, w + 1, end));
        }
      }
      p := q + 1;
    }
    return None;
  }

  lemma {:induction false} NoneBetween(t: string, p: nat, q: nat, end: nat, key: string)
    requires p <= q <= end <= |t|
    requires forall i | p <= i < q :: !KeyAt(t, i, end, key)
    ensures Find(t, p, end, key) == Find(t, q, end, key)
    decreases q - p
  {
    if p < q {
      NoneBetween(t, p + 1, q, end, key);
    }
  }

  function GetString(t: string, start: nat, end: nat, key: string, size: nat): Option<string>
    requires end <= |t|
  {
    match Find(t, start, end, key)
    case None => None
    case Some(v) =>
      match Decode(t, v, end, size)
      case None => None
      case Some((s, _)) => Some(s)
  }

  /** Any run of the six blanks may stand before and behind the colon. */
  lemma BlanksAreSkipped(t: string, p: nat, end: nat, key: string, z: nat, v: nat)
    requires p < end <= |t| && Pattern(t, p, key) && p + |key| + 2 <= z < v < end
    requires t[z] == ':' && t[v] !in " \t\n\r\U{000B}\U{000C}"
    requires forall i | p + |key| + 2 <= i < v && i != z :: t[i] in " \t\n\r\U{000B}\U{000C}"
    ensures Find(t, p, end, key) == Some(v)
  {
    hide IsSpace;
    BlankIs();
    SkipsTo(t, p + |key| + 2, end, z);
    SkipsTo(t, z + 1, end, v);
  }

  lemma BlankIs()
    ensures forall c :: IsSpace(c) <==> c in " \t\n\r\U{000B}\U{000C}"
  {}

  lemma {:induction false} SkipsTo(t: string, p: nat, end: nat, q: nat)
    requires p <= q < end <= |t| && (forall i | p <= i < q :: IsSpace(t[i])) && !IsSpace(t[q])
    ensures SkipWs(t, p, end) == q
    decreases q - p
  {
    if p < q { SkipsTo(t, p + 1, end, q); }
  }

  // ---------- containers ----------

  /** Position of the bracket that closes the container the scan is inside. */
  function CloseFrom(t: string, p: nat, end: nat, open: char, close: char, depth: int, inString: bool, escape: bool): (r: Option<nat>)
    requires end <= |t|
    ensures r.Some? ==> p <= r.value < end
    decreases end - p
  {
    if p >= end then None
    else if escape then CloseFrom(t, p + 1, end, open, close, depth, inString, false)
    else if inString && t[p] == '\\' then CloseFrom(t, p + 1, end, open, close, depth, inString, true)
    else if t[p] == '"' then CloseFrom(t, p + 1, end, open, close, depth, !inString, false)
    else if !inString && t[p] == open then CloseFrom(t, p + 1, end, open, close, depth + 1, inString, false)
    else if !inString && t[p] == close then
      if depth - 1 == 0 then Some(p) else CloseFrom(t, p + 1, end, open, close, depth - 1, inString, false)
    else CloseFrom(t, p + 1, end, open, close, depth, inString, false)
  }

  function Close(t: string, start: nat, end: nat, open: char, close: char): (r: Option<nat>)
    requires end <= |t|
    ensures r.Some? ==> start <= r.value < end
  {
    if start >= end || t[start] != open then None else CloseFrom(t, start, end, open, close, 0, false, false)
  }

  method MatchContainer(t: string, start: nat, end: nat, open: char, close: char) returns (r: Option<nat>)
    requires end <= |t|
    ensures r == Close(t, start, end, open, close)
  {
    var p, depth, inString, escape := start, 0, false, false;
    if p >= end || t[p] != open {
      return None;
    }
    while p < end
      invariant start <= p <= end
      invariant Close(t, start, end, open, close) == CloseFrom(t, p, end, open, close, depth, inString, escape)
    {
      if escape {
        escape := false;
      } else if inString && t[p] == '\\' {
        escape := true;
      } else if t[p] == '"' {
        inString := !inString;
      } else if !inString && t[p] == open {
        depth := depth + 1;
      } else if !inString && t[p] == close {
        depth := depth - 1;
        if depth == 0 {
          return Some(p);
        }
      }
      p := p + 1;
    }
    return None;
  }

  /** The inside of the array that is the key's value. */
  function FindArray(t: string, key: string): (r: Option<(nat, nat)>)
    ensures r.Some? ==> r.value.0 <= r.value.1 <= |t|
  {
    match Find(t, 0, |t|, key)
    case None => None
    case Some(v) =>
      match Close(t, v, |t|, '[', ']')
      case None => None
      case Some(c) => Some((if v < c then v + 1 else c, c))
  }

  function SkipTo(t: string, p: nat, end: nat, c: char): (r: nat)
    requires p <= end <= |t|
    ensures p <= r <= end && (r < end ==> t[r] == c)
    decreases end - p
  {
    if p < end && t[p] != c then SkipTo(t, p + 1, end, c) else p
  }

  /** The next object at or after the cursor, both braces included. */
  function NextObject(t: string, cursor: nat, end: nat): (r: Option<(nat, nat)>)
    requires cursor <= end <= |t|
    ensures r.Some? ==> cursor <= r.value.0 < r.value.1 <= end
  {
    var p := SkipTo(t, cursor, end, '{');
    if p >= end then None
    else match Close(t, p, end, '{', '}')
      case None => None
      case Some(c) => Some((p, c + 1))
  }

  method FindStringAt(t: string, start: nat, end: nat, key: string, size: nat) returns (r: Option<string>)
    requires end <= |t|
    ensures r == GetString(t, start, end, key, size)
  {
    var v := FindKeyValue(t, start, end, key);
    if v.None? {
      return None;
    }
    var s := DecodeString(t, v.value, end, size);
    return if s.None? then None else Some(s.value.0);
  }

  method NextObjectAt(t: string, cursor: nat, end: nat) returns (r: Option<(nat, nat)>)
    requires cursor <= end <= |t|
    ensures r == NextObject(t, cursor, end)
  {
    var p := cursor;
    while p < end && t[p] != '{'
      invariant cursor <= p <= end && SkipTo(t, cursor, end, '{') == SkipTo(t, p, end, '{')
    {
      p := p + 1;
    }
    if p >= end {
      return None;
    }
    var c := MatchContainer(t, p, end, '{', '}');
    return if c.None? then None else Some((p, c.value + 1));
  }

  method FindArrayAt(t: string, key: string) returns (r: Option<(nat, nat)>)
    ensures r == FindArray(t, key)
  {
    var v := FindKeyValue(t, 0, |t|, key);
    if v.None? {
      return None;
    }
    var c := MatchContainer(t, v.value, |t|, '[', ']');
    return if c.None? then None else Some((if v.value < c.value then v.value + 1 else c.value, c.value));
  }

  lemma NextAdvances(t: string, p: nat, end: nat)
    requires p <= end <= |t|
    ensures NextObject(t, p, end).Some? ==> p <= NextObject(t, p, end).value.0 < NextObject(t, p, end).value.1 <= end
  {}
}
