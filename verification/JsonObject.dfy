/** Objects and arrays of objects, as the writers lay them out, under the reader. */
module JsonObject {
  import opened Optional
  import opened Json
  import opened JsonText

  // ---------- objects ----------

  /** A quoted string, or a number or truth value as it is. */
  datatype Value = Text(s: string) | Plain(s: string)

  type Fields = seq<(string, Value)>

  predicate PlainWord(s: string) { s != "" && forall c | c in s :: 'a' <= c <= 'z' || '0' <= c <= '9' || c == '-' }

  predicate Proper(fs: Fields) {
    forall i | 0 <= i < |fs| :: IsName(fs[i].0) && (fs[i].1.Plain? ==> PlainWord(fs[i].1.s))
  }

  function ValueText(w: Writer, v: Value): string { if v.Text? then Quote(w, v.s) else v.s }

  function FieldsText(w: Writer, fs: Fields): string
    requires fs != []
  {
    Quote(w, fs[0].0) + (": " + (ValueText(w, fs[0].1) + (if |fs| == 1 then " }" else ", " + FieldsText(w, fs[1..]))))
  }

  function ObjectText(w: Writer, fs: Fields): string
    requires fs != []
  {
    "{ " + FieldsText(w, fs)
  }

  /** What stands after the first value. */
  function Rest(w: Writer, fs: Fields): string
    requires fs != []
  {
    if |fs| == 1 then " }" else ", " + FieldsText(w, fs[1..])
  }

  /** The first field in place: name, separator, value, rest. */
  lemma FirstField(w: Writer, t: string, p: nat, fs: Fields)
    requires fs != [] && Has(t, p, FieldsText(w, fs))
    ensures var k, v := |Quote(w, fs[0].0)|, |ValueText(w, fs[0].1)|;
            && Has(t, p, Quote(w, fs[0].0)) && Has(t, p, Quote(w, fs[0].0) + ": ") && Has(t, p + k, ": ")
            && Has(t, p + k + 2, ValueText(w, fs[0].1)) && Has(t, p + k + 2 + v, Rest(w, fs))
            && |FieldsText(w, fs)| == k + 2 + v + |Rest(w, fs)| && p + |FieldsText(w, fs)| <= |t|
  {
    hide FieldsText, Quote, Rest, ValueText;
    var name, value := Quote(w, fs[0].0), ValueText(w, fs[0].1);
    assert FieldsText(w, fs) == name + (": " + (value + Rest(w, fs))) by { Unfold(w, fs); }
    HasAppend(t, p, name, ": " + (value + Rest(w, fs)));
    HasAppend(t, p + |name|, ": ", value + Rest(w, fs));
    HasAppend(t, p + |name| + 2, value, Rest(w, fs));
    HasAppend(t, p, name, ": ");
  }

  lemma Unfold(w: Writer, fs: Fields)
    requires fs != []
    ensures FieldsText(w, fs) == Quote(w, fs[0].0) + (": " + (ValueText(w, fs[0].1) + Rest(w, fs)))
  {}

  lemma ValueStart(w: Writer, t: string, p: nat, v: Value)
    requires Has(t, p, ValueText(w, v)) && (v.Plain? ==> PlainWord(v.s))
    ensures |ValueText(w, v)| >= 1 && p < |t| && !IsSpace(t[p]) && (t[p] == '"' <==> v.Text?)
  {
    HasChar(t, p, ValueText(w, v), 0);
    if v.Plain? {
      assert v.s[0] in v.s;
    }
  }

  lemma SkipsValue(w: Writer, t: string, p: nat, end: nat, key: string, v: Value)
    requires end <= |t| && Has(t, p, ValueText(w, v)) && p + |ValueText(w, v)| < end && IsName(key)
    requires v.Plain? ==> PlainWord(v.s)
    requires t[p + |ValueText(w, v)|] != key[0] && !ColonFollows(t, p + |ValueText(w, v)|, end)
    ensures Find(t, p, end, key) == Find(t, p + |ValueText(w, v)|, end, key)
  {
    hide Quote, Find, IsName, Has, ColonFollows;
    if v.Text? {
      SkipsQuoted(w, t, p, end, key, v.s);
    } else {
      SkipsRaw(t, p, end, key, v.s);
    }
  }

  lemma ClosesPastValue(w: Writer, t: string, p: nat, end: nat, open: char, close: char, depth: int, v: Value)
    requires end <= |t| && Has(t, p, ValueText(w, v)) && p + |ValueText(w, v)| <= end
    requires (v.Plain? ==> PlainWord(v.s)) && (open, close) in {('{', '}'), ('[', ']')}
    ensures CloseFrom(t, p, end, open, close, depth, false, false)
         == CloseFrom(t, p + |ValueText(w, v)|, end, open, close, depth, false, false)
  {
    hide Quote, CloseFrom, Has;
    if v.Text? {
      ClosesPastQuoted(w, t, p, end, open, close, depth, v.s);
    } else {
      ClosesPastRaw(t, p, end, open, close, depth, v.s);
    }
  }

  // ---------- looking fields up ----------

  /** The value of the first field of a name. */
  function Lookup(fs: Fields, key: string): Option<Value> {
    if fs == [] then None else if fs[0].0 == key then Some(fs[0].1) else Lookup(fs[1..], key)
  }

  lemma {:induction false} LookupAppend(a: Fields, b: Fields, key: string)
    ensures Lookup(a + b, key) == if Lookup(a, key).Some? then Lookup(a, key) else Lookup(b, key)
    decreases |a|
  {
    if a == [] {
      assert a + b == b;
    } else {
      assert (a + b)[1..] == a[1..] + b;
      LookupAppend(a[1..], b, key);
    }
  }

  lemma {:induction false} LookupAt(fs: Fields, i: nat)
    requires i < |fs| && forall j | 0 <= j < i :: fs[j].0 != fs[i].0
    ensures Lookup(fs, fs[i].0) == Some(fs[i].1)
    decreases |fs|
  {
    if i > 0 {
      assert fs[0].0 != fs[i].0;
      LookupAt(fs[1..], i - 1);
    }
  }

  lemma LookupOne(name: string, v: Value, key: string)
    ensures Lookup([(name, v)], key) == if key == name then Some(v) else None
  {
    var fs: Fields := [(name, v)];
    assert fs[1..] == [];
  }

  lemma LookupTwo(name: string, v: Value, name2: string, v2: Value, key: string)
    ensures Lookup([(name, v), (name2, v2)], key) == if key == name then Some(v) else if key == name2 then Some(v2) else None
  {
    hide Lookup;
    LookupOne(name, v, key);
    LookupOne(name2, v2, key);
    LookupAppend([(name, v)], [(name2, v2)], key);
    assert [(name, v)] + [(name2, v2)] == [(name, v), (name2, v2)];
  }

  /** A written value stands here, before a comma or a space. */
  predicate ValueAt(w: Writer, t: string, end: nat, pos: nat, v: Value) {
    && Has(t, pos, ValueText(w, v)) && pos + |ValueText(w, v)| < end <= |t|
    && (t[pos + |ValueText(w, v)|] == ',' || t[pos + |ValueText(w, v)|] == ' ')
  }

  /** Looking up a key in a written object finds the value of the first field of that name, whatever the values contain,
      and passes over the whole object if there is none. */
  lemma {:induction false} FieldFound(w: Writer, t: string, p: nat, end: nat, fs: Fields, key: string)
    requires fs != [] && Proper(fs) && IsName(key)
    requires end <= |t| && Has(t, p, FieldsText(w, fs)) && p + |FieldsText(w, fs)| <= end
    ensures match Lookup(fs, key)
            case None => Find(t, p, end, key) == Find(t, p + |FieldsText(w, fs)|, end, key)
            case Some(v) => Find(t, p, end, key).Some? && ValueAt(w, t, end, Find(t, p, end, key).value, v)
    decreases |fs|
  {
    hide FieldsText, Quote, ValueText, Find, IsName, PlainWord, Has, ColonFollows, Rest;
    FirstField(w, t, p, fs);
    var k, v := |Quote(w, fs[0].0)|, |ValueText(w, fs[0].1)|;
    var z := p + k + 2 + v;
    RestStart(w, t, z, fs);
    ValueStart(w, t, p + k + 2, fs[0].1);
    if fs[0].0 == key {
      NameLength(w, key);
      FindsKey(w, t, p, end, key);
    } else {
      SkipsField(w, t, p, end, fs, key);
      RestParts(w, t, z, fs);
      if |fs| == 1 {
        SkipsRaw(t, z, end, key, " }");
        assert Lookup(fs[1..], key) == None;
      } else {
        SkipsRaw(t, z, end, key, ", ");
        FieldFound(w, t, z + 2, end, fs[1..], key);
      }
    }
  }

  lemma RestParts(w: Writer, t: string, z: nat, fs: Fields)
    requires fs != [] && Has(t, z, Rest(w, fs))
    ensures |fs| == 1 ==> |Rest(w, fs)| == 2 && Has(t, z, " }") && Has(t, z, " ") && t[z + 1] == '}'
    ensures |fs| > 1 ==> |Rest(w, fs)| == 2 + |FieldsText(w, fs[1..])| && Has(t, z, ", ") && Has(t, z + 2, FieldsText(w, fs[1..]))
  {
    hide FieldsText, Quote, ValueText;
    if |fs| == 1 {
      assert " " + "}" == " }";
      HasAppend(t, z, " ", "}");
      HasChar(t, z, " }", 1);
    } else {
      HasAppend(t, z, ", ", FieldsText(w, fs[1..]));
    }
  }

  lemma QuoteStart(w: Writer, t: string, p: nat, v: string)
    requires Has(t, p, Quote(w, v))
    ensures |Quote(w, v)| >= 2 && p < |t| && t[p] == '"'
  {
    HasChar(t, p, Quote(w, v), 0);
  }

  /** After a value stands a comma, or a space and a brace: no colon. */
  lemma RestStart(w: Writer, t: string, z: nat, fs: Fields)
    requires fs != [] && Has(t, z, Rest(w, fs))
    ensures |Rest(w, fs)| >= 2 && z < |t| && (t[z] == ',' || t[z] == ' ')
    ensures forall end | z + |Rest(w, fs)| <= end <= |t| :: !ColonFollows(t, z, end)
  {
    HasChar(t, z, Rest(w, fs), 0);
    HasChar(t, z, Rest(w, fs), 1);
    if |fs| == 1 {
      forall end | z + 2 <= end <= |t| ensures !ColonFollows(t, z, end) {
        assert SkipWs(t, z, end) == SkipWs(t, z + 1, end) == z + 1;
      }
    }
  }

  lemma NameStart(key: string)
    requires IsName(key)
    ensures key[0] != ',' && key[0] != ' ' && key[0] != ':' && key[0] != ']' && key[0] != '['
  {
    assert key[0] in key;
  }

  /** A lookup of another key passes over the first name and value. */
  lemma SkipsField(w: Writer, t: string, p: nat, end: nat, fs: Fields, key: string)
    requires fs != [] && Proper(fs) && IsName(key) && key != fs[0].0
    requires end <= |t| && Has(t, p, FieldsText(w, fs)) && p + |FieldsText(w, fs)| <= end
    ensures Find(t, p, end, key) == Find(t, p + |FieldsText(w, fs)| - |Rest(w, fs)|, end, key)
  {
    hide FieldsText, Quote, ValueText, Find, IsName, PlainWord, Has, Rest;
    FirstField(w, t, p, fs);
    NameStart(key);
    var k, v := |Quote(w, fs[0].0)|, |ValueText(w, fs[0].1)|;
    HasChar(t, p + k, ": ", 0);
    QuoteStart(w, t, p, fs[0].0);
    RestStart(w, t, p + k + 2 + v, fs);
    SkipsQuoted(w, t, p, end, key, fs[0].0);
    SkipsRaw(t, p + k, end, key, ": ");
    SkipsValue(w, t, p + k + 2, end, key, fs[0].1);
  }

  /** A bracket scan passes over the fields of a written object up to its closing brace. */
  lemma {:induction false} ClosesPastFields(w: Writer, t: string, p: nat, end: nat, open: char, close: char, depth: int, fs: Fields)
    requires fs != [] && Proper(fs) && (open, close) in {('{', '}'), ('[', ']')}
    requires end <= |t| && Has(t, p, FieldsText(w, fs)) && p + |FieldsText(w, fs)| <= end
    ensures CloseFrom(t, p, end, open, close, depth, false, false)
         == CloseFrom(t, p + |FieldsText(w, fs)| - 1, end, open, close, depth, false, false)
    ensures t[p + |FieldsText(w, fs)| - 1] == '}'
    decreases |fs|
  {
    hide FieldsText, Quote, ValueText, CloseFrom, Has, Rest, PlainWord, IsName;
    FirstField(w, t, p, fs);
    var k, v := |Quote(w, fs[0].0)|, |ValueText(w, fs[0].1)|;
    var z := p + k + 2 + v;
    ClosesPastQuoted(w, t, p, end, open, close, depth, fs[0].0);
    ClosesPastRaw(t, p + k, end, open, close, depth, ": ");
    ClosesPastValue(w, t, p + k + 2, end, open, close, depth, fs[0].1);
    RestParts(w, t, z, fs);
    if |fs| == 1 {
      ClosesPastRaw(t, z, end, open, close, depth, " ");
    } else {
      ClosesPastRaw(t, z, end, open, close, depth, ", ");
      ClosesPastFields(w, t, z + 2, end, open, close, depth, fs[1..]);
    }
  }

  // ---------- objects in an array ----------

  /** The next object after a separator without braces is exactly the written one. */
  lemma NextIs(w: Writer, t: string, p: nat, end: nat, sep: string, fs: Fields)
    requires fs != [] && Proper(fs) && '{' !in sep
    requires end <= |t| && Has(t, p, sep) && Has(t, p + |sep|, ObjectText(w, fs)) && p + |sep| + |ObjectText(w, fs)| <= end
    ensures NextObject(t, p, end) == Some((p + |sep|, p + |sep| + |ObjectText(w, fs)|))
  {
    hide FieldsText, Has, CloseFrom, SkipTo, Proper;
    var o := p + |sep|;
    ObjectParts(w, t, o, fs);
    SkipsTo(t, p, end, sep);
    ClosesPastRaw(t, o + 1, end, '{', '}', 1, " ");
    ClosesPastFields(w, t, o + 2, end, '{', '}', 1, fs);
    OpensBrace(t, o, end);
    ClosesBrace(t, o + |ObjectText(w, fs)| - 1, end);
  }

  lemma ObjectParts(w: Writer, t: string, p: nat, fs: Fields)
    requires fs != [] && Has(t, p, ObjectText(w, fs))
    ensures Has(t, p, "{ ") && Has(t, p + 1, " ") && Has(t, p + 2, FieldsText(w, fs))
    ensures p < |t| && t[p] == '{' && |ObjectText(w, fs)| == 2 + |FieldsText(w, fs)| && |FieldsText(w, fs)| >= 1
  {
    hide FieldsText, Quote, ValueText, Has;
    HasLength(t, p, ObjectText(w, fs));
    HasAppend(t, p, "{ ", FieldsText(w, fs));
    assert "{" + " " == "{ ";
    HasAppend(t, p, "{", " ");
    HasChar(t, p, "{ ", 0);
    FirstField(w, t, p + 2, fs);
  }

  lemma {:induction false} SkipsTo(t: string, p: nat, end: nat, sep: string)
    requires '{' !in sep && end <= |t| && Has(t, p, sep) && p + |sep| < end && t[p + |sep|] == '{'
    ensures SkipTo(t, p, end, '{') == p + |sep|
    decreases |sep|
  {
    if sep != "" {
      HasChar(t, p, sep, 0);
      assert sep[..1] + sep[1..] == sep;
      HasAppend(t, p, sep[..1], sep[1..]);
      SkipsTo(t, p + 1, end, sep[1..]);
    }
  }

  lemma OpensBrace(t: string, p: nat, end: nat)
    requires p < end <= |t| && t[p] == '{'
    ensures CloseFrom(t, p, end, '{', '}', 0, false, false) == CloseFrom(t, p + 1, end, '{', '}', 1, false, false)
  {}

  lemma ClosesBrace(t: string, p: nat, end: nat)
    requires p < end <= |t| && t[p] == '}'
    ensures CloseFrom(t, p, end, '{', '}', 1, false, false) == Some(p)
  {}

  lemma NoneLeft(t: string, p: nat, end: nat, s: string)
    requires '{' !in s && Has(t, p, s) && end == p + |s|
    ensures NextObject(t, p, end) == None
  {
    NoBrace(t, p, end);
    forall i | p <= i < end ensures t[i] != '{' {
      HasChar(t, p, s, i - p);
    }
  }

  lemma {:induction false} NoBrace(t: string, p: nat, end: nat)
    requires p <= end <= |t|
    ensures (forall i | p <= i < end :: t[i] != '{') ==> SkipTo(t, p, end, '{') == end
    decreases end - p
  {
    if p < end {
      NoBrace(t, p + 1, end);
    }
  }

  /** What a string lookup gets from a looked-up value. */
  function GetsString(w: Writer, v: Option<Value>, size: nat): Option<string>
    requires size > 0
  {
    if v.Some? && v.value.Text? then Some(Fit(Reads(w, v.value.s), size)) else None
  }

  lemma NothingAfter(t: string, end: nat, key: string)
    requires end <= |t|
    ensures Find(t, end, end, key) == None
  {}

  /** Looking up any key in a written object, from brace to brace. */
  lemma ObjectFound(w: Writer, t: string, p: nat, fs: Fields, key: string)
    requires fs != [] && Proper(fs) && IsName(key) && Has(t, p, ObjectText(w, fs))
    ensures var end := p + |ObjectText(w, fs)|;
            end <= |t| && match Lookup(fs, key)
                          case None => Find(t, p, end, key) == None
                          case Some(v) => Find(t, p, end, key).Some? && ValueAt(w, t, end, Find(t, p, end, key).value, v)
  {
    hide FieldsText, Find, Proper, IsName, ValueAt, Lookup, Has;
    var end := p + |ObjectText(w, fs)|;
    HasLength(t, p, ObjectText(w, fs));
    ObjectParts(w, t, p, fs);
    SkipsRaw(t, p, end, key, "{ ");
    FieldFound(w, t, p + 2, end, fs, key);
    NothingAfter(t, end, key);
  }

  /** A string lookup gives the first field of that name, read back. */
  lemma ObjectReads(w: Writer, t: string, p: nat, fs: Fields, key: string, size: nat)
    requires fs != [] && Proper(fs) && IsName(key) && size > 0 && Has(t, p, ObjectText(w, fs))
    ensures p + |ObjectText(w, fs)| <= |t|
    ensures GetString(t, p, p + |ObjectText(w, fs)|, key, size) == GetsString(w, Lookup(fs, key), size)
  {
    hide ObjectText, Find, DecodeRaw, Reads, Fit, Lookup, IsName, PlainWord, Quote;
    ObjectFound(w, t, p, fs, key);
    var end := p + |ObjectText(w, fs)|;
    if Lookup(fs, key).Some? {
      var v, pos := Lookup(fs, key).value, Find(t, p, end, key).value;
      LookupProper(fs, key);
      ValueStart(w, t, pos, v);
      if v.Text? {
        DecodesQuote(w, t, pos, end, v.s, size);
      }
    }
  }

  lemma {:induction false} LookupProper(fs: Fields, key: string)
    requires Proper(fs)
    ensures Lookup(fs, key).Some? && Lookup(fs, key).value.Plain? ==> PlainWord(Lookup(fs, key).value.s)
  {
    if fs != [] && fs[0].0 != key {
      LookupProper(fs[1..], key);
    }
  }

  lemma HasLength(t: string, p: nat, s: string)
    requires Has(t, p, s)
    ensures p + |s| <= |t|
  {}

  // ---------- array members ----------

  /** An array member of the file: key, colon, bracketed body. */
  function Member(w: Writer, key: string, body: string, rest: string): string {
    Quote(w, key) + (": " + ("[" + (body + ("]" + rest))))
  }

  lemma ObjectCloses(w: Writer, t: string, p: nat, end: nat, fs: Fields)
    requires fs != [] && Proper(fs) && end <= |t| && Has(t, p, ObjectText(w, fs)) && p + |ObjectText(w, fs)| <= end
    ensures CloseFrom(t, p, end, '[', ']', 1, false, false) == CloseFrom(t, p + |ObjectText(w, fs)|, end, '[', ']', 1, false, false)
  {
    hide FieldsText, CloseFrom, Has, Proper;
    ObjectParts(w, t, p, fs);
    ClosesPastRaw(t, p, end, '[', ']', 1, "{ ");
    ClosesPastFields(w, t, p + 2, end, '[', ']', 1, fs);
    BraceIsRaw(t, p + 2 + |FieldsText(w, fs)| - 1, end);
  }

  lemma BraceIsRaw(t: string, p: nat, end: nat)
    requires p < end <= |t| && t[p] == '}'
    ensures CloseFrom(t, p, end, '[', ']', 1, false, false) == CloseFrom(t, p + 1, end, '[', ']', 1, false, false)
  {}

  /** Where an array member stands, a lookup of its key finds its body, if the scan passes over that. */
  lemma MemberFound(w: Writer, t: string, p: nat, key: string, body: string, rest: string)
    requires IsName(key) && Has(t, p, Member(w, key, body, rest)) && Find(t, 0, |t|, key) == Find(t, p, |t|, key)
    requires p + |key| + 5 + |body| < |t|
    requires CloseFrom(t, p + |key| + 5, |t|, '[', ']', 1, false, false)
          == CloseFrom(t, p + |key| + 5 + |body|, |t|, '[', ']', 1, false, false)
    ensures var s := p + |key| + 5; FindArray(t, key) == Some((s, s + |body|))
  {
    hide Quote, CloseFrom, Has, Find;
    MemberParts(w, t, p, key, body, rest);
    FindsKey(w, t, p, |t|, key);
    OpensBracket(t, p + |key| + 4);
    ClosesBracket(t, p + |key| + 5 + |body|);
  }

  lemma MemberParts(w: Writer, t: string, p: nat, key: string, body: string, rest: string)
    requires IsName(key) && Has(t, p, Member(w, key, body, rest))
    ensures var s := p + |key| + 5;
            && |Quote(w, key)| == |key| + 2 && Has(t, p, Quote(w, key)) && Has(t, p, Quote(w, key) + ": ") && Has(t, p + |key| + 2, ": [")
            && Has(t, s, body) && Has(t, s + |body|, "]" + rest) && Has(t, s + |body| + 1, rest)
            && s + |body| + 1 + |rest| <= |t| && t[s - 1] == '[' && t[s + |body|] == ']' && t[s - 3] == ':'
  {
    hide Quote, Has, IsName;
    var q := Quote(w, key);
    NameLength(w, key);
    var s := p + |key| + 5;
    HasLength(t, p, Member(w, key, body, rest));
    HasAppend(t, p, q, ": " + ("[" + (body + ("]" + rest))));
    HasAppend(t, p + |q|, ": ", "[" + (body + ("]" + rest)));
    HasAppend(t, p, q, ": ");
    HasAppend(t, s - 1, "[", body + ("]" + rest));
    HasAppend(t, p + |q|, ": ", "[");
    assert ": " + "[" == ": [";
    HasAppend(t, s, body, "]" + rest);
    HasAppend(t, s + |body|, "]", rest);
    HasChar(t, s - 1, "[", 0);
    HasChar(t, s + |body|, "]", 0);
    HasChar(t, s - 3, ": ", 0);
  }

  lemma OpensBracket(t: string, p: nat)
    requires p < |t| && t[p] == '['
    ensures Close(t, p, |t|, '[', ']') == CloseFrom(t, p + 1, |t|, '[', ']', 1, false, false)
  {}

  lemma ClosesBracket(t: string, p: nat)
    requires p < |t| && t[p] == ']'
    ensures CloseFrom(t, p, |t|, '[', ']', 1, false, false) == Some(p)
  {}

  lemma WholeText(t: string)
    ensures Has(t, 0, t)
  {}

  lemma BracketSkips(t: string, p: nat, key: string)
    requires p < |t| && t[p] == ']'
    ensures Find(t, p, |t|, key) == Find(t, p + 1, |t|, key)
  {}

  // ---------- the text of a field, regrouped around its value ----------

  /** A field printed as name, value and rest, regrouped around its value. */
  lemma FieldText(w: Writer, fs: Fields)
    requires fs != [] && fs[0].1.Text?
    ensures FieldsText(w, fs) == (Quote(w, fs[0].0) + (": " + "\"")) + (Esc(w, fs[0].1.s) + ("\"" + Rest(w, fs)))
  {
    hide FieldsText, Quote, Esc, Rest;
    Unfold(w, fs);
    Quoted(w, fs[0].1.s);
    Associate(Quote(w, fs[0].0), Esc(w, fs[0].1.s), Rest(w, fs));
  }

  lemma Quoted(w: Writer, v: string)
    ensures Quote(w, v) == "\"" + (Esc(w, v) + "\"")
  {}

  lemma Associate(q: string, e: string, rest: string)
    ensures q + (": " + (("\"" + (e + "\"")) + rest)) == (q + (": " + "\"")) + (e + ("\"" + rest))
  {}

  lemma Split(a: string, b: string)
    ensures "{ " + (a + b) == ("{ " + a) + b
  {}
}
