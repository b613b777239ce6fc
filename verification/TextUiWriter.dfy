/** The printing steps the text UI's state files share. */
module TextUiWriter {
  import opened Strings
  import opened Json
  import opened JsonText
  import opened JsonObject
  import opened ArrayFile
  import opened TextUiList

  method WriteEscaped(f: string, s: string) returns (out: string)
    ensures out == f + Quote(TextUi, s)
  {
    hide EscChar;
    out := f + "\"";
    ghost var start := out;
    var i := 0;
    assert s[0..] == s;
    while i < |s|
      invariant 0 <= i <= |s| && out + Esc(TextUi, s[i..]) == start + Esc(TextUi, s)
    {
      assert s[i..][1..] == s[i + 1..];
      EscHead(TextUi, s[i..]);
      EscCases(s[i]);
      var c := s[i];
      if c == '"' || c == '\\' {
        out := out + ['\\', c];
      } else if c == BACKSPACE {
        out := out + "\\b";
      } else if c == FORM_FEED {
        out := out + "\\f";
      } else if c == '\n' {
        out := out + "\\n";
      } else if c == '\r' {
        out := out + "\\r";
      } else if c == '\t' {
        out := out + "\\t";
      } else if c < ' ' {
        out := out + ['\\', 'u', '0', '0', HexDigit(c as int / 16), HexDigit(c as int % 16)];
      } else {
        out := out + [c];
      }
      i := i + 1;
    }
    NothingLeft(s);
    assert out + "" == out;
    out := out + "\"";
    Closed(f, s);
  }

  lemma Closed(f: string, s: string)
    ensures ((f + "\"") + Esc(TextUi, s)) + "\"" == f + Quote(TextUi, s)
  {
    hide Esc;
    Grouped(f, "\"", Esc(TextUi, s));
    Grouped(f, "\"" + Esc(TextUi, s), "\"");
  }

  lemma NothingLeft(s: string)
    ensures Esc(TextUi, s[|s|..]) == ""
  {}

  lemma EscCases(c: char)
    ensures EscChar(TextUi, c)
         == if c == '"' || c == '\\' then ['\\', c]
            else if c == BACKSPACE then "\\b" else if c == FORM_FEED then "\\f" else if c == '\n' then "\\n"
            else if c == '\r' then "\\r" else if c == '\t' then "\\t"
            else if c < ' ' then ['\\', 'u', '0', '0', HexDigit(c as int / 16), HexDigit(c as int % 16)]
            else [c]
  {}

  // ---------- an object so far ----------

  function Pair(f: (string, Value)): string { Quote(TextUi, f.0) + (": " + ValueText(TextUi, f.1)) }

  function Tail(fs: Fields): string { if fs == [] then "" else (", " + Pair(fs[0])) + Tail(fs[1..]) }

  /** The text of an object before its closing brace. */
  function Start(fs: Fields): string
    requires fs != []
  {
    ("{ " + Pair(fs[0])) + Tail(fs[1..])
  }

  lemma {:induction false} TailSnoc(fs: Fields, f: (string, Value))
    ensures Tail(fs + [f]) == Tail(fs) + (", " + Pair(f))
    decreases |fs|
  {
    hide Pair;
    if fs == [] {
      assert [f][1..] == [] && fs + [f] == [f];
      assert (", " + Pair(f)) + "" == "" + (", " + Pair(f));
    } else {
      assert (fs + [f])[1..] == fs[1..] + [f];
      TailSnoc(fs[1..], f);
    }
  }

  lemma StartSnoc(fs: Fields, f: (string, Value))
    requires fs != []
    ensures Start(fs + [f]) == Start(fs) + (", " + Pair(f))
  {
    hide Pair, Tail;
    TailSnoc(fs[1..], f);
    assert (fs + [f])[1..] == fs[1..] + [f];
  }

  lemma {:induction false} FieldsEnd(fs: Fields)
    requires fs != []
    ensures FieldsText(TextUi, fs) == Pair(fs[0]) + (Tail(fs[1..]) + " }")
    decreases |fs|
  {
    hide Quote, ValueText;
    Unfold(TextUi, fs);
    if |fs| == 1 {
      assert fs[1..] == [];
      assert "" + " }" == " }";
    } else {
      FieldsEnd(fs[1..]);
      assert fs[1..][0] == fs[1];
      hide Pair, FieldsText;
      Grouped(", ", Pair(fs[1]), Tail(fs[1..][1..]) + " }");
      Grouped(", " + Pair(fs[1]), Tail(fs[1..][1..]), " }");
    }
  }

  lemma ObjectEnds(fs: Fields)
    requires fs != []
    ensures Object(fs) == Start(fs) + " }"
  {
    hide Pair, Tail, FieldsText;
    FieldsEnd(fs);
  }

  /** The first field, on its own line. */
  method WriteFirst(f: string, name: string, v: string) returns (out: string)
    requires IsName(name)
    ensures out == (f + "    ") + Start([(name, Text(v))])
  {
    hide Quote;
    NameLength(TextUi, name);
    out := WriteEscaped(f + ("    { \"" + name + "\": "), v);
    ghost var q := Quote(TextUi, name);
    FirstShape(f, name, Quote(TextUi, v));
    ghost var fs: Fields := [(name, Text(v))];
    assert fs[1..] == [];
    assert ("{ " + (q + (": " + Quote(TextUi, v)))) + "" == "{ " + (q + (": " + Quote(TextUi, v)));
  }

  lemma FirstShape(f: string, name: string, v: string)
    ensures (f + ("    { \"" + name + "\": ")) + v == (f + "    ") + ("{ " + (("\"" + name + "\"") + (": " + v)))
  {}

  lemma NextShape(f: string, name: string, v: string)
    ensures (f + (", \"" + name + "\": ")) + v == f + (", " + (("\"" + name + "\"") + (": " + v)))
  {}

  /** One more string field. */
  method WriteText(f: string, name: string, v: string, ghost line: string, ghost done: Fields) returns (out: string)
    requires IsName(name) && done != [] && f == line + Start(done)
    ensures out == line + Start(done + [(name, Text(v))])
  {
    hide Quote, Start;
    NameLength(TextUi, name);
    out := WriteEscaped(f + (", \"" + name + "\": "), v);
    NextShape(f, name, Quote(TextUi, v));
    StartSnoc(done, (name, Text(v)));
    Grouped(line, Start(done), ", " + Pair((name, Text(v))));
  }

  /** One more number or truth value. */
  method WritePlain(f: string, name: string, v: string, ghost line: string, ghost done: Fields) returns (out: string)
    requires IsName(name) && done != [] && f == line + Start(done)
    ensures out == line + Start(done + [(name, Plain(v))])
  {
    hide Quote, Start;
    NameLength(TextUi, name);
    out := (f + (", \"" + name + "\": ")) + v;
    NextShape(f, name, v);
    StartSnoc(done, (name, Plain(v)));
    Grouped(line, Start(done), ", " + Pair((name, Plain(v))));
  }

  /** A string field unless it is empty. */
  method WriteChoice(f: string, name: string, v: string, ghost line: string, ghost done: Fields) returns (out: string)
    requires IsName(name) && done != [] && f == line + Start(done)
    ensures out == line + Start(done + Choice(name, v))
  {
    hide Start;
    out := f;
    if v != "" {
      out := WriteText(f, name, v, line, done);
    } else {
      assert done + [] == done;
    }
  }

  method EndLine(f: string, last: bool, ghost line: string, ghost done: Fields) returns (out: string)
    requires done != [] && f == line + Start(done)
    ensures out == line + (Object(done) + LineEnd(last))
  {
    hide Start, Object;
    ObjectEnds(done);
    var end := if last then "" else ",";
    out := f + (" }" + end + "\n");
    assert " }" + end + "\n" == " }" + LineEnd(last);
    Grouped(line, Start(done), " }" + LineEnd(last));
    Grouped(Start(done), " }", LineEnd(last));
  }

  // ---------- the file around the lines ----------

  const OPENING := "{\n  \"version\": 1,\n"

  function ArrayHead(key: string): string { "  \"" + key + "\": [\n" }

  lemma VersionLiteral()
    ensures OPENING + "  " == "{\n  " + (Quote(TextUi, "version") + ": 1,\n  ")
  {
    hide Quote;
    NameLength(TextUi, "version");
  }

  /** One line more of the items. */
  lemma LineWritten(f: string, objs: seq<Fields>, last: bool)
    requires Written(objs) && objs != [] && last == (|objs| == 1)
    ensures ((f + "    ") + (Object(objs[0]) + LineEnd(last))) + Items(objs[1..]) == f + Items(objs)
  {
    hide Items, Object, LineEnd;
    UnfoldItems(objs);
    LineShape(f, Object(objs[0]), LineEnd(last), Items(objs[1..]));
  }

  lemma LineShape(f: string, text: string, line: string, rest: string)
    ensures ((f + "    ") + (text + line)) + rest == f + ("    " + (text + (line + rest)))
  {}

  lemma HeadIs(key: string)
    requires IsName(key)
    ensures "  " + (Quote(TextUi, key) + (": " + ("[" + "\n"))) == ArrayHead(key)
  {
    hide Quote;
    NameLength(TextUi, key);
  }

  /** An array member behind two blanks: its head, its lines, its bracket. */
  lemma MemberIs(key: string, objs: seq<Fields>, rest: string)
    requires Written(objs) && IsName(key)
    ensures "  " + Member(TextUi, key, Body(objs), rest) == ArrayHead(key) + (Items(objs) + (("  ]") + rest))
  {
    hide Quote, Items, ArrayHead;
    HeadIs(key);
    MemberShape(Quote(TextUi, key), Items(objs), rest);
  }

  lemma MemberShape(q: string, items: string, rest: string)
    ensures "  " + (q + (": " + ("[" + (("\n" + (items + "  ")) + ("]" + rest)))))
         == ("  " + (q + (": " + ("[" + "\n")))) + (items + (("  ]") + rest))
  {
    assert "  " + ("]" + rest) == "  ]" + rest;
    assert ("\n" + (items + "  ")) + ("]" + rest) == "\n" + (items + ("  " + ("]" + rest)));
  }

  lemma FileIs(members: string)
    ensures FileOf(TextUi, members) == OPENING + ("  " + members)
  {
    hide Quote;
    VersionLiteral();
    var v := Quote(TextUi, "version");
    Grouped(OPENING, "  ", members);
    OpenShape(v, members);
  }

  lemma OpenShape(v: string, members: string)
    ensures "{\n  " + (v + (": 1,\n  " + members)) == ("{\n  " + (v + ": 1,\n  ")) + members
  {}

  /** A file of one array, in the order it is printed. */
  lemma OneArrayIs(key: string, objs: seq<Fields>)
    requires Written(objs) && IsName(key)
    ensures OneArray(key, objs) == (((OPENING + ArrayHead(key)) + Items(objs)) + "  ]\n") + "}\n"
  {
    hide FileOf, Member, Items, ArrayHead, Body;
    FileIs(Member(TextUi, key, Body(objs), "\n}\n"));
    MemberIs(key, objs, "\n}\n");
    ClosingShape(ArrayHead(key), Items(objs));
  }

  lemma ClosingShape(h: string, items: string)
    ensures OPENING + (h + (items + (("  ]") + "\n}\n"))) == (((OPENING + h) + items) + "  ]\n") + "}\n"
  {
    assert "  ]" + "\n}\n" == "  ]\n" + "}\n";
    Grouped(OPENING + h, items, "  ]\n" + "}\n");
    Grouped(OPENING, h, items + ("  ]\n" + "}\n"));
    Grouped((OPENING + h) + items, "  ]\n", "}\n");
  }

  /** A file of two arrays, in the order it is printed. */
  lemma TwoArraysIs(key1: string, objs1: seq<Fields>, key2: string, objs2: seq<Fields>)
    requires Written(objs1) && Written(objs2) && IsName(key1) && IsName(key2)
    ensures TwoArrays(key1, objs1, key2, objs2)
         == (((((((OPENING + ArrayHead(key1)) + Items(objs1)) + "  ],\n") + ArrayHead(key2)) + Items(objs2)) + "  ]\n") + "}\n")
  {
    hide FileOf, Member, Items, ArrayHead, Body;
    var second := Member(TextUi, key2, Body(objs2), "\n}\n");
    FileIs(Member(TextUi, key1, Body(objs1), ",\n  " + second));
    MemberIs(key1, objs1, ",\n  " + second);
    MemberIs(key2, objs2, "\n}\n");
    assert "  ]" + (",\n  " + second) == "  ],\n" + ("  " + second);
    TwoShape(ArrayHead(key1), Items(objs1), ArrayHead(key2), Items(objs2));
  }

  lemma TwoShape(h: string, i: string, k: string, j: string)
    ensures OPENING + (h + (i + ("  ],\n" + (k + (j + ("  ]" + "\n}\n"))))))
         == (((((((OPENING + h) + i) + "  ],\n") + k) + j) + "  ]\n") + "}\n")
  {
    assert "  ]" + "\n}\n" == "  ]\n" + "}\n";
    Grouped(OPENING, h, i + ("  ],\n" + (k + (j + ("  ]\n" + "}\n")))));
    var a := OPENING + h;
    Grouped(a, i, "  ],\n" + (k + (j + ("  ]\n" + "}\n"))));
    Grouped(a + i, "  ],\n", k + (j + ("  ]\n" + "}\n")));
    Grouped((a + i) + "  ],\n", k, j + ("  ]\n" + "}\n"));
    Grouped(((a + i) + "  ],\n") + k, j, "  ]\n" + "}\n");
    Grouped((((a + i) + "  ],\n") + k) + j, "  ]\n", "}\n");
  }
}
