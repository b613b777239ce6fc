/** How a POSIX shell reads the command line: quoting, words and the simple command they make. */
module ShellWord {
  import opened Optional

  // ---------- XCU sections 2.2.1, 2.2.2 and 2.9.1 of POSIX.1-2017 ----------

  /** A character of a word, and whether it was quoted. */
  datatype Letter = Bare(c: char) | Quoted(c: char)

  type Word = seq<Letter>

  datatype Mode = Plain | InQuotes | AfterBackslash | Unknown

  /** The words that are complete, and the one being read. */
  datatype Lexer = Lexer(words: seq<Word>, word: Option<Word>, mode: Mode)

  const START := Lexer([], None, Plain)

  predicate NameChar(c: char) { 'a' <= c <= 'z' || 'A' <= c <= 'Z' || '0' <= c <= '9' || c == '_' }

  /** Characters that mean only themselves; every other unquoted character is outside this reading. */
  predicate Ordinary(c: char) { NameChar(c) || c == '-' || c == '.' || c == '/' || c == '=' }

  predicate Blank(c: char) { c == ' ' || c == '\t' }

  function Sofar(word: Option<Word>): Word { if word.None? then [] else word.value }

  function With(l: Lexer, letters: Word, mode: Mode): Lexer {
    Lexer(l.words, Some(Sofar(l.word) + letters), mode)
  }

  function EndWord(l: Lexer): Lexer {
    if l.word.None? then l else Lexer(l.words + [l.word.value], None, l.mode)
  }

  function Step(l: Lexer, c: char): Lexer {
    match l.mode
    case Unknown => l
    case Plain =>
      if Blank(c) then EndWord(l)
      else if c == '\'' then With(l, [], InQuotes)
      else if c == '\\' then l.(mode := AfterBackslash)
      else if Ordinary(c) then With(l, [Bare(c)], Plain)
      else l.(mode := Unknown)
    case InQuotes => if c == '\'' then l.(mode := Plain) else With(l, [Quoted(c)], InQuotes)
    case AfterBackslash => if c == '\n' then l.(mode := Plain) else With(l, [Quoted(c)], Plain)
  }

  function Run(l: Lexer, s: string): Lexer
    decreases |s|
  {
    if s == "" then l else Run(Step(l, s[0]), s[1..])
  }

  function Words(s: string): Option<seq<Word>> {
    var l := Run(START, s);
    if l.mode == Plain then Some(EndWord(l).words) else None
  }

  /** What a simple command asks for. */
  datatype Command = Command(assigns: seq<(string, string)>, argv: seq<string>)

  /** A word after quote removal. */
  function Value(w: Word): string { seq(|w|, i requires 0 <= i < |w| => w[i].c) }

  function NameLength(w: Word): (n: nat)
    ensures n <= |w|
  {
    if w != [] && w[0].Bare? && NameChar(w[0].c) then 1 + NameLength(w[1..]) else 0
  }

  /** A name that does not start with a digit, then an unquoted '='. */
  predicate IsAssignment(w: Word) {
    var n := NameLength(w);
    0 < n < |w| && w[n] == Bare('=') && !('0' <= w[0].c <= '9')
  }

  /** The assignments before the command name, then the arguments. A command name without quotes could be a
      reserved word or an alias; that is outside this reading. */
  function Simple(words: seq<Word>): Option<Command> {
    if words == [] then None
    else if IsAssignment(words[0]) then
      match Simple(words[1..])
      case None => None
      case Some(c) =>
        var n := NameLength(words[0]);
        Some(Command([(Value(words[0][..n]), Value(words[0][n + 1..]))] + c.assigns, c.argv))
    else if forall i | 0 <= i < |words[0]| :: words[0][i].Bare? then None
    else Some(Command([], Values(words)))
  }

  function Values(words: seq<Word>): seq<string> {
    seq(|words|, i requires 0 <= i < |words| => Value(words[i]))
  }

  function ShellReads(s: string): Option<Command> {
    match Words(s)
    case None => None
    case Some(words) => Simple(words)
  }

  // ---------- quoting ----------

  function QuotedBody(v: string): string {
    if v == "" then "" else (if v[0] == '\'' then "'\\''" else [v[0]]) + QuotedBody(v[1..])
  }

  function Quote(v: string): string { "'" + QuotedBody(v) + "'" }

  function BareWord(s: string): Word { seq(|s|, i requires 0 <= i < |s| => Bare(s[i])) }

  function QuotedWord(s: string): Word { seq(|s|, i requires 0 <= i < |s| => Quoted(s[i])) }

  lemma {:induction false} RunConcat(l: Lexer, a: string, b: string)
    ensures Run(l, a + b) == Run(Run(l, a), b)
    decreases |a|
  {
    hide Step;
    if a == "" {
      assert a + b == b;
    } else {
      assert (a + b)[1..] == a[1..] + b;
      RunConcat(Step(l, a[0]), a[1..], b);
    }
  }

  lemma RunChar(l: Lexer, c: char)
    ensures Run(l, [c]) == Step(l, c)
  {
    hide Step;
    assert [c][1..] == "";
    assert Run(Step(l, c), "") == Step(l, c);
  }

  lemma {:induction false} RunBody(l: Lexer, v: string)
    requires l.mode == InQuotes && l.word.Some?
    ensures Run(l, QuotedBody(v)) == Lexer(l.words, Some(l.word.value + QuotedWord(v)), InQuotes)
    decreases |v|
  {
    hide Run, Step;
    if v == "" {
      RunNothing(l);
      assert l.word.value + QuotedWord(v) == l.word.value;
    } else {
      var head := if v[0] == '\'' then "'\\''" else [v[0]];
      var next := Lexer(l.words, Some(l.word.value + [Quoted(v[0])]), InQuotes);
      RunConcat(l, head, QuotedBody(v[1..]));
      assert Run(l, head) == next by {
        if v[0] == '\'' { RunQuoteMark(l); } else { RunChar(l, v[0]); StepInQuotes(l, v[0]); }
      }
      RunBody(next, v[1..]);
      assert l.word.value + QuotedWord(v) == (l.word.value + [Quoted(v[0])]) + QuotedWord(v[1..]);
    }
  }

  lemma RunNothing(l: Lexer)
    ensures Run(l, "") == l
  {}

  lemma StepInQuotes(l: Lexer, c: char)
    requires l.mode == InQuotes && l.word.Some? && c != '\''
    ensures Step(l, c) == Lexer(l.words, Some(l.word.value + [Quoted(c)]), InQuotes)
  {}

  /** Close, escaped quote, open again: one quoted quote mark. */
  lemma RunQuoteMark(l: Lexer)
    requires l.mode == InQuotes && l.word.Some?
    ensures Run(l, "'\\''") == Lexer(l.words, Some(l.word.value + [Quoted('\'')]), InQuotes)
  {
    var s := "'\\''";
    assert s[1..] == "\\''" && s[1..][1..] == "''" && "''"[1..] == "'" && "'"[1..] == "";
    var w := l.word.value;
    var l1 := l.(mode := Plain);
    var l2 := l.(mode := AfterBackslash);
    var l3 := Lexer(l.words, Some(w + [Quoted('\'')]), Plain);
    var l4 := l3.(mode := InQuotes);
    assert Step(l, '\'') == l1 && Step(l1, '\\') == l2 && Step(l2, '\'') == l3;
    assert (w + [Quoted('\'')]) + [] == w + [Quoted('\'')];
    assert Step(l3, '\'') == l4;
    assert Run(l4, "") == l4 && Run(l3, "'") == Run(l4, "") && Run(l2, "''") == Run(l3, "'") && Run(l1, "\\''") == Run(l2, "''");
  }

  /** A quoted string adds exactly its own characters, all quoted, to the word being read, and starts one if there is none. */
  lemma RunQuote(l: Lexer, v: string)
    requires l.mode == Plain
    ensures Run(l, Quote(v)) == Lexer(l.words, Some(Sofar(l.word) + QuotedWord(v)), Plain)
  {
    hide Run, QuotedBody;
    var begun := Lexer(l.words, Some(Sofar(l.word)), InQuotes);
    RunConcat(l, "'" + QuotedBody(v), "'");
    RunConcat(l, "'", QuotedBody(v));
    RunChar(l, '\'');
    assert Sofar(l.word) + [] == Sofar(l.word);
    RunBody(begun, v);
    var inside := Lexer(l.words, Some(Sofar(l.word) + QuotedWord(v)), InQuotes);
    RunChar(inside, '\'');
  }

  lemma {:induction false} RunBare(l: Lexer, s: string)
    requires l.mode == Plain && s != "" && forall c | c in s :: Ordinary(c)
    ensures Run(l, s) == Lexer(l.words, Some(Sofar(l.word) + BareWord(s)), Plain)
    decreases |s|
  {
    assert s[0] in s;
    var next := With(l, [Bare(s[0])], Plain);
    assert Step(l, s[0]) == next;
    if |s| > 1 {
      assert forall c | c in s[1..] :: c in s;
      RunBare(next, s[1..]);
      assert Sofar(l.word) + BareWord(s) == (Sofar(l.word) + [Bare(s[0])]) + BareWord(s[1..]);
    } else {
      assert s[1..] == "" && BareWord(s) == [Bare(s[0])];
    }
  }

  // ---------- lines of words ----------

  /** A word as the program writes it: plain text, then perhaps a quoted string. */
  datatype Item = Item(bare: string, arg: Option<string>)

  function Plainly(s: string): Item { Item(s, None) }

  function Safely(v: string): Item { Item("", Some(v)) }

  predicate Written(i: Item) { (forall c | c in i.bare :: Ordinary(c)) && (i.bare != "" || i.arg.Some?) }

  function ItemText(i: Item): string { i.bare + (if i.arg.None? then "" else Quote(i.arg.value)) }

  function ItemWord(i: Item): Word { BareWord(i.bare) + (if i.arg.None? then [] else QuotedWord(i.arg.value)) }

  /** The items with a space between each two. */
  function Line(items: seq<Item>): string {
    if items == [] then ""
    else if |items| == 1 then ItemText(items[0])
    else Line(items[..|items| - 1]) + " " + ItemText(items[|items| - 1])
  }

  function ItemWords(items: seq<Item>): seq<Word> { seq(|items|, i requires 0 <= i < |items| => ItemWord(items[i])) }

  lemma RunItem(l: Lexer, i: Item)
    requires l.mode == Plain && l.word.None? && Written(i)
    ensures Run(l, ItemText(i)) == Lexer(l.words, Some(ItemWord(i)), Plain)
  {
    hide Run, Quote;
    var rest := if i.arg.None? then "" else Quote(i.arg.value);
    RunConcat(l, i.bare, rest);
    var l1 := Run(l, i.bare);
    if i.bare == "" {
      RunNothing(l);
      assert BareWord(i.bare) == [];
    } else {
      RunBare(l, i.bare);
      assert [] + BareWord(i.bare) == BareWord(i.bare);
    }
    if i.arg.None? {
      RunNothing(l1);
      assert BareWord(i.bare) + [] == BareWord(i.bare);
    } else {
      RunQuote(l1, i.arg.value);
    }
  }

  /** A line is read as its words, each whole, whatever the quoted strings hold. */
  lemma {:induction false} LineRuns(items: seq<Item>)
    requires items != [] && forall i | 0 <= i < |items| :: Written(items[i])
    ensures var n := |items| - 1;
            Run(START, Line(items)) == Lexer(ItemWords(items[..n]), Some(ItemWord(items[n])), Plain)
    decreases |items|
  {
    hide Run, Written, ItemText, ItemWord;
    var n := |items| - 1;
    if n == 0 {
      RunItem(START, items[0]);
      assert ItemWords(items[..0]) == [];
    } else {
      var front := items[..n];
      LineRuns(front);
      RunConcat(START, Line(front) + " ", ItemText(items[n]));
      RunConcat(START, Line(front), " ");
      var l := Run(START, Line(front));
      RunChar(l, ' ');
      assert ItemWords(front) == ItemWords(front[..n - 1]) + [ItemWord(front[n - 1])];
      RunItem(Lexer(ItemWords(front), None, Plain), items[n]);
    }
  }

  lemma LastWord(items: seq<Item>)
    requires items != []
    ensures var n := |items| - 1; ItemWords(items) == ItemWords(items[..n]) + [ItemWord(items[n])]
  {
    hide ItemWord;
  }

  lemma LineWords(items: seq<Item>)
    requires items != [] && forall i | 0 <= i < |items| :: Written(items[i])
    ensures Words(Line(items)) == Some(ItemWords(items))
  {
    hide Run, Line, ItemWord, ItemWords, Written;
    LineRuns(items);
    LastWord(items);
  }

  /** Quoting any string at all gives one word with that value. */
  lemma QuoteIsOneWord(v: string)
    ensures Words(Quote(v)) == Some([QuotedWord(v)]) && Value(QuotedWord(v)) == v
  {
    hide Run, Quote;
    RunQuote(START, v);
    assert [] + QuotedWord(v) == QuotedWord(v);
    assert [] + [QuotedWord(v)] == [QuotedWord(v)];
    ValueOf(v);
  }

  // ---------- assignments and arguments ----------

  function ItemValue(i: Item): string { i.bare + (if i.arg.None? then "" else i.arg.value) }

  lemma WordValue(i: Item)
    ensures Value(ItemWord(i)) == ItemValue(i)
  {}

  predicate VariableName(name: string) {
    name != "" && (forall c | c in name :: NameChar(c)) && !('0' <= name[0] <= '9')
  }

  lemma {:induction false} NameEnds(name: string, rest: Word)
    requires forall c | c in name :: NameChar(c)
    ensures NameLength(BareWord(name) + ([Bare('=')] + rest)) == |name|
    decreases |name|
  {
    var w := BareWord(name) + ([Bare('=')] + rest);
    if name != "" {
      assert name[0] in name && forall c | c in name[1..] :: c in name;
      NameEnds(name[1..], rest);
      assert w[1..] == BareWord(name[1..]) + ([Bare('=')] + rest);
      assert w[0] == Bare(name[0]);
    } else {
      assert w[0] == Bare('=');
    }
  }

  /** NAME='value' before a command assigns exactly that value. */
  lemma AssignmentReads(name: string, v: string, words: seq<Word>)
    requires VariableName(name) && Simple(words).Some?
    ensures var c := Simple(words).value;
            Simple([ItemWord(Item(name + "=", Some(v)))] + words) == Some(Command([(name, v)] + c.assigns, c.argv))
  {
    hide Value, NameLength;
    var w := ItemWord(Item(name + "=", Some(v)));
    assert w == BareWord(name) + ([Bare('=')] + QuotedWord(v));
    NameEnds(name, QuotedWord(v));
    var all := [w] + words;
    assert all[1..] == words && all[0] == w;
    assert w[0] == Bare(name[0]);
    assert w[..|name|] == BareWord(name) && w[|name| + 1..] == QuotedWord(v);
    ValueOf(name);
    ValueOf(v);
  }

  lemma ValueOf(s: string)
    ensures Value(BareWord(s)) == s && Value(QuotedWord(s)) == s
  {}

  function ItemValues(items: seq<Item>): seq<string> { seq(|items|, i requires 0 <= i < |items| => ItemValue(items[i])) }

  /** A line whose first word is a quoted string runs the program of that name with the other words as arguments. */
  lemma CommandReads(items: seq<Item>)
    requires items != [] && items[0].bare == "" && items[0].arg.Some? && items[0].arg.value != ""
    ensures Simple(ItemWords(items)) == Some(Command([], ItemValues(items)))
  {
    hide Value, ItemValue;
    var words := ItemWords(items);
    assert words[0] == BareWord("") + QuotedWord(items[0].arg.value);
    assert words[0][0] == Quoted(items[0].arg.value[0]);
    assert NameLength(words[0]) == 0;
    assert Values(words) == ItemValues(items) by {
      forall i | 0 <= i < |items| ensures Values(words)[i] == ItemValues(items)[i] {
        WordValue(items[i]);
      }
    }
  }
}
