/** The state files: a version, then arrays of objects. Where the reader finds each array. */
module ArrayFile {
  import opened Optional
  import opened Json
  import opened JsonText
  import opened JsonObject

  function FileOf(w: Writer, members: string): string {
    "{\n  " + (Quote(w, "version") + (": 1,\n  " + members))
  }

  /** A lookup starts at the first array. */
  lemma FileStart(w: Writer, members: string, key: string)
    requires IsName(key) && key != "version"
    ensures var t := FileOf(w, members);
            && |t| == 20 + |members| && Has(t, 20, members) && Find(t, 0, |t|, key) == Find(t, 20, |t|, key)
  {
    hide Quote, Find, Has, IsName, ColonFollows;
    var t, v := FileOf(w, members), Quote(w, "version");
    VersionIsName();
    NameStart(key);
    NameLength(w, "version");
    WholeText(t);
    HasAppend(t, 0, "{\n  ", v + (": 1,\n  " + members));
    HasAppend(t, 4, v, ": 1,\n  " + members);
    HasAppend(t, 13, ": 1,\n  ", members);
    HasChar(t, 13, ": 1,\n  ", 0);
    SkipsRaw(t, 0, |t|, key, "{\n  ");
    SkipsQuoted(w, t, 4, |t|, key, "version");
    SkipsRaw(t, 13, |t|, key, ": 1,\n  ");
  }

  lemma VersionIsName()
    ensures IsName("version")
  {}

  /** A lookup of another key passes over an array member, if it passes over its body. */
  lemma PastMember(w: Writer, t: string, p: nat, key1: string, body: string, rest: string, key: string)
    requires IsName(key1) && IsName(key) && key != key1 && Has(t, p, Member(w, key1, body, rest))
    requires p + |key1| + 5 + |body| < |t|
    requires Find(t, p + |key1| + 5, |t|, key) == Find(t, p + |key1| + 5 + |body|, |t|, key)
    ensures var e := p + |key1| + 6 + |body|; Has(t, e, rest) && e <= |t| && Find(t, p, |t|, key) == Find(t, e, |t|, key)
  {
    hide Quote, Find, Has, IsName, Member, ColonFollows;
    MemberParts(w, t, p, key1, body, rest);
    NameStart(key);
    QuoteStart(w, t, p, key1);
    SkipsQuoted(w, t, p, |t|, key, key1);
    SkipsRaw(t, p + |key1| + 2, |t|, key, ": [");
    BracketSkips(t, p + |key1| + 5 + |body|, key);
  }

  // ---------- files of two arrays ----------

  function TwoMembers(w: Writer, key1: string, body1: string, key2: string, body2: string): string {
    Member(w, key1, body1, ",\n  " + Member(w, key2, body2, "\n}\n"))
  }

  /** Where the two bodies stand. */
  lemma BodiesStand(w: Writer, key1: string, body1: string, key2: string, body2: string)
    requires IsName(key1) && IsName(key2) && key1 != "version"
    ensures var t := FileOf(w, TwoMembers(w, key1, body1, key2, body2));
            var p, q := 25 + |key1|, 30 + |key1| + |body1|;
            && Has(t, p, body1) && p + |body1| < |t| && Has(t, q, Member(w, key2, body2, "\n}\n"))
            && Has(t, q + |key2| + 5, body2) && q + |key2| + 5 + |body2| < |t|
            && Find(t, 0, |t|, key1) == Find(t, 20, |t|, key1)
            && Has(t, 20, TwoMembers(w, key1, body1, key2, body2)) && Has(t, q - 4, ",\n  ")
  {
    hide FileOf, Member, Find, Has, IsName;
    var members, second := TwoMembers(w, key1, body1, key2, body2), Member(w, key2, body2, "\n}\n");
    var t := FileOf(w, members);
    FileStart(w, members, key1);
    MemberParts(w, t, 20, key1, body1, ",\n  " + second);
    HasAppend(t, 26 + |key1| + |body1|, ",\n  ", second);
    MemberParts(w, t, 30 + |key1| + |body1|, key2, body2, "\n}\n");
  }

  /** The first array is found, if a bracket scan passes over its body. */
  lemma FindsFirst(w: Writer, key1: string, body1: string, key2: string, body2: string)
    requires IsName(key1) && IsName(key2) && key1 != "version"
    requires var t, p := FileOf(w, TwoMembers(w, key1, body1, key2, body2)), 25 + |key1|;
             p + |body1| < |t| && CloseFrom(t, p, |t|, '[', ']', 1, false, false) == CloseFrom(t, p + |body1|, |t|, '[', ']', 1, false, false)
    ensures var t, p := FileOf(w, TwoMembers(w, key1, body1, key2, body2)), 25 + |key1|;
            FindArray(t, key1) == Some((p, p + |body1|))
  {
    hide FileOf, Member, Find, Has, IsName, CloseFrom, FindArray;
    BodiesStand(w, key1, body1, key2, body2);
    MemberFound(w, FileOf(w, TwoMembers(w, key1, body1, key2, body2)), 20, key1, body1, ",\n  " + Member(w, key2, body2, "\n}\n"));
  }

  /** So is the second, if a lookup of its key passes over the first body as well. */
  lemma FindsSecond(w: Writer, key1: string, body1: string, key2: string, body2: string)
    requires IsName(key1) && IsName(key2) && key1 != "version" && key2 != "version" && key1 != key2
    requires var t, p, q := FileOf(w, TwoMembers(w, key1, body1, key2, body2)), 25 + |key1|, 35 + |key1| + |body1| + |key2|;
             && p + |body1| < |t| && q + |body2| < |t| && Find(t, p, |t|, key2) == Find(t, p + |body1|, |t|, key2)
             && CloseFrom(t, q, |t|, '[', ']', 1, false, false) == CloseFrom(t, q + |body2|, |t|, '[', ']', 1, false, false)
    ensures var t, q := FileOf(w, TwoMembers(w, key1, body1, key2, body2)), 35 + |key1| + |body1| + |key2|;
            FindArray(t, key2) == Some((q, q + |body2|))
  {
    hide FileOf, Member, Find, Has, IsName, CloseFrom, FindArray;
    var members, second := TwoMembers(w, key1, body1, key2, body2), Member(w, key2, body2, "\n}\n");
    var t, e := FileOf(w, members), 26 + |key1| + |body1|;
    BodiesStand(w, key1, body1, key2, body2);
    FileStart(w, members, key2);
    PastMember(w, t, 20, key1, body1, ",\n  " + second, key2);
    SkipsRaw(t, e, |t|, key2, ",\n  ");
    MemberFound(w, t, e + 4, key2, body2, "\n}\n");
  }
}
