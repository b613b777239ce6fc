/** What the text UI's loaders ask of the strings they read. */
module TextUiChecks {
  import opened Json
  import opened JsonText
  import opened Decimals

  predicate Alphanumeric(c: char) { 'a' <= c <= 'z' || 'A' <= c <= 'Z' || '0' <= c <= '9' }

  predicate ValidSystem(s: string) { s != "" && forall c | c in s :: Alphanumeric(c) || c == '_' || c == '-' }

  predicate ValidProfile(s: string) {
    s != "" && forall c | c in s :: Alphanumeric(c) || c == '_' || c == '-' || c == ':' || c == '.'
  }

  predicate ValidPolicy(s: string) {
    s == "interactive" || s == "performance" || s == "ondemand" || s == "schedutil" || s == "conservative"
  }

  predicate ValidDriver(s: string) { s == "oss" || s == "alsa" || s == "alsathread" || s == "mmf_ao" }

  predicate ValidTruth(s: string) { s == "true" || s == "false" }

  predicate ValidCycles(s: string) {
    s == "auto" || s == "max" || (s != "" && NumberEnd(s, 0) == |s| && 0 < NumberAt(s, 0) <= 1000000)
  }

  predicate Holds(s: string, part: string) { exists i :: 0 <= i <= |s| && Has(s, i, part) }

  predicate ValidPath(s: string) {
    s != "" && s[0] != '/' && !Holds(s, "../") && !Holds(s, "/..") && s != ".."
  }

  predicate ValidSuffix(s: string) {
    && |s| > 1 && s[0] == '#' && s[1] != '/' && !Holds(s[1..], "../") && !Holds(s[1..], "/..") && s[1..] != ".."
    && forall c | c in s[1..] :: c >= ' ' && c != '\U{007F}' && c != '#'
  }

  /** None of these can hold a byte the reader loses; a path, a title and a number of cycles can. */
  lemma ValidIsClean(s: string)
    ensures ValidSystem(s) || ValidProfile(s) || ValidSuffix(s) ==> Clean(TextUi, s)
    ensures ValidPolicy(s) || ValidDriver(s) || ValidTruth(s) ==> Clean(TextUi, s)
  {
    hide ValidPolicy, ValidDriver, ValidTruth;
    if ValidSuffix(s) {
      assert s == ['#'] + s[1..];
    }
    WordIsClean(s);
  }

  lemma WordIsClean(s: string)
    ensures ValidPolicy(s) || ValidDriver(s) || ValidTruth(s) ==> Clean(TextUi, s)
  {
    if ValidPolicy(s) { PolicyIsPlain(s); }
    if ValidDriver(s) { DriverIsPlain(s); }
    if ValidTruth(s) { assert forall i | 0 <= i < |s| :: s[i] >= 'a'; }
  }

  lemma PolicyIsPlain(s: string)
    requires ValidPolicy(s)
    ensures forall i | 0 <= i < |s| :: s[i] >= 'a'
  {}

  lemma DriverIsPlain(s: string)
    requires ValidDriver(s)
    ensures forall i | 0 <= i < |s| :: s[i] >= '_'
  {}
}
