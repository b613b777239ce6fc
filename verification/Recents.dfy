/** The list of recently played games: a bounded array, newest first. */
module Recents {

  const MAX_RECENTS: nat := 256

  /** An entry: the game it is of, and everything else it records. */
  datatype Entry<D> = Entry(system: string, path: string, data: D) {
    function Game(): (string, string) { (system, path) }
  }

  predicate NoGame<D>(l: seq<Entry<D>>, game: (string, string)) { forall i | 0 <= i < |l| :: l[i].Game() != game }

  /** One entry a game. */
  predicate Distinct<D>(l: seq<Entry<D>>) { l == [] || (NoGame(l[1..], l[0].Game()) && Distinct(l[1..])) }

  /** The entries of other games. */
  function Others<D>(l: seq<Entry<D>>, game: (string, string)): seq<Entry<D>> {
    if l == [] then [] else (if l[0].Game() == game then [] else [l[0]]) + Others(l[1..], game)
  }

  function First<D>(l: seq<Entry<D>>, n: nat): seq<Entry<D>> { if |l| <= n then l else l[..n] }

  /** What one more play makes of the list. */
  function Played<D>(l: seq<Entry<D>>, e: Entry<D>): seq<Entry<D>> { First([e] + Others(l, e.Game()), MAX_RECENTS) }

  // ---------- the array ----------

  class RecentState<D(0)> {
    var entries: array<Entry<D>>
    var count: nat

    ghost predicate Valid()
      reads this, entries
    {
      entries.Length == MAX_RECENTS && count <= MAX_RECENTS && Distinct(entries[..count])
    }

    ghost function List(): seq<Entry<D>>
      reads this, entries
      requires Valid()
    {
      entries[..count]
    }

    constructor (blank: Entry<D>)
      ensures Valid() && List() == [] && fresh(entries)
    {
      entries := new Entry<D>[MAX_RECENTS](_ => blank);
      count := 0;
    }

    method FindRecent(game: (string, string)) returns (index: int)
      requires Valid()
      ensures -1 <= index < count
      ensures if index < 0 then NoGame(List(), game) else entries[index].Game() == game
    {
      for i := 0 to count
        invariant forall j | 0 <= j < i :: entries[j].Game() != game
      {
        if entries[i].Game() == game {
          return i;
        }
      }
      return -1;
    }

    /** The first n entries move one place down. */
    method MoveDown(n: nat)
      requires n < entries.Length
      modifies entries
      ensures entries[0] == old(entries[0])
      ensures forall i | 0 < i < entries.Length :: entries[i] == old(if i <= n then entries[i - 1] else entries[i])
    {
      forall i | 1 <= i <= n {
        entries[i] := entries[i - 1];
      }
    }

    method AddRecentEntry(e: Entry<D>)
      requires Valid()
      modifies this, entries
      ensures Valid() && entries == old(entries)
      ensures List() == Played(old(List()), e)
    {
      hide Others, Distinct, NoGame, Played;
      var index := FindRecent(e.Game());
      ghost var l := List();
      PlayedIs(l, e, index);
      if index >= 0 {
        if index > 0 {
          MoveDown(index);
        }
      } else {
        if count < MAX_RECENTS {
          count := count + 1;
        }
        if count > 1 {
          MoveDown(count - 1);
        }
      }
      entries[0] := e;
      assert |Played(l, e)| == count;
      forall i | 0 <= i < count ensures entries[i] == Played(l, e)[i] {
        PlayedAt(l, e, index, i);
      }
      assert entries[..count] == Played(l, e);
    }
  }

  lemma {:induction false} OthersAll<D>(l: seq<Entry<D>>, game: (string, string))
    requires NoGame(l, game)
    ensures Others(l, game) == l
  {
    if l != [] {
      OthersAll(l[1..], game);
      assert l == [l[0]] + l[1..];
    }
  }

  lemma {:induction false} OthersAre<D>(l: seq<Entry<D>>, game: (string, string), other: (string, string))
    ensures NoGame(Others(l, game), game)
    ensures NoGame(l, other) ==> NoGame(Others(l, game), other)
    ensures Distinct(l) ==> Distinct(Others(l, game))
    decreases |l|
  {
    if l != [] {
      OthersAre(l[1..], game, other);
      if l[0].Game() != game {
        OthersAre(l[1..], game, l[0].Game());
        assert Others(l, game)[1..] == Others(l[1..], game);
      } else {
        assert [] + Others(l[1..], game) == Others(l[1..], game);
      }
    }
  }

  lemma {:induction false} FirstDistinct<D>(l: seq<Entry<D>>, n: nat)
    requires Distinct(l)
    ensures Distinct(First(l, n))
    decreases |l|
  {
    if 0 < n < |l| {
      FirstDistinct(l[1..], n - 1);
      assert First(l, n)[1..] == First(l[1..], n - 1);
    }
  }

  /** A play keeps one entry a game. */
  lemma PlayedDistinct<D>(l: seq<Entry<D>>, e: Entry<D>)
    requires Distinct(l)
    ensures Distinct(Played(l, e)) && |Played(l, e)| <= MAX_RECENTS
  {
    OthersAre(l, e.Game(), e.Game());
    var all := [e] + Others(l, e.Game());
    assert all[1..] == Others(l, e.Game());
    FirstDistinct(all, MAX_RECENTS);
  }

  /** Removing the one entry of a game closes the gap. */
  lemma {:induction false} OthersGap<D>(l: seq<Entry<D>>, index: nat)
    requires Distinct(l) && index < |l|
    ensures Others(l, l[index].Game()) == l[..index] + l[index + 1..]
    decreases |l|
  {
    if index == 0 {
      OthersAll(l[1..], l[0].Game());
      assert l[..0] + l[1..] == l[1..];
      assert [] + l[1..] == l[1..];
    } else {
      OthersGap(l[1..], index - 1);
      assert l[1..][index - 1] == l[index];
      assert l[index].Game() != l[0].Game();
      assert [l[0]] + (l[1..][..index - 1] + l[1..][index..]) == l[..index] + l[index + 1..];
    }
  }

  lemma PlayedIs<D>(l: seq<Entry<D>>, e: Entry<D>, index: int)
    requires Distinct(l) && |l| <= MAX_RECENTS && -1 <= index < |l|
    requires if index < 0 then NoGame(l, e.Game()) else l[index].Game() == e.Game()
    ensures Distinct(Played(l, e))
    ensures |Played(l, e)| == if index >= 0 then |l| else if |l| < MAX_RECENTS then |l| + 1 else |l|
  {
    hide Others, NoGame, Distinct;
    PlayedDistinct(l, e);
    if index < 0 { OthersAll(l, e.Game()); } else { OthersGap(l, index); }
  }

  /** Every place of the list after a play. */
  lemma PlayedAt<D>(l: seq<Entry<D>>, e: Entry<D>, index: int, i: nat)
    requires Distinct(l) && |l| <= MAX_RECENTS && -1 <= index < |l| && i < |Played(l, e)|
    requires if index < 0 then NoGame(l, e.Game()) else l[index].Game() == e.Game()
    ensures i <= |l| && (i > 0 && index >= 0 && i > index ==> i < |l|)
    ensures Played(l, e)[i] == if i == 0 then e else if index >= 0 && i > index then l[i] else l[i - 1]
  {
    hide Others, NoGame, Distinct;
    if index < 0 { OthersAll(l, e.Game()); } else { OthersGap(l, index); }
  }

  // ---------- whole histories ----------

  /** A list after a history of plays, oldest first. */
  function After<D>(list: seq<Entry<D>>, history: seq<Entry<D>>): seq<Entry<D>> {
    if history == [] then list else Played(After(list, history[..|history| - 1]), history[|history| - 1])
  }

  /** The list after a history that starts with no games. */
  function Recent<D>(history: seq<Entry<D>>): seq<Entry<D>> { After([], history) }

  /** The unbounded list: every game played, each by its last play, newest first. */
  function Newest<D>(history: seq<Entry<D>>): seq<Entry<D>> {
    if history == [] then []
    else
      var last := history[|history| - 1];
      [last] + Others(Newest(history[..|history| - 1]), last.Game())
  }

  lemma {:induction false} NewestDistinct<D>(history: seq<Entry<D>>)
    ensures Distinct(Newest(history))
  {
    if history != [] {
      var last := history[|history| - 1];
      var rest := Newest(history[..|history| - 1]);
      NewestDistinct(history[..|history| - 1]);
      OthersAre(rest, last.Game(), last.Game());
      assert Newest(history)[1..] == Others(rest, last.Game());
    }
  }

  /** Cutting the list before a play or after it gives the same newest n - 1 others. */
  lemma {:induction false} CutFirst<D>(l: seq<Entry<D>>, n: nat, game: (string, string))
    requires Distinct(l) && n > 0
    ensures First(Others(First(l, n), game), n - 1) == First(Others(l, game), n - 1)
    decreases |l|
  {
    if |l| > n {
      assert First(l, n)[1..] == First(l[1..], n - 1);
      if l[0].Game() == game {
        OthersAll(l[1..], game);
        OthersAll(First(l[1..], n - 1), game);
        assert [] + l[1..] == l[1..] && [] + First(l[1..], n - 1) == First(l[1..], n - 1);
      } else if n > 1 {
        CutFirst(l[1..], n - 1, game);
        FirstCons(l[0], Others(First(l[1..], n - 1), game), n - 1);
        FirstCons(l[0], Others(l[1..], game), n - 1);
      }
    }
  }

  lemma FirstCons<D>(x: Entry<D>, l: seq<Entry<D>>, n: nat)
    requires n > 0
    ensures First([x] + l, n) == [x] + First(l, n - 1)
  {}

  /** The bounded array loses nothing the bound does not: after any history it holds the newest 256 games. */
  lemma {:induction false} RecentIsNewest<D>(history: seq<Entry<D>>)
    ensures Recent(history) == First(Newest(history), 256)
  {
    hide Others, Distinct;
    if history != [] {
      var front, last := history[..|history| - 1], history[|history| - 1];
      RecentIsNewest(front);
      NewestDistinct(front);
      CutFirst(Newest(front), MAX_RECENTS, last.Game());
      FirstCons(last, Others(Recent(front), last.Game()), MAX_RECENTS);
      FirstCons(last, Others(Newest(front), last.Game()), MAX_RECENTS);
    }
  }

  /** The last play of a game in a history. */
  predicate IsLast<D>(history: seq<Entry<D>>, i: nat) {
    i < |history| && forall j | i < j < |history| :: history[j].Game() != history[i].Game()
  }

  /** The history read backwards, keeping each game's last play. */
  function LastPlays<D>(history: seq<Entry<D>>, n: nat): seq<Entry<D>>
    requires n <= |history|
  {
    if n == 0 then [] else (if IsLast(history, n - 1) then [history[n - 1]] else []) + LastPlays(history, n - 1)
  }

  lemma {:induction false} LaterPlay<D>(history: seq<Entry<D>>, e: Entry<D>, n: nat)
    requires n <= |history|
    ensures LastPlays(history + [e], n) == Others(LastPlays(history, n), e.Game())
  {
    hide IsLast, Others;
    if n > 0 {
      LaterPlay(history, e, n - 1);
      LastBefore(history, e, n - 1);
      var head := if IsLast(history, n - 1) then [history[n - 1]] else [];
      OthersOfConcat(head, LastPlays(history, n - 1), e.Game());
      OthersOne(history[n - 1], e.Game());
    } else {
      OthersAll<D>([], e.Game());
    }
  }

  lemma OthersOne<D>(x: Entry<D>, game: (string, string))
    ensures Others([x], game) == if x.Game() == game then [] else [x]
    ensures Others<D>([], game) == []
  {}

  lemma LastBefore<D>(history: seq<Entry<D>>, e: Entry<D>, i: nat)
    requires i < |history|
    ensures IsLast(history + [e], i) <==> IsLast(history, i) && history[i].Game() != e.Game()
  {
    var all := history + [e];
    assert forall j | 0 <= j < |history| :: all[j] == history[j];
    assert all[|history|] == e;
    if IsLast(all, i) {
      forall j | i < j < |history| ensures history[j].Game() != history[i].Game() {
        assert all[j].Game() != all[i].Game();
      }
    }
  }

  lemma {:induction false} OthersOfConcat<D>(a: seq<Entry<D>>, b: seq<Entry<D>>, game: (string, string))
    ensures Others(a + b, game) == Others(a, game) + Others(b, game)
    decreases |a|
  {
    if a == [] {
      assert a + b == b;
    } else {
      assert (a + b)[1..] == a[1..] + b;
      OthersOfConcat(a[1..], b, game);
    }
  }

  /** The list is the last plays, newest first: no game twice, none missing. */
  lemma {:induction false} NewestIsLastPlays<D>(history: seq<Entry<D>>)
    ensures Newest(history) == LastPlays(history, |history|)
  {
    hide Others;
    if history != [] {
      var n := |history| - 1;
      var front, last := history[..n], history[n];
      NewestIsLastPlays(front);
      LaterPlay(front, last, n);
      assert front + [last] == history;
      assert IsLast(history, n);
    }
  }
}
