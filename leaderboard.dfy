/** The leaderboard of `updateLeaderboard` (server.js:309-323) and of the
    `/reset-leaderboard` route (server.js:32-40): a list of
    `{nickname, score}` entries kept in memory. A win finds the winner's
    entry with `find` and increments it, or pushes a new entry with score 1;
    the list is then sorted by `(a, b) => b.score - a.score` and cut to its
    first ten entries. JavaScript's `Array.prototype.sort` is stable, so
    `SortByScore` below is a stable insertion sort: highest score first, equal
    scores in their earlier order. */
module Leaderboard {

  datatype Entry = Entry(nickname: string, score: int)

  /** `slice(0, 10)` */
  const Capacity: nat := 10

  ghost predicate Sorted(s: seq<Entry>)
  {
    forall i, j :: 0 <= i < j < |s| ==> s[i].score >= s[j].score
  }

  ghost predicate Unique(s: seq<Entry>)
  {
    forall i, j :: 0 <= i < j < |s| ==> s[i].nickname != s[j].nickname
  }

  ghost predicate Positive(s: seq<Entry>)
  {
    forall i :: 0 <= i < |s| ==> s[i].score >= 1
  }

  /** What every list produced by this module satisfies: ranked, one entry per
      nickname, every score at least one win, at most ten entries. */
  ghost predicate BoardOk(s: seq<Entry>)
  {
    Sorted(s) && Unique(s) && Positive(s) && |s| <= Capacity
  }

  /** `find` for `s.nickname === nick`: the first matching position, or
      `|s|` when there is none. */
  function Find(s: seq<Entry>, nick: string): (i: nat)
    ensures i <= |s|
    ensures i < |s| ==> s[i].nickname == nick
    ensures forall j :: 0 <= j < i ==> s[j].nickname != nick
  {
    if s == [] then 0
    else if s[0].nickname == nick then 0
    else 1 + Find(s[1..], nick)
  }

  /** `existing.score++`, or `push({nickname, score: 1})` when there is no entry. */
  function Credit(s: seq<Entry>, nick: string): seq<Entry>
  {
    var i := Find(s, nick);
    if i < |s| then s[i := s[i].(score := s[i].score + 1)] else s + [Entry(nick, 1)]
  }

  /** Places `e` in front of the first entry that does not outscore it. */
  function Insert(e: Entry, s: seq<Entry>): (r: seq<Entry>)
    ensures |r| == |s| + 1
    ensures multiset(r) == multiset(s) + multiset{e}
  {
    if s == [] then [e]
    else if s[0].score <= e.score then [e] + s
    else
      assert s == [s[0]] + s[1..];
      [s[0]] + Insert(e, s[1..])
  }

  /** The stable sort by non-increasing score. */
  function SortByScore(s: seq<Entry>): (r: seq<Entry>)
    ensures |r| == |s|
    ensures multiset(r) == multiset(s)
  {
    if s == [] then []
    else
      assert s == [s[0]] + s[1..];
      Insert(s[0], SortByScore(s[1..]))
  }

  /** `slice(0, 10)` */
  function Top(s: seq<Entry>): (r: seq<Entry>)
  {
    if |s| > Capacity then s[..Capacity] else s
  }

  /** The list after `nick` wins a point. */
  function RecordWin(board: seq<Entry>, nick: string): (r: seq<Entry>)
    ensures |r| <= Capacity
  {
    Top(SortByScore(Credit(board, nick)))
  }

  /** The entries of `s` whose score is `k`, in order. */
  function WithScore(s: seq<Entry>, k: int): seq<Entry>
  {
    if s == [] then []
    else (if s[0].score == k then [s[0]] else []) + WithScore(s[1..], k)
  }

  lemma InMultiset(e: Entry, s: seq<Entry>, t: seq<Entry>, x: Entry)
    requires multiset(t) == multiset(s) + multiset{e}
    requires x in t
    ensures x == e || x in s
  {
    assert x in multiset(t);
  }

  lemma {:induction false} InsertSorted(e: Entry, s: seq<Entry>)
    requires Sorted(s)
    ensures Sorted(Insert(e, s))
  {
    if s != [] && s[0].score > e.score {
      var t := Insert(e, s[1..]);
      InsertSorted(e, s[1..]);
      forall j | 0 <= j < |t|
        ensures t[j].score <= s[0].score
      {
        InMultiset(e, s[1..], t, t[j]);
      }
    }
  }

  lemma {:induction false} InsertUnique(e: Entry, s: seq<Entry>)
    requires Unique(s)
    requires forall i :: 0 <= i < |s| ==> s[i].nickname != e.nickname
    ensures Unique(Insert(e, s))
  {
    if s != [] && s[0].score > e.score {
      var t := Insert(e, s[1..]);
      InsertUnique(e, s[1..]);
      forall j | 0 <= j < |t|
        ensures t[j].nickname != s[0].nickname
      {
        InMultiset(e, s[1..], t, t[j]);
      }
    }
  }

  /** Insertion keeps the order among entries of equal score, and puts the new
      entry in front of the ones that tie with it. */
  lemma {:induction false} InsertStable(e: Entry, s: seq<Entry>, k: int)
    ensures WithScore(Insert(e, s), k) == (if e.score == k then [e] else []) + WithScore(s, k)
  {
    var mine := if e.score == k then [e] else [];
    if s == [] {
      WithScoreCons(e, [], k);
      assert [e] + [] == [e];
    } else if s[0].score <= e.score {
      assert Insert(e, s) == [e] + s;
      WithScoreCons(e, s, k);
    } else {
      InsertStable(e, s[1..], k);
      InsertBehind(e, s, k);
    }
  }

  /** The step of `InsertStable` where `e` goes behind the first entry. */
  lemma InsertBehind(e: Entry, s: seq<Entry>, k: int)
    requires s != [] && s[0].score > e.score
    requires WithScore(Insert(e, s[1..]), k) == (if e.score == k then [e] else []) + WithScore(s[1..], k)
    ensures WithScore(Insert(e, s), k) == (if e.score == k then [e] else []) + WithScore(s, k)
  {
    var mine := if e.score == k then [e] else [];
    var t := Insert(e, s[1..]);
    assert Insert(e, s) == [s[0]] + t;
    WithScoreCons(s[0], t, k);
    assert s == [s[0]] + s[1..];
    WithScoreCons(s[0], s[1..], k);
    var rest := WithScore(s[1..], k);
    if s[0].score == k {
      assert mine == [] && mine + rest == rest;
      assert mine + ([s[0]] + rest) == [s[0]] + rest;
    } else {
      assert [] + (mine + rest) == mine + rest;
      assert [] + rest == rest;
    }
  }

  lemma WithScoreCons(x: Entry, t: seq<Entry>, k: int)
    ensures WithScore([x] + t, k) == (if x.score == k then [x] else []) + WithScore(t, k)
  {
    assert ([x] + t)[1..] == t;
  }

  /** The sort ranks by score ... */
  lemma {:induction false} SortSorted(s: seq<Entry>)
    ensures Sorted(SortByScore(s))
  {
    if s != [] {
      SortSorted(s[1..]);
      InsertSorted(s[0], SortByScore(s[1..]));
    }
  }

  /** ... and is stable: among equal scores the order is the input's. */
  lemma {:induction false} SortStable(s: seq<Entry>, k: int)
    ensures WithScore(SortByScore(s), k) == WithScore(s, k)
  {
    if s != [] {
      SortStable(s[1..], k);
      InsertStable(s[0], SortByScore(s[1..]), k);
    }
  }

  lemma {:induction false} SortUnique(s: seq<Entry>)
    requires Unique(s)
    ensures Unique(SortByScore(s))
  {
    if s != [] {
      var t := SortByScore(s[1..]);
      SortUnique(s[1..]);
      forall i | 0 <= i < |t|
        ensures t[i].nickname != s[0].nickname
      {
        assert t[i] in multiset(s[1..]);
      }
      InsertUnique(s[0], t);
    }
  }

  /** Sorting an already ranked list changes nothing. */
  lemma {:induction false} SortOfSorted(s: seq<Entry>)
    requires Sorted(s)
    ensures SortByScore(s) == s
  {
    if s != [] {
      SortOfSorted(s[1..]);
      assert s == [s[0]] + s[1..];
    }
  }

  lemma {:induction false} SortPositive(s: seq<Entry>)
    requires Positive(s)
    ensures Positive(SortByScore(s))
  {
    var t := SortByScore(s);
    forall i | 0 <= i < |t|
      ensures t[i].score >= 1
    {
      assert t[i] in multiset(s);
    }
  }

  lemma TopOk(s: seq<Entry>)
    requires Sorted(s) && Unique(s) && Positive(s)
    ensures BoardOk(Top(s))
  {
  }

  /** A win keeps the leaderboard ranked, unique per nickname, positive and at
      most ten long. */
  lemma RecordWinOk(board: seq<Entry>, nick: string)
    requires BoardOk(board)
    ensures BoardOk(RecordWin(board, nick))
  {
    var c := Credit(board, nick);
    assert Unique(c) && Positive(c);
    SortSorted(c);
    SortUnique(c);
    SortPositive(c);
    TopOk(SortByScore(c));
  }

  /** A nickname already on the board: the list keeps its length and holds
      exactly the entries of the credited list (`CreditKnown`), ranked, with
      tied entries in their earlier order. */
  lemma RecordWinKnown(board: seq<Entry>, nick: string)
    requires |board| <= Capacity
    requires Find(board, nick) < |board|
    ensures |RecordWin(board, nick)| == |board|
    ensures multiset(RecordWin(board, nick)) == multiset(Credit(board, nick))
    ensures Sorted(RecordWin(board, nick))
    ensures forall k :: WithScore(RecordWin(board, nick), k) == WithScore(Credit(board, nick), k)
  {
    var c := Credit(board, nick);
    var r := SortByScore(c);
    assert RecordWin(board, nick) == r;
    SortSorted(c);
    forall k
      ensures WithScore(r, k) == WithScore(c, k)
    {
      SortStable(c, k);
    }
  }

  /** Crediting a listed nickname raises its entry by exactly one point and
      leaves every other entry where it was. */
  lemma CreditKnown(board: seq<Entry>, nick: string)
    requires Find(board, nick) < |board|
    ensures var i := Find(board, nick);
      && |Credit(board, nick)| == |board|
      && Credit(board, nick)[i] == Entry(nick, board[i].score + 1)
      && forall j :: 0 <= j < |board| && j != i ==> Credit(board, nick)[j] == board[j]
  {
  }

  /** A nickname not on the board: the new entry with one point goes after
      every existing entry (each has at least one point and the sort is
      stable), and is cut off when the board already holds ten entries. */
  lemma RecordWinNewcomer(board: seq<Entry>, nick: string)
    requires BoardOk(board)
    requires Find(board, nick) == |board|
    ensures |board| < Capacity ==> RecordWin(board, nick) == board + [Entry(nick, 1)]
    ensures |board| == Capacity ==> RecordWin(board, nick) == board
  {
    var c := board + [Entry(nick, 1)];
    assert Sorted(c);
    SortOfSorted(c);
    assert c[..|board|] == board;
  }

  /** Resetting the board and recording two wins for "Ann" leaves exactly
      Ann with two points. */
  lemma ResetThenTwoWins()
    ensures RecordWin(RecordWin([], "Ann"), "Ann") == [Entry("Ann", 2)]
  {
    var one := [Entry("Ann", 1)];
    assert Find([], "Ann") == 0;
    assert Credit([], "Ann") == one;
    SortSingle(Entry("Ann", 1));
    assert RecordWin([], "Ann") == one;
    assert one[0].nickname == "Ann";
    assert Find(one, "Ann") == 0;
    assert Credit(one, "Ann") == [Entry("Ann", 2)];
    SortSingle(Entry("Ann", 2));
  }

  lemma SortSingle(e: Entry)
    ensures SortByScore([e]) == [e]
  {
    assert [e][1..] == [];
  }
}
