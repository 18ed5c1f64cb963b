/** The ranking inside Library.PrintMostPopularBooks: the loan history's ISBNs are
    grouped in order of first appearance (GroupBy), each group keeps its first loan
    and its size, the groups are sorted by size, largest first, with a stable sort
    (OrderByDescending), and the first topN are kept (Take). */
module Popularity {
  import opened Outcomes

  /** PrintMostPopularBooks's default for topN. */
  const DefaultTopN := 5

  /** One GroupBy group: the ISBN, the position of its first loan and the number of loans. */
  datatype Group = Group(isbn: string, first: nat, count: nat)

  /** How many keys equal k. */
  function Occurrences(keys: seq<string>, k: string): (n: nat)
    ensures n <= |keys|
    ensures n == 0 <==> forall j :: 0 <= j < |keys| ==> keys[j] != k
    decreases |keys|
  {
    if keys == [] then 0
    else
      var init := keys[..|keys| - 1];
      assert forall j :: 0 <= j < |keys| - 1 ==> keys[j] == init[j];
      Occurrences(init, k) + if keys[|keys| - 1] == k then 1 else 0
  }

  /** g is the group GroupBy forms for its ISBN: it starts at that ISBN's first
      occurrence and counts all of them. */
  ghost predicate IsGroupOf(g: Group, keys: seq<string>)
  {
    && g.first < |keys| && keys[g.first] == g.isbn
    && (forall j :: 0 <= j < g.first ==> keys[j] != g.isbn)
    && g.count == Occurrences(keys, g.isbn)
  }

  /** Groups that start at different first occurrences have different ISBNs. */
  lemma GroupsDistinct(gs: seq<Group>, keys: seq<string>)
    requires forall i :: 0 <= i < |gs| ==> IsGroupOf(gs[i], keys)
    requires FirstsIncreasing(gs)
    ensures forall i, j :: 0 <= i < j < |gs| ==> gs[i].isbn != gs[j].isbn
  {
    forall i, j | 0 <= i < j < |gs|
      ensures gs[i].isbn != gs[j].isbn
    {
      assert IsGroupOf(gs[i], keys) && IsGroupOf(gs[j], keys);
    }
  }

  /** The sum of the group sizes. */
  function SumCounts(gs: seq<Group>): nat
  {
    if gs == [] then 0 else gs[0].count + SumCounts(gs[1..])
  }

  lemma {:induction false} SumCountsAppend(gs: seq<Group>, g: Group)
    ensures SumCounts(gs + [g]) == SumCounts(gs) + g.count
  {
    if gs != [] {
      assert (gs + [g])[1..] == gs[1..] + [g];
      SumCountsAppend(gs[1..], g);
    }
  }

  lemma {:induction false} SumCountsUpdate(gs: seq<Group>, i: nat, g: Group)
    requires i < |gs|
    ensures SumCounts(gs[i := g]) == SumCounts(gs) - gs[i].count + g.count
  {
    if i == 0 {
      assert gs[i := g][1..] == gs[1..];
    } else {
      assert gs[i := g][1..] == gs[1..][i - 1 := g];
      SumCountsUpdate(gs[1..], i - 1, g);
    }
  }

  lemma {:induction false} SumCountsPrefix(gs: seq<Group>, k: nat)
    requires k <= |gs|
    ensures SumCounts(gs[..k]) <= SumCounts(gs)
  {
    if k > 0 {
      assert gs[..k][1..] == gs[1..][..k - 1];
      SumCountsPrefix(gs[1..], k - 1);
    }
  }

  /** The position of the group for key, if there is one. */
  function FindGroup(gs: seq<Group>, key: string): (r: Option<nat>)
    ensures r.Some? ==> r.value < |gs| && gs[r.value].isbn == key
    ensures r.None? <==> forall i :: 0 <= i < |gs| ==> gs[i].isbn != key
  {
    if gs == [] then None
    else if gs[0].isbn == key then Some(0)
    else
      assert forall i :: 0 < i < |gs| ==> gs[i] == gs[1..][i - 1];
      match FindGroup(gs[1..], key)
      case None => None
      case Some(k) => Some(k + 1)
  }

  predicate FirstsIncreasing(gs: seq<Group>)
  {
    forall i, j :: 0 <= i < j < |gs| ==> gs[i].first < gs[j].first
  }

  /** gs is exactly GroupBy's result: one group per distinct key, in order of first
      appearance, and a group for every key. */
  ghost predicate GroupsOf(gs: seq<Group>, keys: seq<string>)
  {
    && (forall i :: 0 <= i < |gs| ==> IsGroupOf(gs[i], keys))
    && FirstsIncreasing(gs)
    && (forall j {:trigger FindGroup(gs, keys[j])} :: 0 <= j < |keys| ==> FindGroup(gs, keys[j]).Some?)
  }

  /** Feeds one more key, found at position at, into the groups. */
  function Tally(gs: seq<Group>, key: string, at: nat): seq<Group>
  {
    match FindGroup(gs, key)
    case Some(i) => gs[i := gs[i].(count := gs[i].count + 1)]
    case None => gs + [Group(key, at, 1)]
  }

  lemma OccurrencesAppend(keys: seq<string>, k: string)
    ensures forall x :: Occurrences(keys + [k], x) == Occurrences(keys, x) + if x == k then 1 else 0
  {
    assert (keys + [k])[..|keys|] == keys;
  }

  /** A group for another key is unaffected by one more key. */
  lemma GroupExtends(g: Group, keys: seq<string>, k: string)
    requires IsGroupOf(g, keys) && g.isbn != k
    ensures IsGroupOf(g, keys + [k])
  {
    OccurrencesAppend(keys, k);
  }

  /** Adding one to the group of the next key keeps every group exact. */
  lemma BumpKeepsExact(gs: seq<Group>, keys: seq<string>, k: string, i: nat)
    requires GroupsOf(gs, keys)
    requires FindGroup(gs, k) == Some(i)
    ensures var gs' := gs[i := gs[i].(count := gs[i].count + 1)];
            forall j :: 0 <= j < |gs'| ==> IsGroupOf(gs'[j], keys + [k])
  {
    var keys' := keys + [k];
    var gs' := gs[i := gs[i].(count := gs[i].count + 1)];
    OccurrencesAppend(keys, k);
    GroupsDistinct(gs, keys);
    assert IsGroupOf(gs[i], keys);
    assert IsGroupOf(gs'[i], keys');
    forall j | 0 <= j < |gs'| && j != i ensures IsGroupOf(gs'[j], keys') {
      assert IsGroupOf(gs[j], keys);
      GroupExtends(gs[j], keys, k);
    }
  }

  /** Adding one to the group of the next key leaves every key with a group. */
  lemma BumpKeepsCover(gs: seq<Group>, keys: seq<string>, k: string, i: nat)
    requires GroupsOf(gs, keys)
    requires FindGroup(gs, k) == Some(i)
    ensures var gs' := gs[i := gs[i].(count := gs[i].count + 1)];
            forall j :: 0 <= j < |keys| + 1 ==> FindGroup(gs', (keys + [k])[j]).Some?
  {
    var keys' := keys + [k];
    var gs' := gs[i := gs[i].(count := gs[i].count + 1)];
    forall j | 0 <= j < |keys'| ensures FindGroup(gs', keys'[j]).Some? {
      if j < |keys| {
        var i' := FindGroup(gs, keys[j]).value;
        assert gs'[i'].isbn == keys'[j];
      } else {
        assert gs'[i].isbn == keys'[j];
      }
    }
  }

  /** Changing one group's count leaves the first occurrences as they were. */
  lemma BumpKeepsFirsts(gs: seq<Group>, i: nat, c: nat)
    requires FirstsIncreasing(gs) && i < |gs|
    ensures FirstsIncreasing(gs[i := gs[i].(count := c)])
  {
    var gs' := gs[i := gs[i].(count := c)];
    assert forall j :: 0 <= j < |gs| ==> gs'[j].first == gs[j].first;
  }

  /** Tallying a key that already has a group adds one to that group. */
  lemma TallyFound(gs: seq<Group>, keys: seq<string>, k: string, i: nat)
    requires GroupsOf(gs, keys)
    requires FindGroup(gs, k) == Some(i)
    ensures GroupsOf(Tally(gs, k, |keys|), keys + [k])
    ensures SumCounts(Tally(gs, k, |keys|)) == SumCounts(gs) + 1
  {
    var gs' := gs[i := gs[i].(count := gs[i].count + 1)];
    assert Tally(gs, k, |keys|) == gs';
    BumpKeepsExact(gs, keys, k, i);
    BumpKeepsCover(gs, keys, k, i);
    BumpKeepsFirsts(gs, i, gs[i].count + 1);
    assert GroupsOf(gs', keys + [k]);
    SumCountsUpdate(gs, i, gs'[i]);
  }

  /** A new group for the next key is exact, and the old groups stay exact. */
  lemma NewKeepsExact(gs: seq<Group>, keys: seq<string>, k: string)
    requires GroupsOf(gs, keys)
    requires FindGroup(gs, k).None?
    ensures forall j :: 0 <= j < |keys| ==> keys[j] != k
    ensures var gs' := gs + [Group(k, |keys|, 1)];
            forall j :: 0 <= j < |gs'| ==> IsGroupOf(gs'[j], keys + [k])
  {
    var keys' := keys + [k];
    var g := Group(k, |keys|, 1);
    var gs' := gs + [g];
    OccurrencesAppend(keys, k);
    forall j | 0 <= j < |keys| ensures keys[j] != k {
      assert FindGroup(gs, keys[j]).Some?;
    }
    assert IsGroupOf(g, keys');
    forall j | 0 <= j < |gs| ensures IsGroupOf(gs'[j], keys') {
      assert gs'[j] == gs[j] && IsGroupOf(gs[j], keys);
      GroupExtends(gs[j], keys, k);
    }
  }

  /** A new group for the next key leaves every key with a group. */
  lemma NewKeepsCover(gs: seq<Group>, keys: seq<string>, k: string)
    requires GroupsOf(gs, keys)
    ensures var gs' := gs + [Group(k, |keys|, 1)];
            forall j :: 0 <= j < |keys| + 1 ==> FindGroup(gs', (keys + [k])[j]).Some?
  {
    var keys' := keys + [k];
    var gs' := gs + [Group(k, |keys|, 1)];
    forall j | 0 <= j < |keys'| ensures FindGroup(gs', keys'[j]).Some? {
      if j < |keys| {
        var i' := FindGroup(gs, keys[j]).value;
        assert gs'[i'].isbn == keys'[j];
      } else {
        assert gs'[|gs|].isbn == keys'[j];
      }
    }
  }

  /** Tallying a key with no group yet starts a new group at the end. */
  lemma TallyNew(gs: seq<Group>, keys: seq<string>, k: string)
    requires GroupsOf(gs, keys)
    requires FindGroup(gs, k).None?
    ensures GroupsOf(Tally(gs, k, |keys|), keys + [k])
    ensures SumCounts(Tally(gs, k, |keys|)) == SumCounts(gs) + 1
  {
    var gs' := gs + [Group(k, |keys|, 1)];
    assert Tally(gs, k, |keys|) == gs';
    NewKeepsExact(gs, keys, k);
    NewKeepsCover(gs, keys, k);
    forall i | 0 <= i < |gs| ensures gs'[i].first < |keys| {
      assert IsGroupOf(gs[i], keys);
    }
    assert FirstsIncreasing(gs');
    SumCountsAppend(gs, Group(k, |keys|, 1));
  }

  /** Tallying the next key keeps the groups exact and adds one to their total. */
  lemma TallyKeepsGroups(gs: seq<Group>, keys: seq<string>, k: string)
    requires GroupsOf(gs, keys)
    ensures GroupsOf(Tally(gs, k, |keys|), keys + [k])
    ensures SumCounts(Tally(gs, k, |keys|)) == SumCounts(gs) + 1
  {
    var f := FindGroup(gs, k);
    if f.Some? {
      TallyFound(gs, keys, k, f.value);
    } else {
      TallyNew(gs, keys, k);
    }
  }

  /** Tallying the last key onto the groups of the keys before it gives the groups of all the keys. */
  lemma TallyLast(gs: seq<Group>, keys: seq<string>)
    requires keys != [] && GroupsOf(gs, keys[..|keys| - 1])
    ensures GroupsOf(Tally(gs, keys[|keys| - 1], |keys| - 1), keys)
    ensures SumCounts(Tally(gs, keys[|keys| - 1], |keys| - 1)) == SumCounts(gs) + 1
  {
    var init, k := keys[..|keys| - 1], keys[|keys| - 1];
    assert keys == init + [k];
    TallyKeepsGroups(gs, init, k);
  }

  /** GroupBy(key): one group per distinct key, in order of first appearance, each
      with its exact number of occurrences, and together covering every key once. */
  function GroupByIsbn(keys: seq<string>): (gs: seq<Group>)
    ensures GroupsOf(gs, keys)
    ensures SumCounts(gs) == |keys|
    decreases |keys|
  {
    if keys == [] then []
    else
      var gs := GroupByIsbn(keys[..|keys| - 1]);
      TallyLast(gs, keys);
      Tally(gs, keys[|keys| - 1], |keys| - 1)
  }

  /** a comes strictly before b in a stable descending sort of groups listed by first
      appearance: a larger count, or the same count and an earlier first loan. */
  predicate Before(a: Group, b: Group)
  {
    a.count > b.count || (a.count == b.count && a.first < b.first)
  }

  ghost predicate Ranked(s: seq<Group>)
  {
    forall i, j :: 0 <= i < j < |s| ==> Before(s[i], s[j])
  }

  /** The insertion step of a stable sort by count, largest first: g goes in front
      of the first group whose count does not exceed its own. */
  function Insert(g: Group, s: seq<Group>): (r: seq<Group>)
    ensures |r| == |s| + 1
    ensures multiset(r) == multiset(s) + multiset{g}
    ensures SumCounts(r) == SumCounts(s) + g.count
  {
    if s == [] then [g]
    else if s[0].count <= g.count then [g] + s
    else
      assert s == [s[0]] + s[1..];
      [s[0]] + Insert(g, s[1..])
  }

  lemma {:induction false} InsertAfter(x: Group, g: Group, s: seq<Group>)
    requires Before(x, g) && forall j :: 0 <= j < |s| ==> Before(x, s[j])
    ensures forall j :: 0 <= j < |Insert(g, s)| ==> Before(x, Insert(g, s)[j])
  {
    if s != [] && s[0].count > g.count {
      InsertAfter(x, g, s[1..]);
    }
  }

  /** Inserting a group whose first loan precedes every other keeps the list ranked. */
  lemma {:induction false} InsertRanked(g: Group, s: seq<Group>)
    requires Ranked(s)
    requires forall j :: 0 <= j < |s| ==> g.first < s[j].first
    ensures Ranked(Insert(g, s))
  {
    if s != [] && s[0].count > g.count {
      InsertAfter(s[0], g, s[1..]);
      InsertRanked(g, s[1..]);
    }
  }

  /** OrderByDescending(x => x.TimesLoaned): a stable insertion sort. */
  function SortByCount(gs: seq<Group>): (r: seq<Group>)
    ensures |r| == |gs|
    ensures multiset(r) == multiset(gs)
    ensures SumCounts(r) == SumCounts(gs)
  {
    if gs == [] then []
    else
      assert gs == [gs[0]] + gs[1..];
      Insert(gs[0], SortByCount(gs[1..]))
  }

  /** Sorting groups listed by first appearance ranks them by count, ties in order of first loan. */
  lemma {:induction false} SortByCountRanked(gs: seq<Group>)
    requires forall i, j :: 0 <= i < j < |gs| ==> gs[i].first < gs[j].first
    ensures Ranked(SortByCount(gs))
  {
    if gs != [] {
      var t := SortByCount(gs[1..]);
      SortByCountRanked(gs[1..]);
      forall j | 0 <= j < |t| ensures gs[0].first < t[j].first {
        assert t[j] in multiset(gs[1..]);
        var k :| 0 <= k < |gs[1..]| && gs[1..][k] == t[j];
        assert gs[k + 1] == t[j];
      }
      InsertRanked(gs[0], t);
    }
  }

  /** Take(n): the first n elements, none for n <= 0, all when n exceeds the length. */
  function Take(s: seq<Group>, n: int): (r: seq<Group>)
    ensures |r| == if n <= 0 then 0 else if n < |s| then n else |s|
    ensures r == s[..|r|]
  {
    if n <= 0 then [] else if n < |s| then s[..n] else s
  }

  /** Sorting GroupBy's result ranks the groups and keeps each one exact. */
  lemma SortedGroups(keys: seq<string>)
    ensures var s := SortByCount(GroupByIsbn(keys));
            Ranked(s) && forall i :: 0 <= i < |s| ==> IsGroupOf(s[i], keys)
  {
    var gs := GroupByIsbn(keys);
    var s := SortByCount(gs);
    SortByCountRanked(gs);
    forall i | 0 <= i < |s| ensures IsGroupOf(s[i], keys) {
      assert s[i] in multiset(gs);
      var k :| 0 <= k < |gs| && gs[k] == s[i];
    }
  }

  /** Two exact groups for the same ISBN are the same group, so a ranked list of
      exact groups names each ISBN once. */
  lemma RankedDistinct(s: seq<Group>, keys: seq<string>)
    requires Ranked(s)
    requires forall i :: 0 <= i < |s| ==> IsGroupOf(s[i], keys)
    ensures forall i, j :: 0 <= i < j < |s| ==> s[i].isbn != s[j].isbn
  {
    forall i, j | 0 <= i < j < |s|
      ensures s[i].isbn != s[j].isbn
    {
      assert IsGroupOf(s[i], keys) && IsGroupOf(s[j], keys);
      assert Before(s[i], s[j]);
    }
  }

  /** A group that Take leaves out of a ranked list comes after every group it keeps:
      it is no larger, and on a tie it was first loaned later. */
  lemma TakeKeepsLargest(s: seq<Group>, n: int, g: Group)
    requires Ranked(s) && g in s && g !in Take(s, n)
    ensures forall i :: 0 <= i < |Take(s, n)| ==> Before(Take(s, n)[i], g)
    ensures forall i :: 0 <= i < |Take(s, n)| ==> g.count <= Take(s, n)[i].count
  {
    var r := Take(s, n);
    var j :| 0 <= j < |s| && s[j] == g;
    forall i | 0 <= i < |r| ensures Before(r[i], g) {
      assert r[i] == s[i];
      assert j >= |r|;
      assert Before(s[i], s[j]);
    }
  }

  /** The first n groups of a ranked list of distinct exact groups are themselves
      exact, distinct and ranked. */
  lemma TakeRankedFacts(s: seq<Group>, n: int, keys: seq<string>)
    requires Ranked(s) && forall i :: 0 <= i < |s| ==> IsGroupOf(s[i], keys)
    requires forall i, j :: 0 <= i < j < |s| ==> s[i].isbn != s[j].isbn
    ensures var r := Take(s, n);
            && (forall i :: 0 <= i < |r| ==> IsGroupOf(r[i], keys))
            && (forall i, j :: 0 <= i < j < |r| ==> r[i].count >= r[j].count)
            && (forall i, j :: 0 <= i < j < |r| && r[i].count == r[j].count ==> r[i].first < r[j].first)
            && (forall i, j :: 0 <= i < j < |r| ==> r[i].isbn != r[j].isbn)
  {
    var r := Take(s, n);
    forall i, j | 0 <= i < j < |r|
      ensures r[i].count >= r[j].count
      ensures r[i].count == r[j].count ==> r[i].first < r[j].first
    {
      assert r[i] == s[i] && r[j] == s[j] && Before(s[i], s[j]);
    }
  }

  /** The ranking PrintMostPopularBooks(topN) prints: at most topN exact groups,
      largest first, ties in order of first loan, each ISBN once. */
  function MostPopular(keys: seq<string>, topN: int := DefaultTopN): (r: seq<Group>)
    ensures |r| == if topN <= 0 then 0 else if topN < |GroupByIsbn(keys)| then topN else |GroupByIsbn(keys)|
    ensures forall i :: 0 <= i < |r| ==> IsGroupOf(r[i], keys)
    ensures forall i, j :: 0 <= i < j < |r| ==> r[i].count >= r[j].count
    ensures forall i, j :: 0 <= i < j < |r| && r[i].count == r[j].count ==> r[i].first < r[j].first
    ensures forall i, j :: 0 <= i < j < |r| ==> r[i].isbn != r[j].isbn
  {
    var s := SortByCount(GroupByIsbn(keys));
    SortedGroups(keys);
    RankedDistinct(s, keys);
    TakeRankedFacts(s, topN, keys);
    Take(s, topN)
  }

  /** A group the ranking leaves out comes after every group it shows: it was loaned
      no more often, and on a tie its ISBN was first loaned later, as the stable sort
      keeps tied groups in order of first loan. */
  lemma MostPopularKeepsLargest(keys: seq<string>, topN: int, g: Group)
    requires g in GroupByIsbn(keys) && g !in MostPopular(keys, topN)
    ensures forall i :: 0 <= i < |MostPopular(keys, topN)| ==> Before(MostPopular(keys, topN)[i], g)
    ensures forall i :: 0 <= i < |MostPopular(keys, topN)| ==> g.count <= MostPopular(keys, topN)[i].count
  {
    var s := SortByCount(GroupByIsbn(keys));
    SortedGroups(keys);
    assert g in multiset(s);
    assert MostPopular(keys, topN) == Take(s, topN);
    TakeKeepsLargest(s, topN, g);
  }

  /** The counts the ranking shows add up to at most the number of loans. */
  lemma MostPopularCountsBounded(keys: seq<string>, topN: int)
    ensures SumCounts(MostPopular(keys, topN)) <= |keys|
  {
    var s := SortByCount(GroupByIsbn(keys));
    SumCountsPrefix(s, |MostPopular(keys, topN)|);
  }

  /** GroupBy on the ISBNs of four loans in the order A, B, A, A. */
  lemma GroupByExample()
    ensures GroupByIsbn(["A", "B", "A", "A"]) == [Group("A", 0, 3), Group("B", 1, 1)]
  {
    var keys: seq<string> := ["A", "B", "A", "A"];
    assert keys[..1][..0] == [];
    assert GroupByIsbn(keys[..1]) == [Group("A", 0, 1)];
    assert keys[..2][..1] == keys[..1];
    assert GroupByIsbn(keys[..2]) == [Group("A", 0, 1), Group("B", 1, 1)];
    assert keys[..3][..2] == keys[..2];
    assert GroupByIsbn(keys[..3]) == [Group("A", 0, 2), Group("B", 1, 1)];
    assert keys[..3] == keys[..|keys| - 1];
  }

  /** The stable sort keeps two groups already largest first. */
  lemma SortExample()
    ensures SortByCount([Group("A", 0, 3), Group("B", 1, 1)]) == [Group("A", 0, 3), Group("B", 1, 1)]
  {
    var gs := [Group("A", 0, 3), Group("B", 1, 1)];
    assert gs[1..] == [Group("B", 1, 1)];
    assert SortByCount(gs[1..]) == [Group("B", 1, 1)];
  }

  /** An illustration: three loans of "A" and one of "B", in the order A, B, A, A. */
  lemma MostPopularExample()
    ensures MostPopular(["A", "B", "A", "A"], 5) == [Group("A", 0, 3), Group("B", 1, 1)]
    ensures MostPopular(["A", "B", "A", "A"], 1) == [Group("A", 0, 3)]
    ensures MostPopular(["A", "B", "A", "A"], 0) == []
  {
    GroupByExample();
    SortExample();
  }

  /** Of two ISBNs loaned once each, the one loaned first survives a cut to one entry. */
  lemma TieExample()
    ensures MostPopular(["A", "B"], 1) == [Group("A", 0, 1)]
  {
    var keys: seq<string> := ["A", "B"];
    assert keys[..1][..0] == [];
    assert GroupByIsbn(keys[..1]) == [Group("A", 0, 1)];
    assert keys[..1] == keys[..|keys| - 1];
    var gs := [Group("A", 0, 1), Group("B", 1, 1)];
    assert GroupByIsbn(keys) == gs;
    assert gs[1..] == [Group("B", 1, 1)];
    assert SortByCount(gs[1..]) == [Group("B", 1, 1)];
    assert SortByCount(gs) == gs;
  }
}
