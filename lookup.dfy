/** The LINQ queries Services/Library.cs runs over its lists: FirstOrDefault by key,
    the Where filters behind the Get* and Search* methods, and Count of a member's
    unreturned loans. Each filter keeps the list's order.

    A filter's contract says which elements it keeps and that they keep their order;
    it does not say how often an element the input repeats is kept. The lists a
    Library holds never repeat an object (LibraryRules.BooksDistinct, and distinct
    loan identifiers), so inside Library every kept element occurs once. */
module Lookup {
  import opened Outcomes
  import opened Text
  import opened Books
  import opened Members
  import opened Loans

  /** r is s with some elements left out, the rest in their original order. */
  ghost predicate IsSubsequence<T>(r: seq<T>, s: seq<T>)
    decreases |s|
  {
    if r == [] then true
    else if s == [] then false
    else (r[|r| - 1] == s[|s| - 1] && IsSubsequence(r[..|r| - 1], s[..|s| - 1])) || IsSubsequence(r, s[..|s| - 1])
  }

  // ---------------------------------------------------------------- FirstOrDefault

  /** _books.FirstOrDefault(b => b.ISBN == isbn), as a position. */
  function FindBook(bs: seq<Book>, isbn: string): (r: Option<nat>)
    reads (set b | b in bs)`isbn
    ensures r.Some? ==> r.value < |bs| && bs[r.value].isbn == isbn
    ensures r.Some? ==> forall j :: 0 <= j < r.value ==> bs[j].isbn != isbn
    ensures r.None? <==> forall j :: 0 <= j < |bs| ==> bs[j].isbn != isbn
  {
    if bs == [] then None
    else if bs[0].isbn == isbn then Some(0)
    else
      assert forall j :: 0 < j < |bs| ==> bs[j] == bs[1..][j - 1];
      match FindBook(bs[1..], isbn)
      case None => None
      case Some(k) => Some(k + 1)
  }

  /** _members.FirstOrDefault(m => m.MemberId == memberId), as a position. */
  function FindMember(ms: seq<Member>, memberId: string): (r: Option<nat>)
    ensures r.Some? ==> r.value < |ms| && ms[r.value].memberId == memberId
    ensures r.Some? ==> forall j :: 0 <= j < r.value ==> ms[j].memberId != memberId
    ensures r.None? <==> forall j :: 0 <= j < |ms| ==> ms[j].memberId != memberId
  {
    if ms == [] then None
    else if ms[0].memberId == memberId then Some(0)
    else
      assert forall j :: 0 < j < |ms| ==> ms[j] == ms[1..][j - 1];
      match FindMember(ms[1..], memberId)
      case None => None
      case Some(k) => Some(k + 1)
  }

  /** _loans.FirstOrDefault(l => l.LoanId == loanId), as a position. */
  function FindLoan(ls: seq<Loan>, loanId: nat): (r: Option<nat>)
    ensures r.Some? ==> r.value < |ls| && ls[r.value].loanId == loanId
    ensures r.Some? ==> forall j :: 0 <= j < r.value ==> ls[j].loanId != loanId
    ensures r.None? <==> forall j :: 0 <= j < |ls| ==> ls[j].loanId != loanId
  {
    if ls == [] then None
    else if ls[0].loanId == loanId then Some(0)
    else
      assert forall j :: 0 < j < |ls| ==> ls[j] == ls[1..][j - 1];
      match FindLoan(ls[1..], loanId)
      case None => None
      case Some(k) => Some(k + 1)
  }

  // ---------------------------------------------------------------- Where over books

  /** _books.Where(b => b.IsAvailable): the available books, in catalog order. */
  function AvailableBooks(bs: seq<Book>): (r: seq<Book>)
    reads (set b | b in bs)`isAvailable
    ensures forall i :: 0 <= i < |r| ==> r[i] in bs && r[i].isAvailable
    ensures forall i :: 0 <= i < |bs| ==> (bs[i] in r <==> bs[i].isAvailable)
    ensures IsSubsequence(r, bs)
    decreases |bs|
  {
    if bs == [] then []
    else
      var init := bs[..|bs| - 1];
      var last := bs[|bs| - 1];
      assert bs == init + [last];
      var r := AvailableBooks(init);
      if last.isAvailable then r + [last] else r
  }

  /** The search predicate: the text, lower-cased, contains the lower-cased query. */
  predicate MatchesIgnoringCase(text: string, query: string)
  {
    Contains(Lower(text), Lower(query))
  }

  /** _books.Where(b => b.Title.ToLower().Contains(title.ToLower())), in catalog order. */
  function TitleMatches(bs: seq<Book>, query: string): (r: seq<Book>)
    reads (set b | b in bs)`title
    ensures forall i :: 0 <= i < |r| ==> r[i] in bs && MatchesIgnoringCase(r[i].title, query)
    ensures forall i :: 0 <= i < |bs| ==> (bs[i] in r <==> MatchesIgnoringCase(bs[i].title, query))
    ensures IsSubsequence(r, bs)
    decreases |bs|
  {
    if bs == [] then []
    else
      var init := bs[..|bs| - 1];
      var last := bs[|bs| - 1];
      assert bs == init + [last];
      var r := TitleMatches(init, query);
      if MatchesIgnoringCase(last.title, query) then r + [last] else r
  }

  /** _books.Where(b => b.Author.ToLower().Contains(author.ToLower())), in catalog order. */
  function AuthorMatches(bs: seq<Book>, query: string): (r: seq<Book>)
    reads (set b | b in bs)`author
    ensures forall i :: 0 <= i < |r| ==> r[i] in bs && MatchesIgnoringCase(r[i].author, query)
    ensures forall i :: 0 <= i < |bs| ==> (bs[i] in r <==> MatchesIgnoringCase(bs[i].author, query))
    ensures IsSubsequence(r, bs)
    decreases |bs|
  {
    if bs == [] then []
    else
      var init := bs[..|bs| - 1];
      var last := bs[|bs| - 1];
      assert bs == init + [last];
      var r := AuthorMatches(init, query);
      if MatchesIgnoringCase(last.author, query) then r + [last] else r
  }

  /** The searches ignore the case of the query: two queries that lower-case alike find the same books. */
  lemma {:induction false} SearchIgnoresQueryCase(bs: seq<Book>, q1: string, q2: string)
    requires Lower(q1) == Lower(q2)
    ensures TitleMatches(bs, q1) == TitleMatches(bs, q2)
    ensures AuthorMatches(bs, q1) == AuthorMatches(bs, q2)
    decreases |bs|
  {
    if bs != [] {
      SearchIgnoresQueryCase(bs[..|bs| - 1], q1, q2);
    }
  }

  /** An empty query matches every book. */
  lemma {:induction false} EmptyQueryFindsAll(bs: seq<Book>)
    ensures TitleMatches(bs, "") == bs
    decreases |bs|
  {
    if bs != [] {
      EmptyQueryFindsAll(bs[..|bs| - 1]);
      ContainsEmpty(Lower(bs[|bs| - 1].title));
      assert bs == bs[..|bs| - 1] + [bs[|bs| - 1]];
    }
  }

  // ---------------------------------------------------------------- Where over loans

  /** _loans.Where(l => !l.IsReturned): the unreturned loans, in checkout order. */
  function ActiveLoans(ls: seq<Loan>): (r: seq<Loan>)
    reads (set l | l in ls)`isReturned
    ensures forall i :: 0 <= i < |r| ==> r[i] in ls && !r[i].isReturned
    ensures forall i :: 0 <= i < |ls| ==> (ls[i] in r <==> !ls[i].isReturned)
    ensures IsSubsequence(r, ls)
    decreases |ls|
  {
    if ls == [] then []
    else
      var init := ls[..|ls| - 1];
      var last := ls[|ls| - 1];
      assert ls == init + [last];
      var r := ActiveLoans(init);
      if !last.isReturned then r + [last] else r
  }

  /** _loans.Where(l => !l.IsReturned && l.IsOverdue()): the overdue loans, in checkout order. */
  function OverdueLoans(ls: seq<Loan>, now: int): (r: seq<Loan>)
    reads (set l | l in ls)`isReturned
    ensures forall i :: 0 <= i < |r| ==> r[i] in ls && r[i].IsOverdue(now)
    ensures forall i :: 0 <= i < |ls| ==> (ls[i] in r <==> ls[i].IsOverdue(now))
    ensures IsSubsequence(r, ls)
    decreases |ls|
  {
    if ls == [] then []
    else
      var init := ls[..|ls| - 1];
      var last := ls[|ls| - 1];
      assert ls == init + [last];
      var r := OverdueLoans(init, now);
      if !last.isReturned && last.IsOverdue(now) then r + [last] else r
  }

  /** _loans.Where(l => l.Member.MemberId == memberId): the member's loans, returned or
      not, in checkout order. */
  function LoansOfMember(ls: seq<Loan>, memberId: string): (r: seq<Loan>)
    ensures forall i :: 0 <= i < |r| ==> r[i] in ls && r[i].member.memberId == memberId
    ensures forall i :: 0 <= i < |ls| ==> (ls[i] in r <==> ls[i].member.memberId == memberId)
    ensures IsSubsequence(r, ls)
    decreases |ls|
  {
    if ls == [] then []
    else
      var init := ls[..|ls| - 1];
      var last := ls[|ls| - 1];
      assert ls == init + [last];
      var r := LoansOfMember(init, memberId);
      if last.member.memberId == memberId then r + [last] else r
  }

  // ---------------------------------------------------------------- Count

  /** The loan belongs to the member and is not returned. */
  predicate IsActiveLoanOf(l: Loan, memberId: string)
    reads l`isReturned
  {
    l.member.memberId == memberId && !l.isReturned
  }

  /** _loans.Count(l => l.Member.MemberId == memberId && !l.IsReturned). */
  function ActiveCount(ls: seq<Loan>, memberId: string): (n: nat)
    reads (set l | l in ls)`isReturned
    ensures n <= |ls|
    ensures n == 0 <==> forall i :: 0 <= i < |ls| ==> !IsActiveLoanOf(ls[i], memberId)
    decreases |ls|
  {
    if ls == [] then 0
    else
      var init := ls[..|ls| - 1];
      assert forall i :: 0 <= i < |ls| - 1 ==> ls[i] == init[i];
      ActiveCount(init, memberId) + if IsActiveLoanOf(ls[|ls| - 1], memberId) then 1 else 0
  }

  /** The count the checkout cap is checked against is the number of loans
      GetActiveLoans lists for that member. */
  lemma {:induction false} ActiveCountIsActiveLoansOfMember(ls: seq<Loan>, memberId: string)
    ensures ActiveCount(ls, memberId) == |LoansOfMember(ActiveLoans(ls), memberId)|
    decreases |ls|
  {
    if ls != [] {
      var init := ls[..|ls| - 1];
      var last := ls[|ls| - 1];
      ActiveCountIsActiveLoansOfMember(init, memberId);
      var a := ActiveLoans(init);
      if !last.isReturned {
        assert ActiveLoans(ls) == a + [last];
        assert (a + [last])[..|a|] == a;
      }
    }
  }

  /** Appending a loan raises the count by one exactly when it is an active loan of that member. */
  lemma ActiveCountAppend(ls: seq<Loan>, l: Loan, memberId: string)
    ensures ActiveCount(ls + [l], memberId) == ActiveCount(ls, memberId) + if IsActiveLoanOf(l, memberId) then 1 else 0
  {
    assert (ls + [l])[..|ls|] == ls;
  }

  /** The loans' returned flags, one per loan: a snapshot that outlives later updates. */
  function ReturnedFlags(ls: seq<Loan>): (r: seq<bool>)
    reads (set l | l in ls)`isReturned
    ensures |r| == |ls|
    ensures forall i :: 0 <= i < |ls| ==> r[i] == ls[i].isReturned
    decreases |ls|
  {
    if ls == [] then []
    else
      var init := ls[..|ls| - 1];
      assert forall i :: 0 <= i < |ls| - 1 ==> ls[i] == init[i];
      ReturnedFlags(init) + [ls[|ls| - 1].isReturned]
  }

  /** The member's active loans counted against a snapshot of the returned flags. */
  function CountActive(ls: seq<Loan>, returned: seq<bool>, memberId: string): nat
    requires |returned| == |ls|
    decreases |ls|
  {
    if ls == [] then 0
    else
      var n := |ls| - 1;
      CountActive(ls[..n], returned[..n], memberId) + if ls[n].member.memberId == memberId && !returned[n] then 1 else 0
  }

  /** Appending a loan with its flag adds one exactly when it is an active loan of the member. */
  lemma CountActiveAppend(ls: seq<Loan>, returned: seq<bool>, l: Loan, flag: bool, memberId: string)
    requires |returned| == |ls|
    ensures CountActive(ls + [l], returned + [flag], memberId)
            == CountActive(ls, returned, memberId) + if l.member.memberId == memberId && !flag then 1 else 0
  {
    assert (ls + [l])[..|ls|] == ls;
    assert (returned + [flag])[..|ls|] == returned;
  }

  /** A member none of whose loans is active counts zero. */
  lemma {:induction false} CountActiveZero(ls: seq<Loan>, returned: seq<bool>, memberId: string)
    requires |returned| == |ls|
    requires forall i :: 0 <= i < |ls| && !returned[i] ==> ls[i].member.memberId != memberId
    ensures CountActive(ls, returned, memberId) == 0
    decreases |ls|
  {
    if ls != [] {
      CountActiveZero(ls[..|ls| - 1], returned[..|ls| - 1], memberId);
    }
  }

  /** Flags that agree with the loans one by one are their snapshot. */
  lemma FlagsAreSnapshot(ls: seq<Loan>, returned: seq<bool>)
    requires |returned| == |ls| && forall i :: 0 <= i < |ls| ==> returned[i] == ls[i].isReturned
    ensures ReturnedFlags(ls) == returned
  {
  }

  /** Counting against the current flags is ActiveCount. */
  lemma {:induction false} ActiveCountIsCountActive(ls: seq<Loan>, memberId: string)
    ensures ActiveCount(ls, memberId) == CountActive(ls, ReturnedFlags(ls), memberId)
    decreases |ls|
  {
    if ls != [] {
      var n := |ls| - 1;
      ActiveCountIsCountActive(ls[..n], memberId);
      assert ReturnedFlags(ls)[..n] == ReturnedFlags(ls[..n]);
    }
  }

  /** Marking one more loan returned never raises a member's count. */
  lemma {:induction false} CountActiveAfterReturn(ls: seq<Loan>, returned: seq<bool>, k: nat, memberId: string)
    requires |returned| == |ls| && k < |ls|
    ensures CountActive(ls, returned[k := true], memberId) <= CountActive(ls, returned, memberId)
    decreases |ls|
  {
    var n := |ls| - 1;
    if k == n {
      assert returned[k := true][..n] == returned[..n];
    } else {
      assert returned[k := true][..n] == returned[..n][k := true];
      CountActiveAfterReturn(ls[..n], returned[..n], k, memberId);
    }
  }

  /** The ISBN of each loan's book, in checkout order: the keys GroupBy(l => l.Book.ISBN) sees. */
  function LoanIsbns(ls: seq<Loan>): (r: seq<string>)
    reads (set l | l in ls :: l.book)`isbn
    ensures |r| == |ls|
    ensures forall i :: 0 <= i < |ls| ==> r[i] == ls[i].book.isbn
    decreases |ls|
  {
    if ls == [] then []
    else
      var init := ls[..|ls| - 1];
      assert forall i :: 0 <= i < |ls| - 1 ==> ls[i] == init[i];
      LoanIsbns(init) + [ls[|ls| - 1].book.isbn]
  }
}
