/** The rules Services/Library.cs keeps across its three lists, stated over values:
    the catalog with each book's availability flag, the member register, and the loan
    history with each loan's returned flag. The flags are passed alongside the lists,
    so every rule here is about sequences only, and each Library operation's effect on
    the rules is a lemma about sequences. */
module LibraryRules {
  import opened Books
  import opened Members
  import opened Loans
  import opened Lookup

  /** Removing the element at position i keeps every other element, in order. */
  lemma RemoveAt<T>(s: seq<T>, i: nat)
    requires i < |s|
    ensures var t := s[..i] + s[i + 1..];
            && |t| == |s| - 1
            && (forall j :: 0 <= j < i ==> t[j] == s[j])
            && (forall j :: i <= j < |t| ==> t[j] == s[j + 1])
  {
  }

  // ==================== the rules

  /** Member identifiers in the register are pairwise distinct. */
  ghost predicate MemberIdsDistinct(members: seq<Member>)
  {
    forall i, j :: 0 <= i < j < |members| ==> members[i].memberId != members[j].memberId
  }

  /** No book object is catalogued twice. */
  ghost predicate BooksDistinct(books: seq<Book>)
  {
    forall i, j :: 0 <= i < j < |books| ==> books[i] != books[j]
  }

  /** Loan identifiers come from the counter: each below it, no two alike. */
  ghost predicate LoanIdsIssued(loans: seq<Loan>, nextLoanId: nat)
  {
    && (forall i :: 0 <= i < |loans| ==> loans[i].loanId < nextLoanId)
    && (forall i, j :: 0 <= i < j < |loans| ==> loans[i].loanId != loans[j].loanId)
  }

  /** Every active loan holds a catalogued book, marked unavailable wherever it is
      catalogued, for a registered member. */
  ghost predicate ActiveLoansHeld(books: seq<Book>, available: seq<bool>, members: seq<Member>,
                                  loans: seq<Loan>, returned: seq<bool>)
    requires |available| == |books| && |returned| == |loans|
  {
    && (forall i :: 0 <= i < |loans| && !returned[i] ==>
          loans[i].book in books && FindMember(members, loans[i].member.memberId).Some?)
    && (forall i, j :: 0 <= i < |loans| && 0 <= j < |books| && !returned[i] && books[j] == loans[i].book ==>
          !available[j])
  }

  /** No book is held by two active loans. */
  ghost predicate OneActiveLoanPerBook(loans: seq<Loan>, returned: seq<bool>)
    requires |returned| == |loans|
  {
    forall i, j :: 0 <= i < j < |loans| && !returned[i] && !returned[j] ==> loans[i].book != loans[j].book
  }

  /** No registered member holds more active loans than their cap. */
  ghost predicate WithinCaps(members: seq<Member>, loans: seq<Loan>, returned: seq<bool>)
    requires |returned| == |loans|
  {
    forall k :: 0 <= k < |members| ==> CountActive(loans, returned, members[k].memberId) <= MaxBooksAllowed(members[k])
  }

  /** The three lists with their flags obey every rule. */
  ghost predicate Consistent(books: seq<Book>, available: seq<bool>, members: seq<Member>,
                             loans: seq<Loan>, returned: seq<bool>, nextLoanId: nat)
  {
    && |available| == |books| && |returned| == |loans|
    && BooksDistinct(books)
    && MemberIdsDistinct(members)
    && LoanIdsIssued(loans, nextLoanId)
    && ActiveLoansHeld(books, available, members, loans, returned)
    && OneActiveLoanPerBook(loans, returned)
    && WithinCaps(members, loans, returned)
  }

  /** Some active loan holds book b. */
  ghost predicate OnLoan(loans: seq<Loan>, returned: seq<bool>, b: Book)
    requires |returned| == |loans|
  {
    exists j :: 0 <= j < |loans| && !returned[j] && loans[j].book == b
  }

  /** The converse of ActiveLoansHeld: an unavailable catalogued book is held by an
      active loan. It holds of every library whose books all entered available. */
  ghost predicate UnavailableOnLoan(books: seq<Book>, available: seq<bool>, loans: seq<Loan>, returned: seq<bool>)
    requires |available| == |books| && |returned| == |loans|
  {
    forall j :: 0 <= j < |books| && !available[j] ==> OnLoan(loans, returned, books[j])
  }

  /** The empty library obeys every rule. */
  lemma EmptyConsistent()
    ensures Consistent([], [], [], [], [], 0)
    ensures UnavailableOnLoan([], [], [], [])
  {
  }

  // ==================== how each operation keeps the rules

  /** AddBook: cataloguing a book not yet catalogued keeps the rules; the converse
      rule survives when the book arrives available. */
  lemma AddBookKeeps(books: seq<Book>, available: seq<bool>, members: seq<Member>,
                     loans: seq<Loan>, returned: seq<bool>, nextLoanId: nat, b: Book, flag: bool)
    requires Consistent(books, available, members, loans, returned, nextLoanId) && b !in books
    ensures Consistent(books + [b], available + [flag], members, loans, returned, nextLoanId)
    ensures UnavailableOnLoan(books, available, loans, returned) && flag ==>
              UnavailableOnLoan(books + [b], available + [flag], loans, returned)
  {
    var bs, av := books + [b], available + [flag];
    assert forall j :: 0 <= j < |books| ==> bs[j] == books[j] && av[j] == available[j];
    assert bs[|books|] == b;
  }

  /** RemoveBook: taking an available book out of the catalog keeps the rules. */
  lemma RemoveBookKeeps(books: seq<Book>, available: seq<bool>, members: seq<Member>,
                        loans: seq<Loan>, returned: seq<bool>, nextLoanId: nat, i: nat)
    requires Consistent(books, available, members, loans, returned, nextLoanId)
    requires i < |books| && available[i]
    ensures Consistent(books[..i] + books[i + 1..], available[..i] + available[i + 1..], members, loans, returned, nextLoanId)
    ensures UnavailableOnLoan(books, available, loans, returned) ==>
              UnavailableOnLoan(books[..i] + books[i + 1..], available[..i] + available[i + 1..], loans, returned)
  {
    var bs, av := books[..i] + books[i + 1..], available[..i] + available[i + 1..];
    RemoveAt(books, i);
    RemoveAt(available, i);
    forall m | 0 <= m < |loans| && !returned[m]
      ensures loans[m].book in bs
    {
      var j :| 0 <= j < |books| && books[j] == loans[m].book;
      // the removed book is available, so no active loan holds it
      if j < i { assert bs[j] == books[j]; } else { assert bs[j - 1] == books[j]; }
    }
  }

  /** AddMember: registering a member under a new identifier keeps the rules. */
  lemma AddMemberKeeps(books: seq<Book>, available: seq<bool>, members: seq<Member>,
                       loans: seq<Loan>, returned: seq<bool>, nextLoanId: nat, m: Member)
    requires Consistent(books, available, members, loans, returned, nextLoanId)
    requires FindMember(members, m.memberId).None?
    ensures Consistent(books, available, members + [m], loans, returned, nextLoanId)
  {
    var ms := members + [m];
    assert forall k :: 0 <= k < |members| ==> ms[k] == members[k];
    // no active loan names the newcomer, since every active loan's member is registered
    CountActiveZero(loans, returned, m.memberId);
    assert ms[|members|] == m;
    forall j | 0 <= j < |loans| && !returned[j]
      ensures FindMember(ms, loans[j].member.memberId).Some?
    {
      var p := FindMember(members, loans[j].member.memberId).value;
      assert ms[p].memberId == loans[j].member.memberId;
    }
  }

  /** RemoveMember: taking out a member who holds no active loan keeps the rules. */
  lemma RemoveMemberKeeps(books: seq<Book>, available: seq<bool>, members: seq<Member>,
                          loans: seq<Loan>, returned: seq<bool>, nextLoanId: nat, k: nat)
    requires Consistent(books, available, members, loans, returned, nextLoanId) && k < |members|
    requires forall j :: 0 <= j < |loans| && !returned[j] ==> loans[j].member.memberId != members[k].memberId
    ensures Consistent(books, available, members[..k] + members[k + 1..], loans, returned, nextLoanId)
  {
    var ms := members[..k] + members[k + 1..];
    RemoveAt(members, k);
    forall j | 0 <= j < |loans| && !returned[j]
      ensures FindMember(ms, loans[j].member.memberId).Some?
    {
      var p := FindMember(members, loans[j].member.memberId).value;
      if p < k { assert ms[p] == members[p]; } else { assert ms[p - 1] == members[p]; }
    }
  }

  /** CheckoutBook: a new active loan of the available book at position i, to the
      member at position k who is below their cap, with the book now unavailable,
      keeps the rules, the converse rule included. */
  lemma LendKeeps(books: seq<Book>, available: seq<bool>, members: seq<Member>,
                  loans: seq<Loan>, returned: seq<bool>, nextLoanId: nat, loan: Loan, i: nat, k: nat)
    requires Consistent(books, available, members, loans, returned, nextLoanId)
    requires i < |books| && available[i] && k < |members|
    requires loan.loanId == nextLoanId && loan.book == books[i] && loan.member == members[k]
    requires CountActive(loans, returned, members[k].memberId) < MaxBooksAllowed(members[k])
    ensures Consistent(books, available[i := false], members, loans + [loan], returned + [false], nextLoanId + 1)
    ensures UnavailableOnLoan(books, available, loans, returned) ==>
              UnavailableOnLoan(books, available[i := false], loans + [loan], returned + [false])
  {
    HeldAfterLend(books, available, members, loans, returned, loan, i, k);
    OneLoanPerBookAfterLend(books, available, loans, returned, loan, i);
    IdsAfterLend(loans, nextLoanId, loan);
    CapsAfterLend(members, loans, returned, loan, k);
    if UnavailableOnLoan(books, available, loans, returned) {
      UnavailableAfterLend(books, available, loans, returned, loan, i);
    }
  }

  /** The new loan's book is catalogued and now unavailable, its member registered;
      the older active loans hold other books, whose flags stay as they were. */
  lemma HeldAfterLend(books: seq<Book>, available: seq<bool>, members: seq<Member>,
                      loans: seq<Loan>, returned: seq<bool>, loan: Loan, i: nat, k: nat)
    requires |available| == |books| && |returned| == |loans| && BooksDistinct(books)
    requires ActiveLoansHeld(books, available, members, loans, returned)
    requires i < |books| && available[i] && loan.book == books[i]
    requires k < |members| && loan.member == members[k]
    ensures ActiveLoansHeld(books, available[i := false], members, loans + [loan], returned + [false])
  {
    var ls, rs := loans + [loan], returned + [false];
    assert forall j :: 0 <= j < |loans| ==> ls[j] == loans[j] && rs[j] == returned[j];
    assert ls[|loans|] == loan;
    assert FindMember(members, loan.member.memberId).Some?;
  }

  /** The lent book was available, so no older active loan holds it. */
  lemma OneLoanPerBookAfterLend(books: seq<Book>, available: seq<bool>, loans: seq<Loan>, returned: seq<bool>, loan: Loan, i: nat)
    requires |available| == |books| && |returned| == |loans|
    requires forall m, j :: 0 <= m < |loans| && 0 <= j < |books| && !returned[m] && books[j] == loans[m].book ==> !available[j]
    requires OneActiveLoanPerBook(loans, returned)
    requires i < |books| && available[i] && loan.book == books[i]
    ensures OneActiveLoanPerBook(loans + [loan], returned + [false])
  {
    var ls, rs := loans + [loan], returned + [false];
    assert forall j :: 0 <= j < |loans| ==> ls[j] == loans[j] && rs[j] == returned[j];
    assert ls[|loans|] == loan;
  }

  /** The new loan takes the counter's value, which no earlier loan has. */
  lemma IdsAfterLend(loans: seq<Loan>, nextLoanId: nat, loan: Loan)
    requires LoanIdsIssued(loans, nextLoanId) && loan.loanId == nextLoanId
    ensures LoanIdsIssued(loans + [loan], nextLoanId + 1)
  {
  }

  /** A new active loan raises only its own member's count, by one. */
  lemma CapsAfterLend(members: seq<Member>, loans: seq<Loan>, returned: seq<bool>, loan: Loan, k: nat)
    requires |returned| == |loans| && MemberIdsDistinct(members) && WithinCaps(members, loans, returned)
    requires k < |members| && loan.member == members[k]
    requires CountActive(loans, returned, members[k].memberId) < MaxBooksAllowed(members[k])
    ensures WithinCaps(members, loans + [loan], returned + [false])
  {
    forall m | 0 <= m < |members|
      ensures CountActive(loans + [loan], returned + [false], members[m].memberId) <= MaxBooksAllowed(members[m])
    {
      CountActiveAppend(loans, returned, loan, false, members[m].memberId);
    }
  }

  /** The lent book is on loan by the new loan; every other unavailable book still is. */
  lemma UnavailableAfterLend(books: seq<Book>, available: seq<bool>, loans: seq<Loan>, returned: seq<bool>, loan: Loan, i: nat)
    requires |available| == |books| && |returned| == |loans| && i < |books| && loan.book == books[i]
    requires UnavailableOnLoan(books, available, loans, returned)
    ensures UnavailableOnLoan(books, available[i := false], loans + [loan], returned + [false])
  {
    var av, ls, rs := available[i := false], loans + [loan], returned + [false];
    assert ls[|loans|] == loan && !rs[|loans|];
    forall j | 0 <= j < |books| && !av[j]
      ensures OnLoan(ls, rs, books[j])
    {
      if j != i {
        var m :| 0 <= m < |loans| && !returned[m] && loans[m].book == books[j];
        assert ls[m] == loans[m] && rs[m] == returned[m];
      }
    }
  }

  /** ReturnBook: marking the active loan at position k returned, and its book,
      catalogued at position b, available again, keeps the rules, the converse rule
      included. */
  lemma ReturnKeeps(books: seq<Book>, available: seq<bool>, members: seq<Member>,
                    loans: seq<Loan>, returned: seq<bool>, nextLoanId: nat, k: nat, b: nat)
    requires Consistent(books, available, members, loans, returned, nextLoanId)
    requires k < |loans| && !returned[k] && b < |books| && books[b] == loans[k].book
    ensures Consistent(books, available[b := true], members, loans, returned[k := true], nextLoanId)
    ensures UnavailableOnLoan(books, available, loans, returned) ==>
              UnavailableOnLoan(books, available[b := true], loans, returned[k := true])
  {
    if UnavailableOnLoan(books, available, loans, returned) {
      ReturnKeepsConverse(books, available, loans, returned, k, b);
    }
    var av, rs := available[b := true], returned[k := true];
    forall m | 0 <= m < |members|
      ensures CountActive(loans, rs, members[m].memberId) <= MaxBooksAllowed(members[m])
    {
      CountActiveAfterReturn(loans, returned, k, members[m].memberId);
    }
    // another active loan holds another book, by OneActiveLoanPerBook
    assert forall m :: 0 <= m < |loans| && m != k && !returned[m] ==> loans[m].book != books[b];
  }

  /** Returning the loan at position k frees only its own book, at position b; every
      other unavailable book is still held by another active loan. */
  lemma ReturnKeepsConverse(books: seq<Book>, available: seq<bool>, loans: seq<Loan>, returned: seq<bool>, k: nat, b: nat)
    requires |available| == |books| && |returned| == |loans|
    requires k < |loans| && b < |books| && books[b] == loans[k].book
    requires UnavailableOnLoan(books, available, loans, returned)
    requires OneActiveLoanPerBook(loans, returned) && BooksDistinct(books)
    ensures UnavailableOnLoan(books, available[b := true], loans, returned[k := true])
  {
    var av, rs := available[b := true], returned[k := true];
    forall j | 0 <= j < |books| && !av[j]
      ensures OnLoan(loans, rs, books[j])
    {
      var m :| 0 <= m < |loans| && !returned[m] && loans[m].book == books[j];
      assert m != k;
    }
  }
}
