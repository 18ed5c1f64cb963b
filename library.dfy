/** The aggregate root (Services/Library.cs): the catalog, the member register and
    the append-only loan history, with the rules that tie them together. Exceptions
    become Outcome/Result values; every check is made before anything changes. */
module LibraryService {
  import opened Outcomes
  import opened Text
  import opened Books
  import opened Members
  import opened Loans
  import opened Lookup
  import opened LibraryRules
  import Popularity

  // ==================== the objects' fields against the recorded flags

  /** ISBNs in the catalog are pairwise distinct. */
  ghost predicate IsbnsDistinct(books: seq<Book>)
    reads (set b | b in books)`isbn
  {
    forall i, j :: 0 <= i < j < |books| ==> books[i].isbn != books[j].isbn
  }

  /** The recorded availability flags are the books' own. */
  ghost predicate AvailabilityMatches(books: seq<Book>, available: seq<bool>)
    reads (set b | b in books)`isAvailable
  {
    |available| == |books| && forall i :: 0 <= i < |books| ==> available[i] == books[i].isAvailable
  }

  /** The recorded returned flags are the loans' own. */
  ghost predicate ReturnedMatches(loans: seq<Loan>, returned: seq<bool>)
    reads (set l | l in loans)`isReturned
  {
    |returned| == |loans| && forall i :: 0 <= i < |loans| ==> returned[i] == loans[i].isReturned
  }

  /** Exact groups of the loans' ISBNs start at a loan of their own ISBN, the first
      such loan, and count that ISBN's loans. */
  lemma GroupsOfLoans(ls: seq<Loan>, keys: seq<string>, gs: seq<Popularity.Group>)
    requires |keys| == |ls| && forall j :: 0 <= j < |ls| ==> keys[j] == ls[j].book.isbn
    requires forall i :: 0 <= i < |gs| ==> Popularity.IsGroupOf(gs[i], keys)
    ensures forall i :: 0 <= i < |gs| ==>
              && gs[i].first < |ls| && ls[gs[i].first].book.isbn == gs[i].isbn
              && gs[i].count == Popularity.Occurrences(keys, gs[i].isbn)
              && forall m :: 0 <= m < gs[i].first ==> ls[m].book.isbn != gs[i].isbn
  {
    forall i | 0 <= i < |gs|
      ensures gs[i].first < |ls| && ls[gs[i].first].book.isbn == gs[i].isbn
      ensures gs[i].count == Popularity.Occurrences(keys, gs[i].isbn)
      ensures forall m :: 0 <= m < gs[i].first ==> ls[m].book.isbn != gs[i].isbn
    {
      assert Popularity.IsGroupOf(gs[i], keys);
    }
  }

  /** The loan at position j is the first loan of book b's ISBN, and it is a loan of b. */
  ghost predicate IsFirstLoanOf(ls: seq<Loan>, j: int, b: Book)
    reads b`isbn, (set l | l in ls :: l.book)`isbn
  {
    0 <= j < |ls| && ls[j].book == b && forall m :: 0 <= m < j ==> ls[m].book.isbn != b.isbn
  }

  /** b is the book of the first loan of its ISBN in ls. */
  ghost predicate FirstLoanedIn(ls: seq<Loan>, b: Book)
    reads b`isbn, (set l | l in ls :: l.book)`isbn
  {
    exists j :: IsFirstLoanOf(ls, j, b)
  }

  /** A book paired with its group's first loan is loaned there, and no earlier loan
      has its ISBN. */
  lemma FirstLoanWitness(ls: seq<Loan>, r: seq<(Book, nat)>, gs: seq<Popularity.Group>)
    requires |r| == |gs|
    requires forall i :: 0 <= i < |gs| ==>
               && gs[i].first < |ls| && r[i].0 == ls[gs[i].first].book
               && forall m :: 0 <= m < gs[i].first ==> ls[m].book.isbn != r[i].0.isbn
    ensures forall i :: 0 <= i < |r| ==> FirstLoanedIn(ls, r[i].0)
  {
    forall i | 0 <= i < |r|
      ensures FirstLoanedIn(ls, r[i].0)
    {
      assert IsFirstLoanOf(ls, gs[i].first, r[i].0);
    }
  }

  /** Pairs each group with the book of its first loan. */
  function BooksOfGroups(ls: seq<Loan>, gs: seq<Popularity.Group>): (r: seq<(Book, nat)>)
    requires forall i :: 0 <= i < |gs| ==> gs[i].first < |ls|
    ensures |r| == |gs|
    ensures forall i :: 0 <= i < |gs| ==> r[i] == (ls[gs[i].first].book, gs[i].count)
  {
    if gs == [] then [] else [(ls[gs[0].first].book, gs[0].count)] + BooksOfGroups(ls, gs[1..])
  }

  class Library {
    var name: string
    var books: seq<Book>
    var members: seq<Member>
    var loans: seq<Loan>
    /** The identifier the next loan receives (stands for the Guid the source draws). */
    var nextLoanId: nat
    /** The books' availability flags and the loans' returned flags, as the proof
        records them; Valid ties them to the objects' fields. */
    ghost var available: seq<bool>
    ghost var returned: seq<bool>

    /** The catalog's ISBNs are distinct and the recorded flags are the objects' own. */
    ghost predicate Tied()
      reads this, (set b | b in books)`isbn, (set b | b in books)`isAvailable, (set l | l in loans)`isReturned
    {
      IsbnsDistinct(books) && AvailabilityMatches(books, available) && ReturnedMatches(loans, returned)
    }

    /** The library invariant every operation keeps. */
    ghost predicate Valid()
      reads this, (set b | b in books)`isbn, (set b | b in books)`isAvailable, (set l | l in loans)`isReturned
    {
      !IsBlank(name) && Tied() && Consistent(books, available, members, loans, returned, nextLoanId)
    }

    /** Every unavailable catalogued book is on loan (see UnavailableOnLoan). */
    ghost predicate UnavailableMeansOnLoan()
      reads this
    {
      |available| == |books| && |returned| == |loans| && UnavailableOnLoan(books, available, loans, returned)
    }

    /** In a library whose books all entered available, a catalogued book is
        unavailable exactly when an unreturned loan holds it. */
    lemma AvailabilityReflectsLoans()
      requires Valid() && UnavailableMeansOnLoan()
      ensures forall i :: 0 <= i < |books| ==>
                (!books[i].isAvailable <==> exists j :: 0 <= j < |loans| && !loans[j].isReturned && loans[j].book == books[i])
    {
    }

    /** A registered member's unreturned loans, as GetActiveLoans and GetLoansByMember
        list them, never exceed their cap. */
    lemma ActiveLoansWithinCap(k: nat)
      requires Valid() && k < |members|
      ensures |LoansOfMember(ActiveLoans(loans), members[k].memberId)| <= MaxBooksAllowed(members[k])
    {
      ActiveCountIsActiveLoansOfMember(loans, members[k].memberId);
      FlagsAreSnapshot(loans, returned);
      ActiveCountIsCountActive(loans, members[k].memberId);
    }

    /** new Library(name) once the Name setter has accepted the name: empty lists. */
    constructor (name: string)
      requires !IsBlank(name)
      ensures this.name == name && books == [] && members == [] && loans == [] && nextLoanId == 0
      ensures Valid() && UnavailableMeansOnLoan()
    {
      this.name := name;
      books := [];
      members := [];
      loans := [];
      nextLoanId := 0;
      available := [];
      returned := [];
      EmptyConsistent();
    }

    /** new Library(name): a blank name throws; otherwise an empty library. */
    static method Create(name: string) returns (r: Result<Library>)
      ensures r.Failure? <==> IsBlank(name)
      ensures r.Failure? ==> r.error == InvalidArgument(LibraryNameField)
      ensures r.Success? ==> fresh(r.value) && r.value.Valid() && r.value.UnavailableMeansOnLoan()
      ensures r.Success? ==> r.value.name == name && r.value.books == [] && r.value.members == [] && r.value.loans == []
    {
      if IsBlank(name) {
        return Failure(InvalidArgument(LibraryNameField));
      }
      var lib := new Library(name);
      return Success(lib);
    }

    /** The Name setter: a blank name throws and the old name stays. */
    method SetName(value: string) returns (r: Outcome)
      requires Valid()
      modifies this`name
      ensures Valid()
      ensures r.Pass? <==> !IsBlank(value)
      ensures r.Fail? ==> r.error == InvalidArgument(LibraryNameField)
      ensures name == if r.Pass? then value else old(name)
    {
      if IsBlank(value) {
        return Fail(InvalidArgument(LibraryNameField));
      }
      name := value;
      return Pass;
    }

    // ==================== books

    /** AddBook: a second book with the same ISBN is refused and the catalog stays as
        it was; otherwise the book is appended. */
    method AddBook(book: Book) returns (r: Outcome)
      requires Valid()
      modifies this`books, this`available
      ensures Valid()
      ensures r.Fail? <==> old(FindBook(books, book.isbn)).Some?
      ensures r.Fail? ==> r.error == InvalidOperation(DuplicateIsbn) && books == old(books)
      ensures r.Pass? ==> books == old(books) + [book]
      ensures old(UnavailableMeansOnLoan()) && book.isAvailable ==> UnavailableMeansOnLoan()
    {
      if FindBook(books, book.isbn).Some? {
        return Fail(InvalidOperation(DuplicateIsbn));
      }
      // no catalogued book has its ISBN, so it is not catalogued yet
      assert book !in books;
      AddBookKeeps(books, available, members, loans, returned, nextLoanId, book, book.isAvailable);
      books, available := books + [book], available + [book.isAvailable];
      return Pass;
    }

    /** The removal step of RemoveBook: takes the catalogued book at position i, which
        is available, out of the catalog. */
    method DeleteBookAt(i: nat)
      requires Valid() && i < |books| && books[i].isAvailable
      modifies this`books, this`available
      ensures Valid()
      ensures books == old(books[..i] + books[i + 1..])
      ensures old(UnavailableMeansOnLoan()) ==> UnavailableMeansOnLoan()
    {
      RemoveBookKeeps(books, available, members, loans, returned, nextLoanId, i);
      RemoveAt(books, i);
      RemoveAt(available, i);
      books, available := books[..i] + books[i + 1..], available[..i] + available[i + 1..];
    }

    /** RemoveBook: an unknown ISBN is not found, a book on loan cannot be removed,
        otherwise exactly that book leaves the catalog. */
    method RemoveBook(isbn: string) returns (r: Outcome)
      requires Valid()
      modifies this`books, this`available
      ensures Valid()
      ensures old(FindBook(books, isbn)).None? ==> r == Fail(NotFound(BookKey))
      ensures old(FindBook(books, isbn)).Some? ==>
                var i := old(FindBook(books, isbn)).value;
                if old(books[i].isAvailable) then r == Pass && books == old(books[..i] + books[i + 1..])
                else r == Fail(InvalidOperation(BookOnLoan))
      ensures r.Fail? ==> books == old(books)
      ensures old(UnavailableMeansOnLoan()) ==> UnavailableMeansOnLoan()
    {
      var found := FindBook(books, isbn);
      if found.None? {
        return Fail(NotFound(BookKey));
      }
      var i := found.value;
      if !books[i].isAvailable {
        return Fail(InvalidOperation(BookOnLoan));
      }
      DeleteBookAt(i);
      return Pass;
    }

    // ==================== members

    /** AddMember: a second member with the same identifier is refused and the register
        stays as it was; otherwise the member is appended. */
    method AddMember(member: Member) returns (r: Outcome)
      requires Valid()
      modifies this`members
      ensures Valid()
      ensures r.Fail? <==> old(FindMember(members, member.memberId)).Some?
      ensures r.Fail? ==> r.error == InvalidOperation(DuplicateMemberId) && members == old(members)
      ensures r.Pass? ==> members == old(members) + [member]
      ensures UnavailableMeansOnLoan() == old(UnavailableMeansOnLoan())
    {
      if FindMember(members, member.memberId).Some? {
        return Fail(InvalidOperation(DuplicateMemberId));
      }
      AddMemberKeeps(books, available, members, loans, returned, nextLoanId, member);
      members := members + [member];
      return Pass;
    }

    /** The removal step of RemoveMember: takes the member at position k, who holds no
        active loan, out of the register. */
    method DeleteMemberAt(k: nat)
      requires Valid() && k < |members|
      requires forall j :: 0 <= j < |loans| ==> !IsActiveLoanOf(loans[j], members[k].memberId)
      modifies this`members
      ensures Valid()
      ensures members == old(members[..k] + members[k + 1..])
      ensures UnavailableMeansOnLoan() == old(UnavailableMeansOnLoan())
    {
      RemoveMemberKeeps(books, available, members, loans, returned, nextLoanId, k);
      members := members[..k] + members[k + 1..];
    }

    /** RemoveMember: an unknown identifier is not found, a member with an unreturned
        loan cannot be removed, otherwise exactly that member leaves the register. */
    method RemoveMember(memberId: string) returns (r: Outcome)
      requires Valid()
      modifies this`members
      ensures Valid()
      ensures old(FindMember(members, memberId)).None? ==> r == Fail(NotFound(MemberKey))
      ensures old(FindMember(members, memberId)).Some? ==>
                var k := old(FindMember(members, memberId)).value;
                if old(exists j :: 0 <= j < |loans| && IsActiveLoanOf(loans[j], memberId))
                then r == Fail(InvalidOperation(MemberHasActiveLoans))
                else r == Pass && members == old(members[..k] + members[k + 1..])
      ensures r.Fail? ==> members == old(members)
      ensures UnavailableMeansOnLoan() == old(UnavailableMeansOnLoan())
    {
      var found := FindMember(members, memberId);
      if found.None? {
        return Fail(NotFound(MemberKey));
      }
      if exists j :: 0 <= j < |loans| && IsActiveLoanOf(loans[j], memberId) {
        return Fail(InvalidOperation(MemberHasActiveLoans));
      }
      DeleteMemberAt(found.value);
      return Pass;
    }

    // ==================== loans

    /** The lending step of CheckoutBook, once every check has passed: a new active
        loan of the available book at position i to the member at position k, who is
        below their cap; the member's active loans go up by one. */
    method Lend(i: nat, k: nat, loanDurationDays: int, now: int) returns (loan: Loan)
      requires Valid() && i < |books| && k < |members| && books[i].isAvailable
      requires ActiveCount(loans, members[k].memberId) < MaxBooksAllowed(members[k])
      modifies this`loans, this`nextLoanId, this`available, this`returned, {books[i]}`isAvailable
      ensures Valid()
      ensures fresh(loan) && loans == old(loans) + [loan] && nextLoanId == old(nextLoanId) + 1
      ensures loan.loanId == old(nextLoanId) && loan.book == books[i] && loan.member == members[k]
      ensures loan.loanDate == now && loan.dueDate == now + loanDurationDays * TicksPerDay
      ensures !loan.isReturned && loan.returnDate == None && !books[i].isAvailable
      ensures forall j :: 0 <= j < |books| && j != i ==> books[j].isAvailable == old(books[j].isAvailable)
      ensures ActiveCount(loans, members[k].memberId) == old(ActiveCount(loans, members[k].memberId)) + 1
      ensures old(UnavailableMeansOnLoan()) ==> UnavailableMeansOnLoan()
    {
      var memberId := members[k].memberId;
      ghost var av, ls, rs := available, loans, returned;
      ghost var before := ActiveCount(loans, memberId);
      assert before == CountActive(ls, rs, memberId) by {
        FlagsAreSnapshot(loans, returned);
        ActiveCountIsCountActive(loans, memberId);
      }
      loan := new Loan(nextLoanId, books[i], members[k], loanDurationDays, now);
      Record(loan, i, k);
      assert forall j :: 0 <= j < |books| && j != i ==> books[j].isAvailable == old(books[j].isAvailable) by {
        forall j | 0 <= j < |books| && j != i ensures books[j].isAvailable == old(books[j].isAvailable) {
          assert books[j].isAvailable == available[j] == av[j];
        }
      }
      assert UnavailableOnLoan(books, av, ls, rs) ==> UnavailableMeansOnLoan() by {
        if UnavailableOnLoan(books, av, ls, rs) {
          UnavailableAfterLend(books, av, ls, rs, loan, i);
        }
      }
      assert ActiveCount(loans, memberId) == before + 1 by {
        FlagsAreSnapshot(loans, returned);
        ActiveCountIsCountActive(loans, memberId);
        CountActiveAppend(ls, rs, loan, false, memberId);
      }
    }

    /** Appends the new loan to the history and marks the lent book unavailable. */
    method Record(loan: Loan, i: nat, k: nat)
      requires Valid() && i < |books| && k < |members| && books[i].isAvailable
      requires CountActive(loans, returned, members[k].memberId) < MaxBooksAllowed(members[k])
      requires loan.loanId == nextLoanId && loan.book == books[i] && loan.member == members[k]
      requires !loan.isReturned
      modifies this`loans, this`nextLoanId, this`available, this`returned, {books[i]}`isAvailable
      ensures Valid()
      ensures loans == old(loans) + [loan] && returned == old(returned) + [false]
      ensures available == old(available)[i := false]
      ensures nextLoanId == old(nextLoanId) + 1 && !books[i].isAvailable
      ensures forall j :: 0 <= j < |books| && j != i ==> books[j].isAvailable == old(books[j].isAvailable)
    {
      LendKeeps(books, available, members, loans, returned, nextLoanId, loan, i, k);
      loans, returned, nextLoanId := loans + [loan], returned + [false], nextLoanId + 1;
      forall m | 0 <= m < |loans| ensures returned[m] == loans[m].isReturned {
      }
      MarkUnavailable(i);
    }

    /** Marks the catalogued book at position i unavailable, in the object and in the
        recorded flags. */
    method MarkUnavailable(i: nat)
      requires Tied() && BooksDistinct(books) && i < |books|
      modifies this`available, {books[i]}`isAvailable
      ensures Tied() && available == old(available)[i := false] && !books[i].isAvailable
      ensures forall j :: 0 <= j < |books| && j != i ==> books[j].isAvailable == old(books[j].isAvailable)
    {
      available := available[i := false];
      books[i].SetIsAvailable(false);
      forall j | 0 <= j < |books| ensures available[j] == books[j].isAvailable {
        if j != i { assert books[j] != books[i]; }
      }
    }

    /** CheckoutBook: looks up the book and the member, then refuses, in this order, a
        missing book, a missing member, an unavailable book and a member at their cap,
        changing nothing; otherwise lends the book for loanDurationDays from now. */
    method CheckoutBook(isbn: string, memberId: string, now: int, loanDurationDays: int := DefaultLoanDurationDays) returns (r: Result<Loan>)
      requires Valid()
      modifies this`loans, this`nextLoanId, this`available, this`returned, (set b | b in books)`isAvailable
      ensures Valid()
      ensures old(FindBook(books, isbn)).None? ==> r == Failure(NotFound(BookKey))
      ensures old(FindBook(books, isbn)).Some? && old(FindMember(members, memberId)).None? ==>
                r == Failure(NotFound(MemberKey))
      ensures old(FindBook(books, isbn)).Some? && old(FindMember(members, memberId)).Some? ==>
                var i := old(FindBook(books, isbn)).value;
                var k := old(FindMember(members, memberId)).value;
                if !old(books[i].isAvailable) then r == Failure(InvalidOperation(BookUnavailable))
                else if old(ActiveCount(loans, memberId)) >= MaxBooksAllowed(members[k]) then r == Failure(InvalidOperation(LoanLimitReached))
                else
                  && r.Success? && fresh(r.value)
                  && loans == old(loans) + [r.value]
                  && r.value.loanId == old(nextLoanId) && r.value.book == books[i] && r.value.member == members[k]
                  && r.value.loanDate == now && r.value.dueDate == now + loanDurationDays * TicksPerDay
                  && !r.value.isReturned && r.value.returnDate == None && !books[i].isAvailable
                  && nextLoanId == old(nextLoanId) + 1
                  && (forall j :: 0 <= j < |books| && j != i ==> books[j].isAvailable == old(books[j].isAvailable))
                  && ActiveCount(loans, memberId) == old(ActiveCount(loans, memberId)) + 1 <= MaxBooksAllowed(members[k])
      ensures r.Failure? ==> loans == old(loans) && nextLoanId == old(nextLoanId)
      ensures r.Failure? ==> forall j :: 0 <= j < |books| ==> books[j].isAvailable == old(books[j].isAvailable)
      ensures old(UnavailableMeansOnLoan()) ==> UnavailableMeansOnLoan()
    {
      var bookAt := FindBook(books, isbn);
      var memberAt := FindMember(members, memberId);
      if bookAt.None? {
        return Failure(NotFound(BookKey));
      }
      if memberAt.None? {
        return Failure(NotFound(MemberKey));
      }
      var i, k := bookAt.value, memberAt.value;
      if !books[i].isAvailable {
        return Failure(InvalidOperation(BookUnavailable));
      }
      if ActiveCount(loans, memberId) >= MaxBooksAllowed(members[k]) {
        return Failure(InvalidOperation(LoanLimitReached));
      }
      var loan := Lend(i, k, loanDurationDays, now);
      return Success(loan);
    }

    /** Loan.ReturnBook on the active loan at position k, whose book is catalogued at
        position b: the loan becomes returned at now and the book available, in the
        objects and in the recorded flags. */
    method CloseLoan(k: nat, now: int, ghost b: nat)
      requires Tied() && BooksDistinct(books) && LoanIdsIssued(loans, nextLoanId)
      requires k < |loans| && !loans[k].isReturned && b < |books| && books[b] == loans[k].book
      modifies {loans[k]}`isReturned, {loans[k]}`returnDate, {loans[k].book}`isAvailable
      modifies this`available, this`returned
      ensures Tied()
      ensures loans[k].isReturned && loans[k].returnDate == Some(now) && loans[k].book.isAvailable
      ensures returned == old(returned)[k := true] && available == old(available)[b := true]
    {
      var loan := loans[k];
      available, returned := available[b := true], returned[k := true];
      var outcome := loan.ReturnBook(now);
      forall j | 0 <= j < |books| ensures available[j] == books[j].isAvailable {
        if j != b { assert books[j] != books[b]; }
      }
      forall m | 0 <= m < |loans| ensures returned[m] == loans[m].isReturned {
        if m != k { assert loans[m].loanId != loans[k].loanId; }
      }
    }

    /** The return step of ReturnBook: the active loan at position k becomes returned
        at now and its book available again; no other loan or book changes. */
    method ReturnAt(k: nat, now: int)
      requires Valid() && k < |loans| && !loans[k].isReturned
      modifies {loans[k]}`isReturned, {loans[k]}`returnDate, {loans[k].book}`isAvailable
      modifies this`available, this`returned
      ensures Valid()
      ensures loans[k].isReturned && loans[k].returnDate == Some(now) && loans[k].book.isAvailable
      ensures forall j :: 0 <= j < |loans| && j != k ==>
                loans[j].isReturned == old(loans[j].isReturned) && loans[j].returnDate == old(loans[j].returnDate)
      ensures forall j :: 0 <= j < |books| && books[j] != loans[k].book ==> books[j].isAvailable == old(books[j].isAvailable)
      ensures old(UnavailableMeansOnLoan()) ==> UnavailableMeansOnLoan()
    {
      ghost var b :| 0 <= b < |books| && books[b] == loans[k].book;
      ReturnKeeps(books, available, members, loans, returned, nextLoanId, k, b);
      CloseLoan(k, now, b);
    }

    /** ReturnBook: an unknown loan is not found and a returned loan cannot be returned
        again, changing nothing; otherwise the loan becomes returned at now, its book
        available, and the fee owed for the days past the due date is reported. */
    method ReturnBook(loanId: nat, now: int) returns (r: Result<real>)
      requires Valid()
      modifies (set l | l in loans)`isReturned, (set l | l in loans)`returnDate, (set b | b in books)`isAvailable
      modifies this`available, this`returned
      ensures Valid()
      ensures old(FindLoan(loans, loanId)).None? ==> r == Failure(NotFound(LoanKey))
      ensures old(FindLoan(loans, loanId)).Some? ==>
                var k := old(FindLoan(loans, loanId)).value;
                if old(loans[k].isReturned) then r == Failure(InvalidOperation(AlreadyReturned))
                else
                  && r == Success(ReturnFee(loans[k].dueDate, now))
                  && loans[k].isReturned && loans[k].returnDate == Some(now) && loans[k].book.isAvailable
                  && (forall j :: 0 <= j < |loans| && j != k ==> loans[j].isReturned == old(loans[j].isReturned))
                  && (forall j :: 0 <= j < |loans| && j != k ==> loans[j].returnDate == old(loans[j].returnDate))
                  && (forall j :: 0 <= j < |books| && books[j] != loans[k].book ==> books[j].isAvailable == old(books[j].isAvailable))
      ensures r.Failure? ==> forall j :: 0 <= j < |loans| ==> loans[j].isReturned == old(loans[j].isReturned)
      ensures r.Failure? ==> forall j :: 0 <= j < |loans| ==> loans[j].returnDate == old(loans[j].returnDate)
      ensures r.Failure? ==> forall j :: 0 <= j < |books| ==> books[j].isAvailable == old(books[j].isAvailable)
      ensures old(UnavailableMeansOnLoan()) ==> UnavailableMeansOnLoan()
    {
      var found := FindLoan(loans, loanId);
      if found.None? {
        return Failure(NotFound(LoanKey));
      }
      var k := found.value;
      var loan := loans[k];
      if loan.isReturned {
        return Failure(InvalidOperation(AlreadyReturned));
      }
      // the fee is read while the loan is still active (see ReturnFeeAsWritten)
      var fee := loan.CalculateLateFee(now);
      ReturnAt(k, now);
      return Success(fee);
    }

    // ==================== queries

    /** GetAllBooks: the catalog, in order. */
    function GetAllBooks(): seq<Book>
      reads this
    {
      books
    }

    /** GetAvailableBooks (see AvailableBooks). */
    function GetAvailableBooks(): seq<Book>
      reads this, (set b | b in books)`isAvailable
    {
      AvailableBooks(books)
    }

    /** SearchBooksByTitle (see TitleMatches). */
    function SearchBooksByTitle(title: string): seq<Book>
      reads this, (set b | b in books)`title
    {
      TitleMatches(books, title)
    }

    /** SearchBooksByAuthor (see AuthorMatches). */
    function SearchBooksByAuthor(author: string): seq<Book>
      reads this, (set b | b in books)`author
    {
      AuthorMatches(books, author)
    }

    /** GetBookByISBN: the first catalogued book with that ISBN, or none. */
    function GetBookByISBN(isbn: string): (r: Option<Book>)
      reads this, (set b | b in books)`isbn
      ensures r.Some? ==> r.value in books && r.value.isbn == isbn
      ensures r.None? <==> forall j :: 0 <= j < |books| ==> books[j].isbn != isbn
    {
      match FindBook(books, isbn)
      case None => None
      case Some(i) => Some(books[i])
    }

    /** GetAllMembers: the register, in order. */
    function GetAllMembers(): seq<Member>
      reads this
    {
      members
    }

    /** GetMemberById: the first registered member with that identifier, or none. */
    function GetMemberById(memberId: string): (r: Option<Member>)
      reads this
      ensures r.Some? ==> r.value in members && r.value.memberId == memberId
      ensures r.None? <==> forall j :: 0 <= j < |members| ==> members[j].memberId != memberId
    {
      match FindMember(members, memberId)
      case None => None
      case Some(k) => Some(members[k])
    }

    /** GetAllLoans: the loan history, in checkout order. */
    function GetAllLoans(): seq<Loan>
      reads this
    {
      loans
    }

    /** GetActiveLoans (see ActiveLoans). */
    function GetActiveLoans(): seq<Loan>
      reads this, (set l | l in loans)`isReturned
    {
      ActiveLoans(loans)
    }

    /** GetOverdueLoans at clock value now (see OverdueLoans). */
    function GetOverdueLoans(now: int): seq<Loan>
      reads this, (set l | l in loans)`isReturned
    {
      OverdueLoans(loans, now)
    }

    /** GetLoansByMember (see LoansOfMember). */
    function GetLoansByMember(memberId: string): seq<Loan>
      reads this
    {
      LoansOfMember(loans, memberId)
    }

    /** The ranking PrintMostPopularBooks prints: for each of the topN most loaned
        ISBNs, the book of its first loan and the number of loans of that ISBN, most
        loaned first, ties in order of first loan. */
    function MostPopularBooks(topN: int := Popularity.DefaultTopN): (r: seq<(Book, nat)>)
      reads this, (set l | l in loans :: l.book)`isbn
      ensures |r| <= if topN <= 0 then 0 else topN
      ensures forall i :: 0 <= i < |r| ==> r[i].0 in (set l | l in loans :: l.book)
    {
      var keys := LoanIsbns(loans);
      var gs := Popularity.MostPopular(keys, topN);
      GroupsOfLoans(loans, keys, gs);
      BooksOfGroups(loans, gs)
    }

    /** The ranking shows topN ISBNs, or all when fewer were loaned, each with the
        number of loans of that ISBN. */
    lemma MostPopularBooksCounts(topN: int)
      ensures var r := MostPopularBooks(topN);
              && |r| == |Popularity.MostPopular(LoanIsbns(loans), topN)|
              && forall i :: 0 <= i < |r| ==> r[i].1 == Popularity.Occurrences(LoanIsbns(loans), r[i].0.isbn)
    {
      var keys := LoanIsbns(loans);
      var gs := Popularity.MostPopular(keys, topN);
      GroupsOfLoans(loans, keys, gs);
      var r := BooksOfGroups(loans, gs);
      assert forall i :: 0 <= i < |r| ==> r[i].0.isbn == gs[i].isbn;
    }

    /** Each book the ranking shows is the book of the first loan of its ISBN. */
    lemma MostPopularBooksFirstLoan(topN: int)
      ensures var r := MostPopularBooks(topN);
              forall i :: 0 <= i < |r| ==> FirstLoanedIn(loans, r[i].0)
    {
      var keys := LoanIsbns(loans);
      var gs := Popularity.MostPopular(keys, topN);
      GroupsOfLoans(loans, keys, gs);
      FirstLoanWitness(loans, BooksOfGroups(loans, gs), gs);
    }

    /** The ranking is most loaned first and names each ISBN once. */
    lemma MostPopularBooksOrdered(topN: int)
      ensures var r := MostPopularBooks(topN);
              && (forall i, j :: 0 <= i < j < |r| ==> r[i].1 >= r[j].1)
              && (forall i, j :: 0 <= i < j < |r| ==> r[i].0.isbn != r[j].0.isbn)
    {
      var keys := LoanIsbns(loans);
      var gs := Popularity.MostPopular(keys, topN);
      GroupsOfLoans(loans, keys, gs);
      var r := BooksOfGroups(loans, gs);
      assert forall i :: 0 <= i < |r| ==> r[i].0.isbn == gs[i].isbn;
    }
  }
}
