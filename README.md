# Library management system, in Dafny

This project models an in-memory lending library. A `Library` owns three lists:

- the catalog of `Book` objects;
- the register of members, who are either regular members (cap of 3 loans) or students (cap of 5);
- an append-only history of `Loan` objects.

Books are added and removed, members are registered and deregistered, books are checked out and returned, and the lists are queried. The model also covers the "most popular books" ranking.

Each entity takes the form it has in the C# source:

- `Book` (module `Books`) and `Loan` (module `Loans`) are classes, because the source changes their fields in place. Book's validating setters are methods that leave the old value in place when they reject. `Loan.ReturnBook` flips the loan and its book.
- A member (module `Members`) is a datatype. The abstract base class and its two subclasses form a closed family whose fields are set only by the validating constructors. `MemberKind` carries the subclass's own fields.
- `Library` (module `LibraryService`) is a class with `seq` fields. Its operations are methods that return an `Outcome` or `Result` in place of the exception the source throws. The queries are functions over the pure LINQ models in module `Lookup`. The ranking is module `Popularity`.
- Exceptions become `Error` values (module `Outcomes`):
  - `InvalidArgument(field)` for a validating setter's `ArgumentException`;
  - `NotFound(key)` for `KeyNotFoundException`;
  - `InvalidOperation(reason)` for `InvalidOperationException`.
- The source raises a duplicate ISBN or member id as an `InvalidOperationException`, so the model reports `InvalidOperation(DuplicateIsbn)` and `InvalidOperation(DuplicateMemberId)`. It does not use a separate conflict kind.
- The clock (`DateTime.Now`) is a parameter `now`, an integer count of .NET ticks. The year check takes `currentYear` as a parameter. Money (`decimal`) is an exact `real`. Loan identifiers come from a counter `nextLoanId` that the library increments; the source draws a Guid prefix instead.

The library invariant is `Library.Valid`. It ties ghost snapshots of the books' availability flags and the loans' returned flags to the objects' own fields. It also states, over those values, the rules in module `LibraryRules`:

- ISBNs, member identifiers and loan identifiers are distinct;
- every active loan holds a catalogued book, which is marked unavailable, for a registered member;
- no book is held by two active loans;
- no member holds more active loans than their cap.

Every mutating operation keeps `Valid`. Each also keeps the converse rule `UnavailableMeansOnLoan`: every unavailable catalogued book is held by an active loan. For `AddBook` this holds when the added book is available. Together the two rules give `AvailabilityReflectsLoans`: a book is unavailable exactly when an unreturned loan holds it.

## Model

| member | source | states |
|---|---|---|
| Outcomes.FirstFailure | LibraryManagementSystem/Models/Member.cs:52-58 | a constructor running its validating setters in order succeeds iff every check accepts; otherwise it fails with the field of the first check that rejects |
| Outcomes.FirstFailureAppend | LibraryManagementSystem/Models/StudentMember.cs:31-36 | running the base constructor's setters and then the subclass's fails with the base's error if the base fails, and otherwise with the subclass's outcome |
| Text.IsBlank | LibraryManagementSystem/Models/Book.cs:18-19 | string.IsNullOrWhiteSpace: blank iff every character is white space |
| Text.Lower | LibraryManagementSystem/Services/Library.cs:75 | ToLower keeps the length and lower-cases each ASCII capital letter |
| Text.LowerIdempotent | LibraryManagementSystem/Services/Library.cs:75 | lower-casing twice is lower-casing once, and no capital letter is left |
| Text.Contains | LibraryManagementSystem/Services/Library.cs:75 | string.Contains is true iff the query occurs at some position of the text |
| Text.ContainsEmpty | LibraryManagementSystem/Services/Library.cs:75 | the empty query occurs in every text |
| Text.NatToString | LibraryManagementSystem/Models/Member.cs:71 | an integer prints as decimal digits without leading zeros that read back as the integer |
| Text.IntToString | LibraryManagementSystem/Models/Book.cs:77 | a year prints with a leading minus sign iff it is negative, followed by decimal digits without leading zeros that read back as its magnitude |
| Books.ValidateBook | LibraryManagementSystem/Models/Book.cs:64-71 | the Book constructor accepts iff ISBN, title and author are not blank and 1000 <= year <= current year; otherwise it fails on the first invalid field in the order ISBN, title, author, year |
| Books.BookText | LibraryManagementSystem/Models/Book.cs:74-78 | ToString starts with "[isbn] title by author (", ends in ") - Available" iff the book is available and ") - Checked out" otherwise, and between them spells the publication year (SpellsInt) |
| Books.Book.constructor | LibraryManagementSystem/Models/Book.cs:64-71 | a validly constructed book holds its arguments and is available |
| Books.Book.Create | LibraryManagementSystem/Models/Book.cs:64-71 | construction fails exactly as ValidateBook says; otherwise it yields a fresh available book holding the arguments |
| Books.Book.SetIsbn | LibraryManagementSystem/Models/Book.cs:16-21 | a blank ISBN is rejected and the old one stays; otherwise it is assigned |
| Books.Book.SetTitle | LibraryManagementSystem/Models/Book.cs:27-32 | a blank title is rejected and the old one stays; otherwise it is assigned |
| Books.Book.SetAuthor | LibraryManagementSystem/Models/Book.cs:38-43 | a blank author is rejected and the old one stays; otherwise it is assigned |
| Books.Book.SetPublicationYear | LibraryManagementSystem/Models/Book.cs:49-54 | a year is accepted iff 1000 <= year <= current year; a rejected year leaves the old one |
| Books.Book.SetIsAvailable | LibraryManagementSystem/Models/Book.cs:57-61 | any value is stored without validation, and no other field changes |
| Members.KindChecks | LibraryManagementSystem/Models/StudentMember.cs:8-28 | the subclass setters all accept iff the phone number, or the student id and university, are not blank |
| Members.ValidateBase | LibraryManagementSystem/Models/Member.cs:52-58 | the base constructor accepts iff id and name are not blank and the email is not blank and contains '@'; otherwise it fails on the first invalid field in the order id, name, email |
| Members.NewMember | LibraryManagementSystem/Models/Member.cs:52-58 | a member is built iff every field is valid; a base failure is reported before any subclass failure |
| Members.NewRegularMember | LibraryManagementSystem/Models/RegularMember.cs:19-23 | a regular member is built iff it is valid; base errors come first, then a blank phone number |
| Members.NewStudentMember | LibraryManagementSystem/Models/StudentMember.cs:31-36 | a student member is built iff it is valid; base errors come first, then a blank student id, then a blank university |
| Members.NewMemberRoundTrip | LibraryManagementSystem/Models/Member.cs:52-58 | every valid member is what its own constructor builds from its fields |
| Members.MaxBooksAllowed | LibraryManagementSystem/Models/Member.cs:61 | GetMaxBooksAllowed as the subclasses override it: 3 for a regular member (RegularMember.cs lines 26-29), 5 for a student (StudentMember.cs lines 39-42) |
| Members.MemberType | LibraryManagementSystem/Models/Member.cs:64-67 | GetMemberType as the subclasses override it: "Regular Member" (RegularMember.cs lines 32-35) and "Student Member" (StudentMember.cs lines 45-48) |
| Members.MemberText | LibraryManagementSystem/Models/Member.cs:69-72 | ToString starts with the id, name, type and "Max books: ", and ends with the phone number or the university |
| Members.MemberTextShowsCap | LibraryManagementSystem/Models/Member.cs:71 | the cap ToString prints reads back as GetMaxBooksAllowed |
| Loans.WholeDaysLate | LibraryManagementSystem/Models/Loan.cs:56 | (now - dueDate).Days is the number of whole days in a positive span |
| Loans.LateFeeWholeDays | LibraryManagementSystem/Models/Loan.cs:51-58 | an overdue active loan's fee is whole days late times the daily rate |
| Loans.LateFeeZeroUnlessOverdue | LibraryManagementSystem/Models/Loan.cs:53-54 | a returned loan, or one not past its due date, costs nothing |
| Loans.LateFeeNonNegative | LibraryManagementSystem/Models/Loan.cs:53-57 | the fee is never negative for a non-negative rate |
| Loans.LateFeeGrowsDaily | LibraryManagementSystem/Models/Loan.cs:56-57 | each further day of delay adds exactly one day's fee |
| Loans.Loan.constructor | LibraryManagementSystem/Models/Loan.cs:14-28 | a new loan is active with no return date and is due loanDurationDays after now |
| Loans.Loan.ReturnBook | LibraryManagementSystem/Models/Loan.cs:31-39 | on a returned loan it fails and changes nothing; otherwise the loan becomes returned at now and its book available, and ReturnDate stays set iff IsReturned |
| Loans.Loan.IsOverdue | LibraryManagementSystem/Models/Loan.cs:42-48 | false once returned; otherwise true iff now is past the due date |
| Loans.ReturnFeeAsWrittenMissesLateReturn | LibraryManagementSystem/Services/Library.cs:169-171 | as written, a loan returned three days late reports a fee of 0 instead of 1.50 |
| Loans.ReturnFee | LibraryManagementSystem/Services/Library.cs:169-173 | the fee owed at return: 0 up to the due date, otherwise whole days late times 0.50, never negative |
| Lookup.FindBook | LibraryManagementSystem/Services/Library.cs:49 | FirstOrDefault by ISBN: the first position holding that ISBN, or none iff no book has it |
| Lookup.FindMember | LibraryManagementSystem/Services/Library.cs:104 | FirstOrDefault by member id: the first position holding that id, or none iff no member has it |
| Lookup.FindLoan | LibraryManagementSystem/Services/Library.cs:161 | FirstOrDefault by loan id: the first position holding that id, or none iff no loan has it |
| Lookup.AvailableBooks | LibraryManagementSystem/Services/Library.cs:66-70 | the available books, in catalog order: a book is listed iff it is available |
| Lookup.TitleMatches | LibraryManagementSystem/Services/Library.cs:72-76 | in catalog order, a book is listed iff its lower-cased title contains the lower-cased query |
| Lookup.AuthorMatches | LibraryManagementSystem/Services/Library.cs:78-81 | in catalog order, a book is listed iff its lower-cased author contains the lower-cased query |
| Lookup.SearchIgnoresQueryCase | LibraryManagementSystem/Services/Library.cs:72-81 | two queries that lower-case alike find the same books |
| Lookup.EmptyQueryFindsAll | LibraryManagementSystem/Services/Library.cs:72-76 | an empty title query lists the whole catalog |
| Lookup.ActiveLoans | LibraryManagementSystem/Services/Library.cs:183-186 | in checkout order, a loan is listed iff it is not returned |
| Lookup.OverdueLoans | LibraryManagementSystem/Services/Library.cs:188-191 | in checkout order, a loan is listed iff it is overdue at now |
| Lookup.LoansOfMember | LibraryManagementSystem/Services/Library.cs:193-196 | in checkout order, a loan is listed iff it belongs to the member, returned or not |
| Lookup.ActiveCount | LibraryManagementSystem/Services/Library.cs:146 | the member's unreturned loans are counted; the count is 0 iff the member has none |
| Lookup.ActiveCountIsActiveLoansOfMember | LibraryManagementSystem/Services/Library.cs:146 | the count the cap is checked against is the number of the member's loans that GetActiveLoans lists |
| Lookup.ActiveCountAppend | LibraryManagementSystem/Services/Library.cs:146-153 | appending a loan raises a member's count by one iff it is that member's active loan |
| Lookup.CountActiveAfterReturn | LibraryManagementSystem/Services/Library.cs:169 | returning a loan never raises any member's count |
| Lookup.LoanIsbns | LibraryManagementSystem/Services/Library.cs:216-217 | the ISBN of each loan's book, in checkout order: the keys the grouping sees |
| Popularity.Occurrences | LibraryManagementSystem/Services/Library.cs:221 | a group's count is at most the number of loans, and 0 iff no loan has that ISBN |
| Popularity.GroupsDistinct | LibraryManagementSystem/Services/Library.cs:217 | groups with increasing first positions have distinct ISBNs |
| Popularity.TallyKeepsGroups | LibraryManagementSystem/Services/Library.cs:217 | adding one loan's ISBN keeps the groups exact, in first-occurrence order, and raises the total by one |
| Popularity.TallyLast | LibraryManagementSystem/Services/Library.cs:217 | the groups of all the keys are the groups of all but the last, with the last key tallied |
| Popularity.GroupByIsbn | LibraryManagementSystem/Services/Library.cs:216-222 | GroupBy yields one group per ISBN, in first-occurrence order, each starting at its first loan and counting that ISBN's loans; the counts sum to the number of loans |
| Popularity.Insert | LibraryManagementSystem/Services/Library.cs:223 | insertion keeps every group and the total |
| Popularity.InsertRanked | LibraryManagementSystem/Services/Library.cs:223 | inserting an earlier group into a ranked list keeps it ranked |
| Popularity.SortByCount | LibraryManagementSystem/Services/Library.cs:223 | OrderByDescending is a permutation of the groups |
| Popularity.SortByCountRanked | LibraryManagementSystem/Services/Library.cs:223 | the stable sort orders by count, most first, with ties in first-loan order |
| Popularity.Take | LibraryManagementSystem/Services/Library.cs:224 | Take(topN) is the first min(topN, length) groups, and none for topN <= 0 |
| Popularity.TakeKeepsLargest | LibraryManagementSystem/Services/Library.cs:223-224 | a group left out of a ranked list's prefix comes after every group kept: no larger count, and on a tie a later first loan |
| Popularity.MostPopular | LibraryManagementSystem/Services/Library.cs:216-224 | at most topN exact groups with distinct ISBNs, counts non-increasing, ties in first-loan order |
| Popularity.MostPopularKeepsLargest | LibraryManagementSystem/Services/Library.cs:216-224 | every ISBN left out of the ranking was loaned no more often than any ISBN shown, and on a tie was first loaned later, so the stable sort decides which tied ISBN survives the cut |
| Popularity.MostPopularCountsBounded | LibraryManagementSystem/Services/Library.cs:216-224 | the ranked counts sum to at most the number of loans |
| Popularity.TieExample | LibraryManagementSystem/Services/Library.cs:223-224 | of two ISBNs A and B loaned once each, in that order, a cut to one entry keeps A |
| Popularity.MostPopularExample | LibraryManagementSystem/Services/Library.cs:216-224 | on loans A, B, A, A the ranking is A three times then B once; topN = 1 keeps A; topN = 0 keeps nothing |
| LibraryRules.EmptyConsistent | LibraryManagementSystem/Services/Library.cs:24-30 | the empty library obeys every rule, including the converse availability rule |
| LibraryRules.AddBookKeeps | LibraryManagementSystem/Services/Library.cs:34-45 | cataloguing a book that is not yet catalogued keeps every rule, and the converse rule when the book is available |
| LibraryRules.RemoveBookKeeps | LibraryManagementSystem/Services/Library.cs:47-59 | removing an available book keeps every rule and the converse rule |
| LibraryRules.AddMemberKeeps | LibraryManagementSystem/Services/Library.cs:90-100 | registering a member under a new identifier keeps every rule |
| LibraryRules.RemoveMemberKeeps | LibraryManagementSystem/Services/Library.cs:102-115 | removing a member with no active loan keeps every rule |
| LibraryRules.OneLoanPerBookAfterLend | LibraryManagementSystem/Services/Library.cs:142-153 | lending an available book leaves no book with two active loans |
| LibraryRules.CapsAfterLend | LibraryManagementSystem/Services/Library.cs:146-153 | lending to a member below their cap keeps every member within their cap |
| LibraryRules.LendKeeps | LibraryManagementSystem/Services/Library.cs:129-157 | a new active loan of an available book to a member below their cap, with a fresh id, keeps every rule and the converse rule |
| LibraryRules.UnavailableAfterLend | LibraryManagementSystem/Services/Library.cs:151-153 | after lending, every unavailable book is still held by an active loan |
| LibraryRules.ReturnKeeps | LibraryManagementSystem/Services/Library.cs:159-176 | returning an active loan and freeing its book keeps every rule and the converse rule |
| LibraryRules.ReturnKeepsConverse | LibraryManagementSystem/Models/Loan.cs:36-38 | returning a loan frees only its own book, which no other active loan holds, so every book still unavailable is held by an active loan |
| LibraryService.GroupsOfLoans | LibraryManagementSystem/Services/Library.cs:216-221 | each ranked group starts at the first loan of its ISBN and counts that ISBN's loans |
| LibraryService.Library.AvailabilityReflectsLoans | LibraryManagementSystem/Services/Library.cs:151-153 | a catalogued book is unavailable iff an unreturned loan holds it |
| LibraryService.Library.ActiveLoansWithinCap | LibraryManagementSystem/Services/Library.cs:146-148 | no registered member has more active loans than their cap |
| LibraryService.Library.constructor | LibraryManagementSystem/Services/Library.cs:24-30 | a library with a valid name starts with empty lists and is valid |
| LibraryService.Library.Create | LibraryManagementSystem/Services/Library.cs:24-30 | a blank name is rejected; otherwise a fresh valid empty library with that name |
| LibraryService.Library.SetName | LibraryManagementSystem/Services/Library.cs:12-21 | a blank name is rejected and the old one stays; otherwise it is assigned |
| LibraryService.Library.AddBook | LibraryManagementSystem/Services/Library.cs:34-45 | fails iff a catalogued book has the same ISBN, leaving the catalog unchanged; otherwise appends exactly that book; keeps Valid |
| LibraryService.Library.DeleteBookAt | LibraryManagementSystem/Services/Library.cs:57 | removes exactly the available book at that position and keeps Valid |
| LibraryService.Library.RemoveBook | LibraryManagementSystem/Services/Library.cs:47-59 | an unknown ISBN is not found, and a book on loan is refused, each leaving the catalog unchanged; otherwise exactly that book leaves |
| LibraryService.Library.AddMember | LibraryManagementSystem/Services/Library.cs:90-100 | fails iff a registered member has the same id, leaving the register unchanged; otherwise appends exactly that member |
| LibraryService.Library.DeleteMemberAt | LibraryManagementSystem/Services/Library.cs:113 | removes exactly the member at that position, who holds no active loan, and keeps Valid |
| LibraryService.Library.RemoveMember | LibraryManagementSystem/Services/Library.cs:102-115 | an unknown id is not found, and a member with an unreturned loan is refused, each leaving the register unchanged; otherwise exactly that member leaves |
| LibraryService.Library.Lend | LibraryManagementSystem/Services/Library.cs:150-153 | appends one fresh active loan of that book to that member, due loanDurationDays after now; makes only that book unavailable; raises the member's active count by one; keeps Valid |
| LibraryService.Library.Record | LibraryManagementSystem/Services/Library.cs:152-153 | appends the loan with its returned flag false, marks that book unavailable and no other, and keeps Valid |
| LibraryService.Library.MarkUnavailable | LibraryManagementSystem/Services/Library.cs:152 | the book at that position becomes unavailable, in the object and in the recorded flags; no other book changes |
| LibraryService.Library.CheckoutBook | LibraryManagementSystem/Services/Library.cs:129-157 | the loan lasts 14 days unless a duration is given; fails with a missing book, a missing member, an unavailable book and a member at their cap, in that order, changing nothing; otherwise returns a fresh loan appended to the history with the next loan id (the counter advancing by one), that book and member, loanDate now, due loanDurationDays later, not returned and with no return date; only that book becomes unavailable, and the member's count rises by one and stays within their cap |
| LibraryService.Library.CloseLoan | LibraryManagementSystem/Services/Library.cs:169 | the loan becomes returned at now and its book available, in the objects and in the recorded flags |
| LibraryService.Library.ReturnAt | LibraryManagementSystem/Services/Library.cs:169 | an active loan becomes returned at now and its book available; no other loan's flag or return date and no other book changes; keeps Valid and the converse rule |
| LibraryService.Library.ReturnBook | LibraryManagementSystem/Services/Library.cs:159-176 | an unknown loan is not found, and a returned loan is refused, each changing nothing; otherwise that loan becomes returned at now and its book available, no other loan's flag or return date and no other book changes, the loan stays in the history, and the fee owed at return is reported |
| LibraryService.Library.GetBookByISBN | LibraryManagementSystem/Services/Library.cs:83-86 | a catalogued book with that ISBN, or none iff no catalogued book has it |
| LibraryService.Library.GetMemberById | LibraryManagementSystem/Services/Library.cs:122-125 | a registered member with that id, or none iff no registered member has it |
| LibraryService.Library.MostPopularBooks | LibraryManagementSystem/Services/Library.cs:214-224 | topN is 5 unless given; at most topN entries, and none for topN <= 0, each naming a book that was lent |
| LibraryService.Library.MostPopularBooksCounts | LibraryManagementSystem/Services/Library.cs:216-224 | the ranking shows min(topN, ISBNs loaned) entries, each with the number of loans of its ISBN |
| LibraryService.Library.MostPopularBooksFirstLoan | LibraryManagementSystem/Services/Library.cs:220 | each entry's book is the book of the first loan of its ISBN |
| LibraryService.Library.MostPopularBooksOrdered | LibraryManagementSystem/Services/Library.cs:223 | the ranking is most loaned first and names each ISBN once |

## Left out

- Null arguments (`ArgumentNullException` in AddBook, AddMember and the Loan constructor): Dafny references and values are never null.
- Console output: the messages of every Library operation, `PrintStatistics` (its counts are the filters above, recounted), and the printing half of `PrintMostPopularBooks`. Only the ranking it computes is modelled, as `MostPopularBooks`.
- `LibraryManagementSystem/Program.cs` (the demo driver) is not part of this model.
- `Loan.ToString` and the currency and `dd/MM/yyyy` formatting: these are display only.
- Culture-sensitive lower-casing: `Text.Lower` lower-cases ASCII capital letters only.
- `MembershipDate` is set from the clock and never read, so it is not modelled.
- The base `Member.GetMemberType` ("General Member") is not modelled. `Member` is abstract and both subclasses override it, so no member ever returns it.
- Guid-prefix loan identifiers are replaced by the counter `nextLoanId`. The counter makes identifiers unique, which Guid prefixes do not guarantee.
- `DateTime.Now` is read twice in the Loan constructor but once in the model. `DateTime` range errors (a due date past year 9999) and `decimal` overflow are not modelled: ticks and money are unbounded.
- The clock value `now` comes before the defaulted `loanDurationDays` in `CheckoutBook`, because the source has no clock parameter. The defaults themselves (14 days, topN = 5, 0.50 per day) are kept as Dafny default arguments.
- The Book constructor and `SetPublicationYear` take the current year as a parameter in place of `DateTime.Now.Year`.
- Public setters on `Loan` (`LoanId`, `Book`, `Member`, `LoanDate`, `DueDate`): they are `const` in the model, because nothing in the core reassigns them. Only `IsReturned`, `ReturnDate` and the book's availability change.
- Member setters after construction: a member is an immutable value, and its validating setters run only inside the constructors, which the source's own code also does.
- Aliasing outside the API: `Library.Valid` assumes books and loans change only through `Library`. A caller that sets `Book.IsAvailable` directly, or shares a book between two libraries, is outside the model.
- `GetAllBooks`, `GetAllMembers` and `GetAllLoans` return the sequences. A Dafny sequence is already a copy of the list, as `ToList()` makes one, and the Book and Loan objects are shared in both.
- LibraryService.Library.AddBook: keeps the converse rule `UnavailableMeansOnLoan` only when the added book is available, because the source accepts a book someone has already marked unavailable.
- Loans.Loan.CalculateLateFee: carries no contract of its own. Its behaviour is stated by `LateFeeWholeDays`, `LateFeeZeroUnlessOverdue`, `LateFeeNonNegative` and `LateFeeGrowsDaily` about `LateFee`, which it returns.
- The per-loan rule "ReturnDate is set iff IsReturned" (`Loans.Loan.Valid`) is kept by the Loan constructor and `Loan.ReturnBook`. It is not part of `Library.Valid`.

## Findings

| source | as written | input that shows it | evidently intended | confidence | as-written member | corrected member |
|---|---|---|---|---|---|---|
| LibraryManagementSystem/Services/Library.cs:169-173 | `ReturnBook` asks the loan for its late fee after `loan.ReturnBook()` has set `IsReturned`. `IsOverdue` is then false, so the fee is always 0 and the late-fee message never appears | a loan due at tick 0 returned at 3 × TicksPerDay: reported fee 0 | the fee of the loan while still active: 3 whole days × 0.50 = 1.50 | not executed; high | Loans.ReturnFeeAsWrittenMissesLateReturn | Loans.ReturnFee |

`LibraryService.Library.ReturnBook` reads the fee before closing the loan and reports `Loans.ReturnFee`.
