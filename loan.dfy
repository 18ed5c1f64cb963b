/** A checkout record (Models/Loan.cs): a two-state machine, Active then Returned,
    with due-date tracking and a late fee. The clock (DateTime.Now) is a parameter
    `now` in .NET ticks; money (decimal) is an exact `real`. */
module Loans {
  import opened Outcomes
  import opened Books
  import opened Members

  /** TimeSpan.TicksPerDay: 24 * 60 * 60 * 10^7 ticks of 100 ns. */
  const TicksPerDay := 864_000_000_000
  const DefaultLoanDurationDays := 14
  const DefaultFeePerDay: real := 0.50

  /** (now - dueDate).Days for a positive span: the number of whole days in it. */
  function WholeDaysLate(dueDate: int, now: int): (d: nat)
    requires dueDate < now
    ensures d * TicksPerDay <= now - dueDate < (d + 1) * TicksPerDay
  {
    (now - dueDate) / TicksPerDay
  }

  /** Loan.IsOverdue on the loan's state: not returned and the clock past the due date. */
  predicate OverdueAt(isReturned: bool, dueDate: int, now: int)
  {
    !isReturned && now > dueDate
  }

  /** Loan.CalculateLateFee on the loan's state. */
  function LateFee(isReturned: bool, dueDate: int, now: int, feePerDay: real): real
  {
    if !OverdueAt(isReturned, dueDate, now) then 0.0
    else WholeDaysLate(dueDate, now) as real * feePerDay
  }

  /** The fee is the fee per day times the number of whole days past the due date,
      whatever part of a further day has elapsed. */
  lemma LateFeeWholeDays(dueDate: int, now: int, feePerDay: real, days: nat)
    requires dueDate < now
    requires days * TicksPerDay <= now - dueDate < (days + 1) * TicksPerDay
    ensures LateFee(false, dueDate, now, feePerDay) == days as real * feePerDay
  {
  }

  /** A loan that is not overdue costs nothing: a returned one, or one not yet past its due date. */
  lemma LateFeeZeroUnlessOverdue(isReturned: bool, dueDate: int, now: int, feePerDay: real)
    requires isReturned || now <= dueDate
    ensures LateFee(isReturned, dueDate, now, feePerDay) == 0.0
  {
  }

  /** The fee is never negative when the rate is not negative. */
  lemma LateFeeNonNegative(isReturned: bool, dueDate: int, now: int, feePerDay: real)
    requires feePerDay >= 0.0
    ensures LateFee(isReturned, dueDate, now, feePerDay) >= 0.0
  {
  }

  /** Each further day of delay adds exactly one day's fee. */
  lemma LateFeeGrowsDaily(dueDate: int, now: int, feePerDay: real)
    requires dueDate < now
    ensures LateFee(false, dueDate, now + TicksPerDay, feePerDay) == LateFee(false, dueDate, now, feePerDay) + feePerDay
  {
    var d := WholeDaysLate(dueDate, now);
    LateFeeWholeDays(dueDate, now + TicksPerDay, feePerDay, d + 1);
  }

  class Loan {
    const loanId: nat
    const book: Book
    const member: Member
    const loanDate: int
    const dueDate: int
    var returnDate: Option<int>
    var isReturned: bool

    /** ReturnDate is set exactly when the loan is returned. */
    ghost predicate Valid()
      reads this`isReturned, this`returnDate
    {
      isReturned <==> returnDate.Some?
    }

    /** new Loan(book, member, loanDurationDays) with the clock read once and the
        identifier supplied by the caller: an active loan due loanDurationDays after now. */
    constructor (loanId: nat, book: Book, member: Member, loanDurationDays: int, now: int)
      ensures this.loanId == loanId && this.book == book && this.member == member
      ensures loanDate == now && dueDate == now + loanDurationDays * TicksPerDay
      ensures !isReturned && returnDate == None
      ensures Valid()
    {
      this.loanId := loanId;
      this.book := book;
      this.member := member;
      this.loanDate := now;
      this.dueDate := now + loanDurationDays * TicksPerDay;
      this.isReturned := false;
      this.returnDate := None;
    }

    /** Loan.ReturnBook: Active goes to Returned, stamping the return date and making
        the book available; on a returned loan it throws and changes nothing. */
    method ReturnBook(now: int) returns (r: Outcome)
      modifies this`isReturned, this`returnDate, book`isAvailable
      ensures r.Fail? <==> old(isReturned)
      ensures r.Fail? ==> r.error == InvalidOperation(AlreadyReturned)
      ensures r.Fail? ==> returnDate == old(returnDate) && isReturned && book.isAvailable == old(book.isAvailable)
      ensures r.Pass? ==> isReturned && returnDate == Some(now) && book.isAvailable
      ensures old(Valid()) ==> Valid()
    {
      if isReturned {
        return Fail(InvalidOperation(AlreadyReturned));
      }
      isReturned := true;
      returnDate := Some(now);
      book.SetIsAvailable(true);
      return Pass;
    }

    /** Loan.IsOverdue: false once returned, otherwise whether the clock is past the due date. */
    function IsOverdue(now: int): (b: bool)
      reads this`isReturned
      ensures isReturned ==> !b
      ensures !isReturned ==> (b <==> now > dueDate)
    {
      OverdueAt(isReturned, dueDate, now)
    }

    /** Loan.CalculateLateFee(feePerDay); the source's default rate is DefaultFeePerDay. */
    function CalculateLateFee(now: int, feePerDay: real := DefaultFeePerDay): real
      reads this`isReturned
    {
      LateFee(isReturned, dueDate, now, feePerDay)
    }
  }

  /** The fee Library.ReturnBook reports, as the code is written: it asks the loan
      for its fee after Loan.ReturnBook has marked it returned. */
  function ReturnFeeAsWritten(dueDate: int, now: int): real
  {
    LateFee(true, dueDate, now, DefaultFeePerDay)
  }

  /** As written, a loan returned three days late reports no fee at all. */
  lemma ReturnFeeAsWrittenMissesLateReturn()
    ensures ReturnFeeAsWritten(0, 3 * TicksPerDay) == 0.0
    ensures ReturnFee(0, 3 * TicksPerDay) == 1.5
  {
    LateFeeWholeDays(0, 3 * TicksPerDay, DefaultFeePerDay, 3);
  }

  /** The fee Library.ReturnBook is evidently meant to report: the loan's fee at the
      moment of return, computed while the loan is still active. */
  function ReturnFee(dueDate: int, now: int): (fee: real)
    ensures now <= dueDate ==> fee == 0.0
    ensures dueDate < now ==> fee == WholeDaysLate(dueDate, now) as real * DefaultFeePerDay
    ensures fee >= 0.0
  {
    LateFeeNonNegative(false, dueDate, now, DefaultFeePerDay);
    LateFee(false, dueDate, now, DefaultFeePerDay)
  }
}
