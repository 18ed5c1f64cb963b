/** Option, Result and Outcome values standing in for null returns and for the
    exceptions the library throws, and the sequential validation that the
    models' constructors perform through their validating setters. */
module Outcomes {

  datatype Option<T> = None | Some(value: T)

  /** The field whose validating setter threw an ArgumentException. */
  datatype Field =
    | IsbnField | TitleField | AuthorField | PublicationYearField
    | MemberIdField | NameField | EmailField
    | PhoneNumberField | StudentIdField | UniversityField
    | LibraryNameField

  /** What a KeyNotFoundException was looking for. */
  datatype Key = BookKey | MemberKey | LoanKey

  /** Why an InvalidOperationException was thrown. */
  datatype Reason =
    | DuplicateIsbn | DuplicateMemberId
    | BookOnLoan | MemberHasActiveLoans
    | BookUnavailable | LoanLimitReached
    | AlreadyReturned

  /** ArgumentException, KeyNotFoundException and InvalidOperationException. */
  datatype Error =
    | InvalidArgument(field: Field)
    | NotFound(key: Key)
    | InvalidOperation(reason: Reason)

  datatype Result<T> = Success(value: T) | Failure(error: Error)

  datatype Outcome = Pass | Fail(error: Error)

  /** One validating setter call: the field it assigns and whether its check accepts the value. */
  datatype Check = Check(field: Field, ok: bool)

  /** Check i is the first one that rejects its value. */
  ghost predicate FailsFirstAt(checks: seq<Check>, i: int)
  {
    0 <= i < |checks| && !checks[i].ok && forall j :: 0 <= j < i ==> checks[j].ok
  }

  /** Runs validating setters in order: the first one that rejects its value throws,
      and the ones after it never run. */
  function FirstFailure(checks: seq<Check>): (r: Outcome)
    ensures r.Pass? <==> forall i :: 0 <= i < |checks| ==> checks[i].ok
    ensures r.Fail? ==> exists i :: FailsFirstAt(checks, i) && r.error == InvalidArgument(checks[i].field)
  {
    if checks == [] then Pass
    else if !checks[0].ok then
      assert FailsFirstAt(checks, 0);
      Fail(InvalidArgument(checks[0].field))
    else
      var r := FirstFailure(checks[1..]);
      assert forall i :: 0 < i < |checks| ==> checks[i] == checks[1..][i - 1];
      assert forall i :: FailsFirstAt(checks[1..], i) ==> FailsFirstAt(checks, i + 1);
      r
  }

  /** Running a first group of setters and then a second one fails with the first
      group's error if it fails, and otherwise with the second group's outcome. */
  lemma {:induction false} FirstFailureAppend(a: seq<Check>, b: seq<Check>)
    ensures FirstFailure(a + b) == if FirstFailure(a).Fail? then FirstFailure(a) else FirstFailure(b)
  {
    if a != [] {
      assert (a + b)[1..] == a[1..] + b;
      FirstFailureAppend(a[1..], b);
    } else {
      assert a + b == b;
    }
  }
}
