/** Library members (Models/Member.cs, Models/RegularMember.cs, Models/StudentMember.cs):
    the abstract base class and its two subclasses form a closed family, modelled as
    one datatype whose kind carries the subclass's own fields. */
module Members {
  import opened Outcomes
  import opened Text

  datatype MemberKind =
    | Regular(phoneNumber: string)
    | Student(studentId: string, university: string)

  datatype Member = Member(memberId: string, name: string, email: string, kind: MemberKind)

  const RegularMaxBooks := 3
  const StudentMaxBooks := 5

  /** The Email setter's check: not blank and containing an '@'. */
  predicate ValidEmail(email: string)
  {
    !IsBlank(email) && '@' in email
  }

  /** What the validating setters guarantee of every member they let through. */
  ghost predicate ValidMember(m: Member)
  {
    !IsBlank(m.memberId) && !IsBlank(m.name) && ValidEmail(m.email) && ValidKind(m.kind)
  }

  /** What the subclass setters guarantee: the phone number, or the student id and university, are not blank. */
  ghost predicate ValidKind(kind: MemberKind)
  {
    match kind
    case Regular(phone) => !IsBlank(phone)
    case Student(studentId, university) => !IsBlank(studentId) && !IsBlank(university)
  }

  /** The setters Member's constructor calls, in order: MemberId, Name, Email. */
  function BaseChecks(memberId: string, name: string, email: string): seq<Check>
  {
    [Check(MemberIdField, !IsBlank(memberId)), Check(NameField, !IsBlank(name)), Check(EmailField, ValidEmail(email))]
  }

  /** The setters a subclass constructor calls after the base constructor has run. */
  function KindChecks(kind: MemberKind): (checks: seq<Check>)
    ensures (forall i :: 0 <= i < |checks| ==> checks[i].ok) <==> ValidKind(kind)
  {
    match kind
    case Regular(phone) =>
      var checks := [Check(PhoneNumberField, !IsBlank(phone))];
      assert checks[0].ok == !IsBlank(phone);
      checks
    case Student(studentId, university) =>
      var checks := [Check(StudentIdField, !IsBlank(studentId)), Check(UniversityField, !IsBlank(university))];
      assert checks[0].ok == !IsBlank(studentId) && checks[1].ok == !IsBlank(university);
      checks
  }

  /** The base constructor (Member.cs) on its own: accepts exactly a non-blank id,
      a non-blank name and a non-blank email with an '@', and otherwise reports
      the first rejected field in the order id, name, email. */
  function ValidateBase(memberId: string, name: string, email: string): (r: Outcome)
    ensures r.Pass? <==> !IsBlank(memberId) && !IsBlank(name) && ValidEmail(email)
    ensures r == Fail(InvalidArgument(MemberIdField)) <==> IsBlank(memberId)
    ensures r == Fail(InvalidArgument(NameField)) <==> !IsBlank(memberId) && IsBlank(name)
    ensures r == Fail(InvalidArgument(EmailField)) <==> !IsBlank(memberId) && !IsBlank(name) && !ValidEmail(email)
  {
    var checks := BaseChecks(memberId, name, email);
    assert checks[0] == Check(MemberIdField, !IsBlank(memberId));
    assert checks[1] == Check(NameField, !IsBlank(name));
    assert checks[2] == Check(EmailField, ValidEmail(email));
    FirstFailure(checks)
  }

  /** A subclass constructor: the base constructor's setters, then the subclass's. */
  function NewMember(memberId: string, name: string, email: string, kind: MemberKind): (r: Result<Member>)
    ensures r.Success? <==> ValidMember(Member(memberId, name, email, kind))
    ensures r.Success? ==> r.value == Member(memberId, name, email, kind)
    ensures ValidateBase(memberId, name, email).Fail? ==> r == Failure(ValidateBase(memberId, name, email).error)
    ensures r.Failure? && ValidateBase(memberId, name, email).Pass? ==>
              exists i :: FailsFirstAt(KindChecks(kind), i) && r.error == InvalidArgument(KindChecks(kind)[i].field)
  {
    var base := BaseChecks(memberId, name, email);
    var own := KindChecks(kind);
    FirstFailureAppend(base, own);
    assert FirstFailure(base) == ValidateBase(memberId, name, email);
    match FirstFailure(base + own)
    case Pass => Success(Member(memberId, name, email, kind))
    case Fail(e) => Failure(e)
  }

  /** new RegularMember(memberId, name, email, phoneNumber). */
  function NewRegularMember(memberId: string, name: string, email: string, phoneNumber: string): (r: Result<Member>)
    ensures r.Success? <==> ValidMember(Member(memberId, name, email, Regular(phoneNumber)))
    ensures r.Success? ==> r.value == Member(memberId, name, email, Regular(phoneNumber))
    ensures ValidateBase(memberId, name, email).Fail? ==> r == Failure(ValidateBase(memberId, name, email).error)
    ensures ValidateBase(memberId, name, email).Pass? && IsBlank(phoneNumber) ==>
              r == Failure(InvalidArgument(PhoneNumberField))
  {
    var r := NewMember(memberId, name, email, Regular(phoneNumber));
    assert KindChecks(Regular(phoneNumber))[0] == Check(PhoneNumberField, !IsBlank(phoneNumber));
    r
  }

  /** new StudentMember(memberId, name, email, studentId, university). */
  function NewStudentMember(memberId: string, name: string, email: string, studentId: string, university: string)
    : (r: Result<Member>)
    ensures r.Success? <==> ValidMember(Member(memberId, name, email, Student(studentId, university)))
    ensures r.Success? ==> r.value == Member(memberId, name, email, Student(studentId, university))
    ensures ValidateBase(memberId, name, email).Fail? ==> r == Failure(ValidateBase(memberId, name, email).error)
    ensures ValidateBase(memberId, name, email).Pass? && IsBlank(studentId) ==>
              r == Failure(InvalidArgument(StudentIdField))
    ensures ValidateBase(memberId, name, email).Pass? && !IsBlank(studentId) && IsBlank(university) ==>
              r == Failure(InvalidArgument(UniversityField))
  {
    var own := KindChecks(Student(studentId, university));
    assert own[0] == Check(StudentIdField, !IsBlank(studentId));
    assert own[1] == Check(UniversityField, !IsBlank(university));
    NewMember(memberId, name, email, Student(studentId, university))
  }

  /** Every valid member is what its own constructor builds from its fields. */
  lemma {:induction false} NewMemberRoundTrip(m: Member)
    requires ValidMember(m)
    ensures m.kind.Regular? ==> NewRegularMember(m.memberId, m.name, m.email, m.kind.phoneNumber) == Success(m)
    ensures m.kind.Student? ==>
              NewStudentMember(m.memberId, m.name, m.email, m.kind.studentId, m.kind.university) == Success(m)
  {
  }

  /** GetMaxBooksAllowed: the loan cap is fixed by the subclass alone. */
  function MaxBooksAllowed(m: Member): (n: nat)
    ensures m.kind.Regular? ==> n == RegularMaxBooks
    ensures m.kind.Student? ==> n == StudentMaxBooks
  {
    match m.kind
    case Regular(_) => RegularMaxBooks
    case Student(_, _) => StudentMaxBooks
  }

  /** GetMemberType as each subclass overrides it. */
  function MemberType(m: Member): (s: string)
    ensures m.kind.Regular? ==> s == "Regular Member"
    ensures m.kind.Student? ==> s == "Student Member"
  {
    match m.kind
    case Regular(_) => "Regular Member"
    case Student(_, _) => "Student Member"
  }

  /** Member.ToString followed by the subclass's own tail: the id in brackets, the name,
      the member type in parentheses and the cap in decimal, then the phone number or
      the university. */
  function MemberText(m: Member): (s: string)
    ensures IsPrefix("[" + m.memberId + "] " + m.name + " (" + MemberType(m) + ") - Max books: ", s)
    ensures m.kind.Regular? ==> IsSuffix(" | Phone: " + m.kind.phoneNumber, s)
    ensures m.kind.Student? ==> IsSuffix(" | " + m.kind.university, s)
  {
    var head := "[" + m.memberId + "] " + m.name + " (" + MemberType(m) + ") - Max books: ";
    var tail := match m.kind
      case Regular(phone) => " | Phone: " + phone
      case Student(_, university) => " | " + university;
    PrefixAndSuffix(head, NatToString(MaxBooksAllowed(m)), tail);
    head + NatToString(MaxBooksAllowed(m)) + tail
  }

  /** The cap that Member.ToString prints reads back as GetMaxBooksAllowed. */
  lemma {:induction false} MemberTextShowsCap(m: Member)
    ensures var s := MemberText(m);
            var head := "[" + m.memberId + "] " + m.name + " (" + MemberType(m) + ") - Max books: ";
            |head| < |s| && DigitsValue([s[|head|]]) == MaxBooksAllowed(m)
  {
    var head := "[" + m.memberId + "] " + m.name + " (" + MemberType(m) + ") - Max books: ";
    var digits := NatToString(MaxBooksAllowed(m));
    assert digits == [DigitChar(MaxBooksAllowed(m))];
    var tail := match m.kind
      case Regular(phone) => " | Phone: " + phone
      case Student(_, university) => " | " + university;
    assert MemberText(m) == head + digits + tail;
    assert MemberText(m)[|head|] == digits[0];
  }
}
