/** A catalog entry (Models/Book.cs): four fields assigned through validating
    setters, and an availability flag that anyone may set. */
module Books {
  import opened Outcomes
  import opened Text

  const MinPublicationYear := 1000

  /** PublicationYear's check: no earlier than the year 1000 and not in the future. */
  predicate ValidYear(year: int, currentYear: int)
  {
    MinPublicationYear <= year <= currentYear
  }

  /** The setters Book's constructor calls, in the order it calls them. */
  function BookChecks(isbn: string, title: string, author: string, year: int, currentYear: int): seq<Check>
  {
    [ Check(IsbnField, !IsBlank(isbn)), Check(TitleField, !IsBlank(title)),
      Check(AuthorField, !IsBlank(author)), Check(PublicationYearField, ValidYear(year, currentYear)) ]
  }

  /** Book's constructor accepts its arguments exactly when every field is valid,
      and otherwise reports the first rejected field in the order ISBN, title, author, year. */
  function ValidateBook(isbn: string, title: string, author: string, year: int, currentYear: int): (r: Outcome)
    ensures r.Pass? <==> !IsBlank(isbn) && !IsBlank(title) && !IsBlank(author) && ValidYear(year, currentYear)
    ensures r == Fail(InvalidArgument(IsbnField)) <==> IsBlank(isbn)
    ensures r == Fail(InvalidArgument(TitleField)) <==> !IsBlank(isbn) && IsBlank(title)
    ensures r == Fail(InvalidArgument(AuthorField)) <==> !IsBlank(isbn) && !IsBlank(title) && IsBlank(author)
    ensures r == Fail(InvalidArgument(PublicationYearField)) <==>
              !IsBlank(isbn) && !IsBlank(title) && !IsBlank(author) && !ValidYear(year, currentYear)
  {
    var checks := BookChecks(isbn, title, author, year, currentYear);
    assert checks[0] == Check(IsbnField, !IsBlank(isbn));
    assert checks[1] == Check(TitleField, !IsBlank(title));
    assert checks[2] == Check(AuthorField, !IsBlank(author));
    assert checks[3] == Check(PublicationYearField, ValidYear(year, currentYear));
    var r := FirstFailure(checks);
    r
  }

  /** Book.ToString: "[isbn] title by author (year) - " followed by "Available" when
      the book is available and "Checked out" otherwise. */
  function BookText(isbn: string, title: string, author: string, year: int, isAvailable: bool): (s: string)
    ensures IsPrefix("[" + isbn + "] " + title + " by " + author + " (", s)
    ensures isAvailable <==> IsSuffix(") - Available", s)
    ensures !isAvailable <==> IsSuffix(") - Checked out", s)
    ensures var head := "[" + isbn + "] " + title + " by " + author + " (";
            var tail := if isAvailable then ") - Available" else ") - Checked out";
            |head| + |tail| <= |s| && SpellsInt(s[|head|..|s| - |tail|], year)
  {
    var head := "[" + isbn + "] " + title + " by " + author + " (";
    var tail := if isAvailable then ") - Available" else ") - Checked out";
    var s := head + IntToString(year) + tail;
    PrefixAndSuffix(head, IntToString(year), tail);
    assert tail[|tail| - 1] == (if isAvailable then 'e' else 't');
    SuffixLast(tail, s);
    SuffixLast(") - Available", s);
    SuffixLast(") - Checked out", s);
    assert s[|head|..|s| - |tail|] == IntToString(year);
    s
  }

  class Book {
    var isbn: string
    var title: string
    var author: string
    var publicationYear: int
    var isAvailable: bool

    /** The body of Book's constructor once its setters have accepted every argument:
        the fields hold the arguments and a new book is available. */
    constructor (isbn: string, title: string, author: string, publicationYear: int, ghost currentYear: int)
      requires ValidateBook(isbn, title, author, publicationYear, currentYear).Pass?
      ensures this.isbn == isbn && this.title == title && this.author == author
      ensures this.publicationYear == publicationYear
      ensures isAvailable
    {
      this.isbn := isbn;
      this.title := title;
      this.author := author;
      this.publicationYear := publicationYear;
      this.isAvailable := true;
    }

    /** new Book(isbn, title, author, publicationYear), with the clock's year passed in:
        throws for the first invalid field and otherwise yields an available book. */
    static method Create(isbn: string, title: string, author: string, publicationYear: int, currentYear: int)
      returns (r: Result<Book>)
      ensures r.Failure? <==> ValidateBook(isbn, title, author, publicationYear, currentYear).Fail?
      ensures r.Failure? ==> r.error == ValidateBook(isbn, title, author, publicationYear, currentYear).error
      ensures r.Success? ==> fresh(r.value) && r.value.isAvailable
      ensures r.Success? ==> r.value.isbn == isbn && r.value.title == title && r.value.author == author
      ensures r.Success? ==> r.value.publicationYear == publicationYear
    {
      var v := ValidateBook(isbn, title, author, publicationYear, currentYear);
      if v.Fail? {
        return Failure(v.error);
      }
      var b := new Book(isbn, title, author, publicationYear, currentYear);
      return Success(b);
    }

    /** The ISBN setter: a blank value throws and leaves the old ISBN in place. */
    method SetIsbn(value: string) returns (r: Outcome)
      modifies this`isbn
      ensures r.Pass? <==> !IsBlank(value)
      ensures r.Fail? ==> r.error == InvalidArgument(IsbnField)
      ensures isbn == if r.Pass? then value else old(isbn)
    {
      if IsBlank(value) {
        return Fail(InvalidArgument(IsbnField));
      }
      isbn := value;
      return Pass;
    }

    /** The Title setter: a blank value throws and leaves the old title in place. */
    method SetTitle(value: string) returns (r: Outcome)
      modifies this`title
      ensures r.Pass? <==> !IsBlank(value)
      ensures r.Fail? ==> r.error == InvalidArgument(TitleField)
      ensures title == if r.Pass? then value else old(title)
    {
      if IsBlank(value) {
        return Fail(InvalidArgument(TitleField));
      }
      title := value;
      return Pass;
    }

    /** The Author setter: a blank value throws and leaves the old author in place. */
    method SetAuthor(value: string) returns (r: Outcome)
      modifies this`author
      ensures r.Pass? <==> !IsBlank(value)
      ensures r.Fail? ==> r.error == InvalidArgument(AuthorField)
      ensures author == if r.Pass? then value else old(author)
    {
      if IsBlank(value) {
        return Fail(InvalidArgument(AuthorField));
      }
      author := value;
      return Pass;
    }

    /** The PublicationYear setter, given the clock's current year: accepted exactly
        when 1000 <= value <= currentYear; a rejected year leaves the old one in place. */
    method SetPublicationYear(value: int, currentYear: int) returns (r: Outcome)
      modifies this`publicationYear
      ensures r.Pass? <==> MinPublicationYear <= value <= currentYear
      ensures r.Fail? ==> r.error == InvalidArgument(PublicationYearField)
      ensures publicationYear == if r.Pass? then value else old(publicationYear)
    {
      if value < MinPublicationYear || value > currentYear {
        return Fail(InvalidArgument(PublicationYearField));
      }
      publicationYear := value;
      return Pass;
    }

    /** The IsAvailable setter: no validation, and no other field changes. */
    method SetIsAvailable(value: bool)
      modifies this`isAvailable
      ensures isAvailable == value
    {
      isAvailable := value;
    }

    function ToString(): string
      reads this
    {
      BookText(isbn, title, author, publicationYear, isAvailable)
    }
  }
}
