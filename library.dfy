/** A model of the book catalogue of a small console library manager: book
    records with a borrow/return flag, a catalogue that keeps titles unique up
    to case, and the year range accepted when a book is entered. */
module Library {

  // ---------------------------------------------------------------------------
  // Machine integers and outcomes
  // ---------------------------------------------------------------------------

  /** The unsigned 32-bit integer used for publication years. */
  newtype u32 = x: int | 0 <= x < 0x1_0000_0000

  datatype Option<T> = None | Some(value: T)

  /** The four ways a catalogue operation can be refused. */
  datatype Error = DuplicateTitle | NotFound | NotAvailable | NotOnLoan

  /** The result of a catalogue operation: success, or one specific error. */
  datatype Outcome = Ok | Err(error: Error)

  // ---------------------------------------------------------------------------
  // Case-insensitive titles
  // ---------------------------------------------------------------------------

  /** Lower-cases one character (ASCII letters only). */
  function LowerChar(c: char): (r: char)
    ensures !('A' <= r <= 'Z')
    ensures !('A' <= c <= 'Z') ==> r == c
    ensures 'A' <= c <= 'Z' ==> 'a' <= r <= 'z' && r as int - 'a' as int == c as int - 'A' as int
  {
    if 'A' <= c <= 'Z' then (c as int - 'A' as int + 'a' as int) as char else c
  }

  /** Lower-cases a whole string, character by character. */
  function Lower(s: string): (r: string)
    ensures |r| == |s|
    ensures forall i :: 0 <= i < |r| ==> !('A' <= r[i] <= 'Z')
    ensures forall i :: 0 <= i < |s| && !('A' <= s[i] <= 'Z') ==> r[i] == s[i]
  {
    seq(|s|, i requires 0 <= i < |s| => LowerChar(s[i]))
  }

  /** Two titles name the same book when they agree after lower-casing. The
      length clause holds because lowering here is ASCII-only. */
  predicate SameTitle(a: string, b: string)
    ensures SameTitle(a, b) ==> |a| == |b|
    ensures a == b ==> SameTitle(a, b)
  {
    Lower(a) == Lower(b)
  }

  // ---------------------------------------------------------------------------
  // Years
  // ---------------------------------------------------------------------------

  /** The verdict on a year that has already been parsed. */
  datatype YearCheck = YearOk(year: u32) | YearOutOfRange

  /** Accepts a parsed year only inside the inclusive range 1000..2025. */
  function CheckYear(year: u32): (r: YearCheck)
    ensures r == YearOk(year) <==> 1000 <= year <= 2025
    ensures r == YearOutOfRange <==> year < 1000 || 2025 < year
  {
    if 1000 <= year && year <= 2025 then YearOk(year) else YearOutOfRange
  }

  // ---------------------------------------------------------------------------
  // The abstract catalogue: a sequence of book records
  // ---------------------------------------------------------------------------

  /** A snapshot of one book: title, author, year and whether it is on the shelf. */
  datatype BookRec = BookRec(title: string, author: string, year: u32, available: bool)

  /** An operation's outcome together with the catalogue it leaves behind. */
  datatype Step = Step(outcome: Outcome, books: seq<BookRec>)

  /** Some record of `s` carries title `t` up to case, tested front to back. */
  predicate HasTitle(s: seq<BookRec>, t: string)
    ensures HasTitle(s, t) <==> exists i :: 0 <= i < |s| && SameTitle(s[i].title, t)
  {
    s != [] && (SameTitle(s[0].title, t) || HasTitle(s[1..], t))
  }

  /** `i` is the position of the first record of `s` whose title is `t` up to case. */
  predicate IsFirstMatch(s: seq<BookRec>, t: string, i: int)
  {
    0 <= i < |s| && SameTitle(s[i].title, t) &&
    forall j :: 0 <= j < i ==> !SameTitle(s[j].title, t)
  }

  /** No two records of `s` have titles that agree up to case. */
  predicate TitlesUnique(s: seq<BookRec>)
  {
    forall i, j :: 0 <= i < j < |s| ==> !SameTitle(s[i].title, s[j].title)
  }

  /** The position of the first record whose title is `t` up to case, if any. */
  function FindFirst(s: seq<BookRec>, t: string): (r: Option<nat>)
    ensures r.Some? ==> IsFirstMatch(s, t, r.value)
    ensures r.None? <==> !HasTitle(s, t)
  {
    if s == [] then None
    else if SameTitle(s[0].title, t) then Some(0)
    else match FindFirst(s[1..], t)
      case None => None
      case Some(k) => Some(k + 1)
  }

  /** Adding a book: refused when the title is taken, otherwise appended on the shelf. */
  function AddSpec(s: seq<BookRec>, t: string, a: string, y: u32): (r: Step)
    ensures r.outcome == Ok || r.outcome == Err(DuplicateTitle)
    ensures s <= r.books && |r.books| <= |s| + 1
  {
    if HasTitle(s, t) then Step(Err(DuplicateTitle), s)
    else Step(Ok, s + [BookRec(t, a, y, true)])
  }

  /** Borrowing a book: the first record with the title goes from available to on loan. */
  function BorrowSpec(s: seq<BookRec>, t: string): (r: Step)
    ensures r.outcome in {Ok, Err(NotFound), Err(NotAvailable)}
    ensures |r.books| == |s|
    ensures forall j :: 0 <= j < |s| ==> r.books[j] == s[j].(available := r.books[j].available)
  {
    match FindFirst(s, t)
    case None => Step(Err(NotFound), s)
    case Some(i) =>
      if s[i].available then Step(Ok, s[i := s[i].(available := false)])
      else Step(Err(NotAvailable), s)
  }

  /** Returning a book: the first record with the title goes from on loan to available. */
  function ReturnSpec(s: seq<BookRec>, t: string): (r: Step)
    ensures r.outcome in {Ok, Err(NotFound), Err(NotOnLoan)}
    ensures |r.books| == |s|
    ensures forall j :: 0 <= j < |s| ==> r.books[j] == s[j].(available := r.books[j].available)
  {
    match FindFirst(s, t)
    case None => Step(Err(NotFound), s)
    case Some(i) =>
      if !s[i].available then Step(Ok, s[i := s[i].(available := true)])
      else Step(Err(NotOnLoan), s)
  }

  /** The records that are on the shelf, in catalogue order. */
  function Available(s: seq<BookRec>): (r: seq<BookRec>)
    ensures |r| <= |s|
    ensures forall i :: 0 <= i < |r| ==> r[i].available
  {
    if s == [] then []
    else if s[0].available then [s[0]] + Available(s[1..])
    else Available(s[1..])
  }

  /** `a` can be obtained from `b` by deleting elements, keeping the order of the rest. */
  predicate IsSubsequence(a: seq<BookRec>, b: seq<BookRec>)
    decreases |b|
  {
    if a == [] then true
    else if b == [] then false
    else if a[0] == b[0] then IsSubsequence(a[1..], b[1..])
    else IsSubsequence(a, b[1..])
  }

  // ---------------------------------------------------------------------------
  // Properties of the abstract catalogue
  // ---------------------------------------------------------------------------

  /** Under unique titles the first match is the only match. */
  lemma UniqueLookup(s: seq<BookRec>, t: string, i: int)
    requires TitlesUnique(s)
    requires 0 <= i < |s| && SameTitle(s[i].title, t)
    ensures FindFirst(s, t) == Some(i)
  {
  }

  /** Lookup sees only titles: changing other fields leaves it unchanged. */
  lemma FindFirstTitlesOnly(s: seq<BookRec>, s': seq<BookRec>, t: string)
    requires |s| == |s'|
    requires forall j :: 0 <= j < |s| ==> s[j].title == s'[j].title
    ensures FindFirst(s, t) == FindFirst(s', t)
  {
  }

  /** Adding is refused exactly when the title is already present (up to case);
      a refusal changes nothing, and a success appends one available record. */
  lemma AddContract(s: seq<BookRec>, t: string, a: string, y: u32)
    ensures var r := AddSpec(s, t, a, y);
      (r.outcome == Err(DuplicateTitle) <==> exists i :: 0 <= i < |s| && Lower(s[i].title) == Lower(t)) &&
      (r.outcome.Err? ==> r.outcome.error == DuplicateTitle && r.books == s) &&
      (r.outcome.Ok? ==>
        |r.books| == |s| + 1 && r.books[..|s|] == s &&
        r.books[|s|] == BookRec(t, a, y, true))
  {
  }

  /** A catalogue grown only by adding keeps its titles unique up to case. */
  lemma AddKeepsUnique(s: seq<BookRec>, t: string, a: string, y: u32)
    requires TitlesUnique(s)
    ensures TitlesUnique(AddSpec(s, t, a, y).books)
  {
  }

  /** Borrowing: not found exactly when no title matches; otherwise only the
      first match is looked at, and it is flipped to on loan if it was available
      and left as it was (with NotAvailable) otherwise. */
  lemma BorrowContract(s: seq<BookRec>, t: string)
    ensures var r := BorrowSpec(s, t);
      (r.outcome == Err(NotFound) <==> !HasTitle(s, t)) &&
      (r.outcome.Err? ==> r.books == s) &&
      |r.books| == |s| &&
      forall i :: IsFirstMatch(s, t, i) ==>
        (r.outcome == Ok <==> s[i].available) &&
        (r.outcome.Err? ==> r.outcome.error == NotAvailable) &&
        r.books[i] == s[i].(available := false) &&
        forall j :: 0 <= j < |s| && j != i ==> r.books[j] == s[j]
  {
  }

  /** Returning mirrors borrowing. */
  lemma ReturnContract(s: seq<BookRec>, t: string)
    ensures var r := ReturnSpec(s, t);
      (r.outcome == Err(NotFound) <==> !HasTitle(s, t)) &&
      (r.outcome.Err? ==> r.books == s) &&
      |r.books| == |s| &&
      forall i :: IsFirstMatch(s, t, i) ==>
        (r.outcome == Ok <==> !s[i].available) &&
        (r.outcome.Err? ==> r.outcome.error == NotOnLoan) &&
        r.books[i] == s[i].(available := true) &&
        forall j :: 0 <= j < |s| && j != i ==> r.books[j] == s[j]
  {
  }

  /** Borrowing and returning change availability flags only, so they keep
      titles unique. */
  lemma BorrowReturnKeepUnique(s: seq<BookRec>, t: string)
    requires TitlesUnique(s)
    ensures TitlesUnique(BorrowSpec(s, t).books)
    ensures TitlesUnique(ReturnSpec(s, t).books)
  {
  }

  /** A successful borrow followed by a return of the same title succeeds and
      restores the catalogue exactly. */
  lemma BorrowThenReturn(s: seq<BookRec>, t: string)
    requires BorrowSpec(s, t).outcome == Ok
    ensures ReturnSpec(BorrowSpec(s, t).books, t) == Step(Ok, s)
  {
  }

  /** A successful return followed by a borrow of the same title succeeds and
      restores the catalogue exactly. */
  lemma ReturnThenBorrow(s: seq<BookRec>, t: string)
    requires ReturnSpec(s, t).outcome == Ok
    ensures BorrowSpec(ReturnSpec(s, t).books, t) == Step(Ok, s)
  {
  }

  /** A second consecutive borrow of the same title fails and changes nothing. */
  lemma BorrowTwiceFails(s: seq<BookRec>, t: string)
    requires BorrowSpec(s, t).outcome == Ok
    ensures var s' := BorrowSpec(s, t).books;
      BorrowSpec(s', t) == Step(Err(NotAvailable), s')
  {
  }

  /** A second consecutive return of the same title fails and changes nothing. */
  lemma ReturnTwiceFails(s: seq<BookRec>, t: string)
    requires ReturnSpec(s, t).outcome == Ok
    ensures var s' := ReturnSpec(s, t).books;
      ReturnSpec(s', t) == Step(Err(NotOnLoan), s')
  {
  }

  /** The available view holds exactly the available records of the catalogue. */
  lemma {:induction false} AvailableMembers(s: seq<BookRec>, b: BookRec)
    ensures b in Available(s) <==> b in s && b.available
  {
    if s != [] {
      AvailableMembers(s[1..], b);
      assert s == [s[0]] + s[1..];
    }
  }

  /** The available view keeps the catalogue's relative order: it is a
      subsequence of the catalogue. */
  lemma {:induction false} AvailableIsSubsequence(s: seq<BookRec>)
    ensures IsSubsequence(Available(s), s)
  {
    if s != [] {
      AvailableIsSubsequence(s[1..]);
      var rest := Available(s[1..]);
      if !s[0].available && rest != [] {
        // the head of the view is available, so it cannot be matched with s[0]
        AvailableMembers(s[1..], rest[0]);
        assert rest[0] != s[0];
      }
    }
  }

  /** The available view is empty exactly when every book is on loan. */
  lemma {:induction false} AvailableEmptyIff(s: seq<BookRec>)
    ensures Available(s) == [] <==> forall i :: 0 <= i < |s| ==> !s[i].available
  {
    if s != [] {
      AvailableEmptyIff(s[1..]);
      if Available(s) == [] {
        forall i | 0 <= i < |s| ensures !s[i].available {
          if i > 0 { assert s[i] == s[1..][i - 1]; }
        }
      } else {
        assert forall i :: 1 <= i < |s| ==> s[i] == s[1..][i - 1];
      }
    }
  }

  // ---------------------------------------------------------------------------
  // Scenarios
  // ---------------------------------------------------------------------------

  /** Years just outside the range are refused; its two ends are accepted. */
  lemma YearBoundaries()
    ensures CheckYear(999) == YearOutOfRange && CheckYear(2026) == YearOutOfRange
    ensures CheckYear(1000) == YearOk(1000) && CheckYear(2025) == YearOk(2025)
  {
  }

  /** "Dune" is on the shelf; adding "dune" is refused, and borrowing "dune" succeeds. */
  lemma CaseInsensitiveScenario()
    ensures AddSpec([], "Dune", "Herbert", 1965) == Step(Ok, [BookRec("Dune", "Herbert", 1965, true)])
    ensures AddSpec([BookRec("Dune", "Herbert", 1965, true)], "dune", "X", 2000).outcome == Err(DuplicateTitle)
    ensures BorrowSpec([BookRec("Dune", "Herbert", 1965, true)], "dune")
         == Step(Ok, [BookRec("Dune", "Herbert", 1965, false)])
    ensures BorrowSpec([], "Dune") == Step(Err(NotFound), [])
  {
    assert Lower("Dune") == Lower("dune") == "dune";
    var s := [BookRec("Dune", "Herbert", 1965, true)];
    assert SameTitle(s[0].title, "dune");
  }

  /** "1984" borrowed leaves nothing on the shelf; returning it twice fails the second time. */
  lemma LoanScenario()
    ensures var s := AddSpec([], "1984", "Orwell", 1949).books;
      var b := BorrowSpec(s, "1984");
      b == Step(Ok, [BookRec("1984", "Orwell", 1949, false)]) &&
      Available(b.books) == [] &&
      ReturnSpec(b.books, "1984") == Step(Ok, s) &&
      ReturnSpec(s, "1984") == Step(Err(NotOnLoan), s)
  {
  }

  // ---------------------------------------------------------------------------
  // The mutable objects
  // ---------------------------------------------------------------------------

  /** One book. Only its availability changes after it is created. */
  class Book {
    const title: string
    const author: string
    const year: u32
    var available: bool

    /** A new book is on the shelf. */
    constructor (title: string, author: string, year: u32)
      ensures this.title == title && this.author == author && this.year == year
      ensures available
    {
      this.title := title;
      this.author := author;
      this.year := year;
      available := true;
    }

    function Rec(): BookRec
      reads this
    {
      BookRec(title, author, year, available)
    }

    /** Takes the book off the shelf; fails, changing nothing, when it is already on loan. */
    method Borrow() returns (ok: bool)
      modifies this
      ensures ok == old(available)
      ensures !available
    {
      if available {
        available := false;
        ok := true;
      } else {
        ok := false;
      }
    }

    /** Puts the book back; fails, changing nothing, when it is not on loan. */
    method Return() returns (ok: bool)
      modifies this
      ensures ok == !old(available)
      ensures available
    {
      if !available {
        available := true;
        ok := true;
      } else {
        ok := false;
      }
    }
  }

  /** The catalogue: the books in the order they were added. */
  class Catalogue {
    var books: seq<Book>

    /** Each book is owned once, and titles are unique up to case. The first
        conjunct follows from the second (a repeated book would match its own
        title); it is kept because the frame reasoning of `Borrow` and `Return`
        uses it directly. */
    ghost predicate Valid()
      reads this, books
    {
      (forall i, j :: 0 <= i < j < |books| ==> books[i] != books[j]) &&
      TitlesUnique(Snapshot())
    }

    /** The records as they stand, in catalogue order. */
    function Snapshot(): (s: seq<BookRec>)
      reads this, books
      ensures |s| == |books|
      ensures forall i :: 0 <= i < |books| ==> s[i] == books[i].Rec()
    {
      seq(|books|, i reads this, books requires 0 <= i < |books| => books[i].Rec())
    }

    /** The books on the shelf, in catalogue order. */
    function AvailableBooks(): (r: seq<BookRec>)
      reads this, books
      ensures IsSubsequence(r, Snapshot())
      ensures forall i :: 0 <= i < |r| ==> r[i].available
      ensures r == [] <==> forall i :: 0 <= i < |books| ==> !books[i].available
    {
      AvailableIsSubsequence(Snapshot());
      AvailableEmptyIff(Snapshot());
      Available(Snapshot())
    }

    /** A new catalogue is empty. */
    constructor ()
      ensures Valid()
      ensures Snapshot() == []
    {
      books := [];
    }

    /** The position of the first book whose title is `title` up to case. */
    method FindTitle(title: string) returns (r: Option<nat>)
      ensures r == FindFirst(Snapshot(), title)
    {
      var i := 0;
      while i < |books|
        invariant 0 <= i <= |books|
        invariant forall j :: 0 <= j < i ==> !SameTitle(books[j].title, title)
      {
        if SameTitle(books[i].title, title) {
          return Some(i);
        }
        i := i + 1;
      }
      return None;
    }

    /** Adds an available book at the end unless its title is already present up to case. */
    method Add(title: string, author: string, year: u32) returns (r: Outcome)
      requires Valid()
      modifies this
      ensures Valid()
      ensures Step(r, Snapshot()) == AddSpec(old(Snapshot()), title, author, year)
      ensures |books| >= |old(books)| && books[..|old(books)|] == old(books)
      ensures forall i :: |old(books)| <= i < |books| ==> fresh(books[i])
    {
      ghost var s := Snapshot();
      if exists i :: 0 <= i < |books| && SameTitle(books[i].title, title) {
        return Err(DuplicateTitle);
      }
      var b := new Book(title, author, year);
      books := books + [b];
      r := Ok;
      AddKeepsUnique(s, title, author, year);
      assert Snapshot() == s + [BookRec(title, author, year, true)];
    }

    /** Borrows the first book whose title is `title` up to case. */
    method Borrow(title: string) returns (r: Outcome)
      requires Valid()
      modifies books
      ensures Valid()
      ensures Step(r, Snapshot()) == BorrowSpec(old(Snapshot()), title)
    {
      ghost var s := Snapshot();
      var k := FindTitle(title);
      match k {
        case None =>
          r := Err(NotFound);
        case Some(i) =>
          var ok := books[i].Borrow();
          r := if ok then Ok else Err(NotAvailable);
          assert Snapshot() == if ok then s[i := s[i].(available := false)] else s;
      }
      BorrowReturnKeepUnique(s, title);
    }

    /** Returns the first book whose title is `title` up to case. */
    method Return(title: string) returns (r: Outcome)
      requires Valid()
      modifies books
      ensures Valid()
      ensures Step(r, Snapshot()) == ReturnSpec(old(Snapshot()), title)
    {
      ghost var s := Snapshot();
      var k := FindTitle(title);
      match k {
        case None =>
          r := Err(NotFound);
        case Some(i) =>
          var ok := books[i].Return();
          r := if ok then Ok else Err(NotOnLoan);
          assert Snapshot() == if ok then s[i := s[i].(available := true)] else s;
      }
      BorrowReturnKeepUnique(s, title);
    }
  }

  /** A client session that makes, on a fresh catalogue, the catalogue calls
      the add, borrow and return handlers make (src/main.rs:177, 199, 221):
      "Dune" is added, "dune" is refused as a duplicate, "dune" is borrowed and
      "DUNE" returned, and a second return of "Dune" is refused. The menu's
      return handler would stop that last call before it reaches the
      catalogue, since no book is on loan any more; the refusal shown is the
      catalogue's own. */
  method DuneSession() returns (added: Outcome, dup: Outcome, borrowed: Outcome, returned: Outcome, again: Outcome)
    ensures added == Ok && dup == Err(DuplicateTitle)
    ensures borrowed == Ok && returned == Ok && again == Err(NotOnLoan)
  {
    var lib := new Catalogue();
    added := lib.Add("Dune", "Herbert", 1965);
    CaseInsensitiveScenario();
    dup := lib.Add("dune", "X", 2000);
    borrowed := lib.Borrow("dune");
    assert Lower("DUNE") == Lower("dune");
    returned := lib.Return("DUNE");
    again := lib.Return("Dune");
  }
}
