# Library catalogue

A model of the core of a small console library manager written in Rust. A
catalogue (`Bibliotheque`) owns an ordered list of books (`Livre`). Each book
has a title, an author, a publication year and an availability flag. The
catalogue adds books while keeping titles unique up to case. It borrows and
returns a book by looking up the first title that matches up to case, and it
lists the books that are on the shelf. A year is accepted only in the
inclusive range 1000..2025.

Everything is in `library.dfy`, module `Library`:

- `Book` is `Livre`. Its title, author and year never change after creation,
  so they are `const` fields. Only `available` (`disponible`) is a `var`.
  `Borrow` and `Return` are `emprunter` and `retourner`.
- `Catalogue` is `Bibliotheque`. Its `books: seq<Book>` is the `Vec<Livre>`.
  `Valid()` says that titles are unique up to case, and also states that no
  book object appears twice (the vector owns its records). The second fact
  follows from the first, since a repeated book matches its own title; it is
  stated separately because the frame proofs of `Borrow` and `Return` use it. `Add`, `Borrow` and `Return`
  are `ajouter_livre`, `emprunter_livre` and `retourner_livre`.
- `Snapshot()` gives the catalogue as a sequence of `BookRec` values. Each
  method's `ensures` ties the new snapshot and its `Outcome` to a pure step
  function of the old snapshot: `AddSpec`, `BorrowSpec` or `ReturnSpec`. The
  lemmas prove what the source promises about those step functions.
- `Available` is the filter in `afficher_livres_disponibles`. `CheckYear` is
  the range test in `lire_annee`.
- Errors are the datatype `Error = DuplicateTitle | NotFound | NotAvailable |
  NotOnLoan` in place of the French message strings.
- Lower-casing is ASCII-only: `LowerChar` maps `A`..`Z` to `a`..`z` and leaves
  every other character alone. Two titles match when their lower-cased forms
  are equal (`SameTitle`).
- Years are the source's `u32`, a `newtype` over `0 .. 2^32-1`.

## Model

| member | source | states |
|---|---|---|
| `Library.Book.constructor` | src/main.rs:13-19 | a new book carries exactly the given title, author and year, and is available |
| `Library.Book.Borrow` | src/main.rs:22-29 | succeeds exactly when the book was available; afterwards it is on loan (so a failed borrow leaves it unchanged) |
| `Library.Book.Return` | src/main.rs:31-38 | succeeds exactly when the book was on loan; afterwards it is available (so a failed return leaves it unchanged) |
| `Library.Catalogue.constructor` | src/main.rs:47-51 | a new catalogue is empty and valid |
| `Library.HasTitle` | src/main.rs:55 | the `iter().any` duplicate test, evaluated front to back: it holds exactly when some record's title equals `t` after lower-casing; adding is refused exactly then, and the lookup finds nothing exactly when it is false |
| `Library.FindFirst` | src/main.rs:65-78 | the lookup shared by borrowing (line 65) and returning (line 78): the result is the index of the first record whose title matches up to case, and it is none exactly when no title matches |
| `Library.Catalogue.FindTitle` | src/main.rs:65-78 | the scan behind lines 65 and 78 of the catalogue returns the first case-insensitive match, as `FindFirst` defines it |
| `Library.UniqueLookup` | src/main.rs:55-65 | when titles are unique up to case, any matching record is the one the lookup finds |
| `Library.FindFirstTitlesOnly` | src/main.rs:65-78 | lookup depends only on titles, so flipping availability flags never changes which record is found |
| `Library.AddContract` | src/main.rs:53-61 | adding fails with DuplicateTitle exactly when some existing lower-cased title equals the lower-cased new title, and then nothing changes; otherwise the list grows by one, earlier entries are untouched and the last is the new available book |
| `Library.AddKeepsUnique` | src/main.rs:55-60 | if titles were pairwise distinct up to case before adding, they still are after |
| `Library.Catalogue.Add` | src/main.rs:53-62 | the outcome and the new catalogue are those of `AddSpec`; the object stays valid, earlier book objects keep their places and an appended book is a newly allocated object owned by this catalogue alone |
| `Library.BorrowContract` | src/main.rs:64-75 | NotFound exactly when no title matches, changing nothing; otherwise only the first match is involved: Ok and it becomes on loan when it was available, NotAvailable and nothing changes when it was not; length, order and all other records are unchanged |
| `Library.Catalogue.Borrow` | src/main.rs:64-75 | the outcome and the new catalogue are those of `BorrowSpec`; the object stays valid |
| `Library.ReturnContract` | src/main.rs:77-88 | the mirror image of borrowing, with NotOnLoan for a book that is already available |
| `Library.Catalogue.Return` | src/main.rs:77-88 | the outcome and the new catalogue are those of `ReturnSpec`; the object stays valid |
| `Library.BorrowReturnKeepUnique` | src/main.rs:64-88 | borrowing and returning keep titles unique up to case |
| `Library.BorrowThenReturn` | src/main.rs:64-88 | a successful borrow followed by a return of the same title succeeds and restores the catalogue exactly |
| `Library.ReturnThenBorrow` | src/main.rs:64-88 | a successful return followed by a borrow of the same title succeeds and restores the catalogue exactly |
| `Library.BorrowTwiceFails` | src/main.rs:64-75 | a second consecutive borrow of a title fails with NotAvailable and changes nothing |
| `Library.ReturnTwiceFails` | src/main.rs:77-88 | a second consecutive return of a title fails with NotOnLoan and changes nothing |
| `Library.AvailableMembers` | src/main.rs:106-109 | a record is in the available view exactly when it is in the catalogue and available |
| `Library.AvailableIsSubsequence` | src/main.rs:106-109 | the available view is a subsequence of the catalogue, so relative order is kept |
| `Library.AvailableEmptyIff` | src/main.rs:106-111 | the available view is empty exactly when every book is on loan |
| `Library.LowerChar` | src/main.rs:55 | the character-level lowering inside `to_lowercase`: the result is never an ASCII capital, capitals map to the matching small letter, every other character is kept |
| `Library.Lower` | src/main.rs:55 | lowering keeps the length, leaves no ASCII capital and keeps every character that is not a capital |
| `Library.SameTitle` | src/main.rs:55-78 | the `to_lowercase() ==` test of lines 55, 65 and 78: equal titles match; under the ASCII-only lowering of this model, matching titles also have the same length (Unicode `to_lowercase` can change a string's length, so this clause is a property of the model only) |
| `Library.AddSpec` | src/main.rs:53-61 | the reference step for adding: the only error is DuplicateTitle, the old list is a prefix of the new one, and at most one record is added |
| `Library.BorrowSpec` | src/main.rs:64-75 | the reference step for borrowing: the only errors are NotFound and NotAvailable, the length is kept and every record keeps its title, author and year |
| `Library.ReturnSpec` | src/main.rs:77-88 | the reference step for returning: the only errors are NotFound and NotOnLoan, the length is kept and every record keeps its title, author and year |
| `Library.Available` | src/main.rs:106-109 | the availability filter: it is no longer than the catalogue and holds only available records |
| `Library.Catalogue.AvailableBooks` | src/main.rs:106-111 | the view on the live catalogue: a subsequence of the records, all available, and empty exactly when every book is on loan |
| `Library.Catalogue.Snapshot` | src/main.rs:90-103 | the data the full listing prints: one record per book, in catalogue order, each with the book's current title, author, year and status |
| `Library.DuneSession` | src/main.rs:177-221 | a client that makes, on a fresh catalogue, the catalogue calls the handlers make at lines 177, 199 and 221: adding "Dune" succeeds, adding "dune" is a duplicate, borrowing "dune" and returning "DUNE" succeed, a second return is NotOnLoan. The return handler's check at line 208 would stop that last call before it reaches the catalogue, because no book is on loan by then |
| `Library.CheckYear` | src/main.rs:142-148 | a parsed year is accepted exactly when 1000 <= year <= 2025 and rejected as out of range otherwise |
| `Library.YearBoundaries` | src/main.rs:145-146 | 999 and 2026 are rejected; 1000 and 2025 are accepted |
| `Library.CaseInsensitiveScenario` | src/main.rs:53-75 | after adding "Dune", adding "dune" is refused and borrowing "dune" succeeds; borrowing from an empty catalogue is NotFound |
| `Library.LoanScenario` | src/main.rs:53-88 | after adding and borrowing "1984" nothing is on the shelf; returning it restores the catalogue, and a second return fails with NotOnLoan |

## Left out

- Console input (`lire_entree`, src/main.rs:136-140) and its panic on a read error: I/O.
- All printing: `afficher_tous_livres` (src/main.rs:90-103), the numbered listing and the "no books" message of `afficher_livres_disponibles` (src/main.rs:111-121), and `afficher_menu` (src/main.rs:125-134). `Snapshot` and `Available` are the data those listings print.
- The `main` menu loop and the `*_interface` functions (src/main.rs:151-249). They are presentation glue. Their empty-input checks and their "all borrowed" / "none borrowed" shortcuts run before the catalogue is called and are not catalogue behaviour.
- The string-to-`u32` parse in `lire_annee` (src/main.rs:144) and its "not a valid year" error: `CheckYear` starts from a year that has already been parsed.
- Unicode lower-casing: `String::to_lowercase` handles all of Unicode; the model lowers ASCII letters only.
- The French error messages: they become the `Error` constructors.
