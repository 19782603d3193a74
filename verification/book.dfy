/** Data_Structures/Assignment2/nm4358/book.cpp and borrower.cpp: the records
    of the library. A `Book` and a `Borrower` are heap objects that point at
    each other: a book lists the borrowers who hold it now and everyone who
    ever borrowed it, a borrower lists the books lent to them. The library
    updates their fields in place, so both are classes. */
module Books {

  class Book {
    var title: string
    var author: string
    var isbn: string
    var publicationYear: int
    var totalCopies: int
    var availableCopies: int
    /** The borrowers holding a copy now, in the order they borrowed. */
    var currentBorrowers: seq<Borrower>
    /** Every borrowing ever made, in order (a borrower once per loan). */
    var allBorrowers: seq<Borrower>

    /** `Book(title, author, isbn, publication_year, total_copies,
        available_copies)`: nobody has borrowed the new book. */
    constructor (title: string, author: string, isbn: string, year: int, total: int, available: int)
      ensures this.title == title && this.author == author && this.isbn == isbn
      ensures publicationYear == year && totalCopies == total && availableCopies == available
      ensures currentBorrowers == [] && allBorrowers == []
    {
      this.title := title;
      this.author := author;
      this.isbn := isbn;
      publicationYear := year;
      totalCopies := total;
      availableCopies := available;
      currentBorrowers := [];
      allBorrowers := [];
    }
  }

  class Borrower {
    var name: string
    var id: string
    /** The books lent to this borrower, in the order they were lent. */
    var booksBorrowed: seq<Book>

    /** `Borrower(name, id)`: a new borrower holds no book. */
    constructor (name: string, id: string)
      ensures this.name == name && this.id == id && booksBorrowed == []
    {
      this.name := name;
      this.id := id;
      booksBorrowed := [];
    }
  }
}
