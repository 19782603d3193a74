# A verified model of the coursework data structures

This project models, in Dafny, the C and C++ cores of a student repository.

- **The Library Circulation Management System** (`Data_Structures/Assignment2`).
  - A category tree (`tree.cpp`) holds books under slash-separated category paths.
  - Every node keeps a book count that is propagated up its parent pointers.
  - The system (`lcms.cpp`) adds, edits, finds, lends, takes back and removes books.
  - It adds, renames and removes categories.
  - It reads and writes the catalogue as comma-separated lines.
  - It rests on a growable array template (`myvector.h`) and on the book and borrower records.
- **The word-frequency table** (`Data_Structures/Assignment3`).
  - A hash table of linked-list buckets (`hashtable.cpp`, `linkedlist.cpp`) counts the words of a text.
  - It offers six string hash functions.
  - A max-heap of buckets ordered by size (`maxheap.cpp`) answers "most frequent word".
- **Four small C exercises** (`CSO`):
  - the ranges of the C integer types, computed by shifts and bitwise NOT;
  - merging two sorted arrays from the back;
  - a self-linked node and a search that walks it;
  - a front-inserting singly linked list with print and free.

Where the source mutates objects in place, the model does too:

- `Lcms`, `Tree`, `HashTable`, `Heap`, `LinkedList`, `MyVector`, `Book` and `Borrower` are classes whose methods update their fields under `modifies` clauses.
- The merge works in place on an `array`.
- The C lists are heap nodes.

Each method is proved against a specification function: a pure definition of what the operation computes. The properties the source promises are proved as lemmas about those functions:

- round trips;
- invariants kept;
- permutation plus order;
- first-match searches.

Console prompts and file contents become parameters.

Modules, one per source file or concern:

| module | file | models |
|---|---|---|
| `Outcomes` | outcomes.dfy | the `out_of_range` / `invalid_argument` exceptions as values |
| `Text` | text.dfy | bytes, `%d` / `<<` decimal text, `string::find` |
| `Books` | book.dfy | `Book` and `Borrower` |
| `Vectors` | my_vector.dfy | `MyVector<T>` over an array |
| `Trees` | tree.dfy | the category tree; a node is addressed by the child positions from the root |
| `Csv` | csv.dfy | the quoting of `exportData` and the field reads of `import` |
| `LibrarySystem` | lcms.dfy | `LCMS` |
| `LinkedLists` | linked_list.dfy | the bucket list of Assignment 3 |
| `MaxHeap` | max_heap.dfy | the heap of buckets |
| `HashTables` | hash_table.dfy | the word-frequency table |
| `IntegerRanges` | integer_ranges.dfy | `CSO/Hw1/3.1.c` |
| `MergeFromBack` | merge_from_back.dfy | `CSO/Hw1/3.2.c` |
| `FindById` | find_by_id.dfy | `CSO/HW2/Question1.c` |
| `FrontInsertList` | front_insert_list.dfy | `CSO/HW2/Question2.c` |

## Model

| member | source | states |
|---|---|---|
| Books.Book.constructor | Data_Structures/Assignment2/nm4358/book.cpp:16-17 | A new book has the six given field values and no current or past borrowers. |
| Books.Borrower.constructor | Data_Structures/Assignment2/nm4358/borrower.cpp:16 | A new borrower has the given name and id and holds no book. |
| Text.DecimalDigits | Data_Structures/Assignment2/nm4358/lcms.cpp:173-174 | A natural number is written as at least one character, every one a decimal digit. |
| Text.DecimalDigitsRoundTrip | Data_Structures/Assignment2/nm4358/lcms.cpp:173-174 | The value of the written digits is the number written. |
| Text.Find | Data_Structures/Assignment2/nm4358/lcms.cpp:53-65 | `find(c)` returns the first position holding `c`, and none exactly when `c` does not occur. |
| Csv.EscapedAppend | Data_Structures/Assignment2/nm4358/lcms.cpp:151-159 | Escaping a concatenation is the concatenation of the escaped parts. |
| Csv.RecordLine | Data_Structures/Assignment2/nm4358/lcms.cpp:140-186 | The line `exportData` writes for a book starts with its quoted title and a comma; `RecordRoundTrip` gives the rest of its layout by reading it back. |
| Csv.EscapedNoQuote | Data_Structures/Assignment2/nm4358/lcms.cpp:151-159 | A field without `"` is written between the quotes unchanged. |
| Csv.UnescapeEscaped | Data_Structures/Assignment2/nm4358/lcms.cpp:151-159 | Reading doubled quotes back as single ones recovers every exported field: the escaping is lossless. |
| Csv.WriteQuoted | Data_Structures/Assignment2/nm4358/lcms.cpp:151-159 | The character loop writes the field between quotes with each `"` doubled. |
| Csv.UpTo | Data_Structures/Assignment2/nm4358/lcms.cpp:89-95 | `getline(ss, x, c)` yields the longest prefix without `c`, and `c` follows it unless the line ended. |
| Csv.TakeField | Data_Structures/Assignment2/nm4358/lcms.cpp:53-65 | Taking the title or author field strictly shortens what is left of the line. |
| Csv.SkipSpace | Data_Structures/Assignment2/nm4358/lcms.cpp:89-95 | What `>>` leaves after skipping whitespace does not start with whitespace. |
| Csv.DigitRun | Data_Structures/Assignment2/nm4358/lcms.cpp:89-95 | The digits `>>` consumes are all digits and are followed by a non-digit or the end. |
| Csv.ReadDigits | Data_Structures/Assignment2/nm4358/lcms.cpp:89-95 | A successful unsigned read consumes at least one character. |
| Csv.ReadInt | Data_Structures/Assignment2/nm4358/lcms.cpp:89-95 | `>>` into an `int`: a read that yields a number consumes at least one character and gives a value an `int` holds; digits for a number outside the `int` range saturate to `INT_MIN` or `INT_MAX` and fail the stream. |
| Csv.IntFrom | Data_Structures/Assignment2/nm4358/lcms.cpp:90-95 | The range check of `>>` into an `int`: the read succeeds with the number exactly when an `int` holds it, and otherwise stores the nearest `int`. |
| Csv.ReadIsbn | Data_Structures/Assignment2/nm4358/lcms.cpp:89 | A book made after the ISBN field holds a year and counts that an `int` can hold. |
| Csv.ReadYear | Data_Structures/Assignment2/nm4358/lcms.cpp:90-91 | A book made after the year read holds a year and counts that an `int` can hold; a year read that fails or saturates leaves the line `Undefined`. |
| Csv.ReadCategory | Data_Structures/Assignment2/nm4358/lcms.cpp:92 | A book made after the category field keeps the year already read and holds counts an `int` can hold. |
| Csv.ReadTotal | Data_Structures/Assignment2/nm4358/lcms.cpp:93-94 | A book made after the total read keeps the year and holds counts an `int` can hold; a total read that fails or saturates leaves the line `Undefined`. |
| Csv.ReadAvailable | Data_Structures/Assignment2/nm4358/lcms.cpp:95 | The last read changes only the available count, which an `int` holds (saturated when the digits overflow, 0 when they are missing); the line is `Undefined` exactly when nothing but white space is left. |
| Csv.ParseLine | Data_Structures/Assignment2/nm4358/lcms.cpp:44-95 | A book `import` builds from a line holds a year and two counts that an `int` can hold. |
| Csv.QuotedFieldRoundTrip | Data_Structures/Assignment2/nm4358/lcms.cpp:53-65 | A quoted title or author written by export and followed by a comma is read back by import as the same text exactly when it contains no `"`. |
| Csv.QuotedTaken | Data_Structures/Assignment2/nm4358/lcms.cpp:53-65 | Without a `"` in the field, import reads it back and continues after the comma. |
| Csv.QuotedCut | Data_Structures/Assignment2/nm4358/lcms.cpp:53-65 | With a `"` in the field, import does not read back the exported text. |
| Csv.DigitsBack | Data_Structures/Assignment2/nm4358/lcms.cpp:89-95 | Reading the decimal digits of `n` followed by a non-digit gives `n` and leaves the rest. |
| Csv.ReadIntDecimal | Data_Structures/Assignment2/nm4358/lcms.cpp:89-95 | `>>` into an `int` reads back any `int` that `<<` wrote, negative ones included, and stops right after it; for a number outside the `int` range it saturates. |
| Csv.RecordRoundTrip | Data_Structures/Assignment2/nm4358/lcms.cpp:34-115 | Importing an exported record whose year and total an `int` holds gives back title, author, ISBN, year and total exactly, and the available count saturated to the `int` range; the category comes back still quoted. A year or total outside the `int` range makes the line `Undefined`. Requires a title and author without `"` and an ISBN and category without `,`. |
| Csv.CountsBack | Data_Structures/Assignment2/nm4358/lcms.cpp:89-95 | The category and the two copy counts written by export are read back by import, the available count saturated to the `int` range; a total outside the `int` range makes the line `Undefined`. |
| Trees.FirstNamed | Data_Structures/Assignment2/nm4358/tree.cpp:112-117 | The first child with the name, and none exactly when no child has it. |
| Trees.GetChild | Data_Structures/Assignment2/nm4358/tree.cpp:112-117 | `getChild` returns the address of a child of the node with the name, and null exactly when no child has it. |
| Trees.JoinSegments | Data_Structures/Assignment2/nm4358/tree.cpp:90-109 | The pieces `createNode` splits a path into, joined by `/`, give the path back. |
| Trees.SegmentsJoin | Data_Structures/Assignment2/nm4358/tree.cpp:90-109 | Splitting pieces joined by `/` gives the pieces back when none contains `/`. |
| Trees.Lookup | Data_Structures/Assignment2/nm4358/tree.cpp:77-87 | A node `getNode` returns exists, and the names on the way to it are the path's pieces. |
| Trees.Ensure | Data_Structures/Assignment2/nm4358/tree.cpp:90-109 | `createNode` returns an existing node one level down per piece and keeps the root's own fields. |
| Trees.EnsureThenLookup | Data_Structures/Assignment2/nm4358/tree.cpp:77-109 | After `createNode(path)`, `getNode(path)` finds the node `createNode` returned. |
| Trees.LookupThenEnsure | Data_Structures/Assignment2/nm4358/tree.cpp:77-109 | On a path `getNode` already finds, `createNode` changes nothing and returns that node. |
| Trees.EnsureOnlyAdds | Data_Structures/Assignment2/nm4358/tree.cpp:90-109 | `createNode` leaves every existing node as it was; the nodes it adds lie on the returned node's path. |
| Trees.EnsurePreorder | Data_Structures/Assignment2/nm4358/tree.cpp:90-109 | `createNode` adds no book anywhere. |
| Trees.EnsureEndsEmpty | Data_Structures/Assignment2/nm4358/tree.cpp:90-109 | When the path did not exist, the node `createNode` returns holds no book below it. |
| Trees.EnsureKeepsCounts | Data_Structures/Assignment2/nm4358/tree.cpp:90-109 | `createNode` keeps every count equal to the node's own books plus what its children pass up. |
| Trees.CreditedLabels | Data_Structures/Assignment2/nm4358/tree.cpp:120-125 | `updateBookCount(ptr, d)` adds `d` to exactly the nodes its walk up the parent pointers passes; nothing else changes. |
| Trees.PreorderCredited | Data_Structures/Assignment2/nm4358/tree.cpp:120-125 | `updateBookCount` moves no book. |
| Trees.RefileKeepsCounts | Data_Structures/Assignment2/nm4358/tree.cpp:120-125 | Changing a node's books and then calling `updateBookCount` with the change in their number keeps every count consistent. |
| Trees.RefiledCredited | Data_Structures/Assignment2/nm4358/tree.cpp:120-125 | Changing a node's books and updating the counts can be done in either order. |
| Trees.FirstTitled | Data_Structures/Assignment2/nm4358/tree.cpp:130-132 | The first book with the title in a node's list, and none exactly when no book has it. |
| Trees.Locate | Data_Structures/Assignment2/nm4358/tree.cpp:128-145 | The search of `findBook` ends at a book that exists in an existing node. |
| Trees.LocateIsPreorderFirst | Data_Structures/Assignment2/nm4358/tree.cpp:128-145 | The search finds a book exactly when some book below has the title, and it finds the first one in preorder: own books first, then each child's subtree in order. |
| Trees.FindBook | Data_Structures/Assignment2/nm4358/tree.cpp:128-145 | `findBook` returns the first book with the title in preorder, or null. |
| Trees.RemovedFromCatalog | Data_Structures/Assignment2/nm4358/tree.cpp:148-167 | `removeBook` from the root deletes from the catalogue exactly the book `findBook` returns, and nothing when there is none. |
| Trees.RemoveBookKeepsCounts | Data_Structures/Assignment2/nm4358/tree.cpp:148-167 | `removeBook` keeps the counts consistent. |
| Trees.ExportCountIsPreorder | Data_Structures/Assignment2/nm4358/tree.cpp:209-225 | `exportData` writes one record per book below the node. |
| Trees.CountsAreExported | Data_Structures/Assignment2/nm4358/tree.cpp:209-225 | With consistent counts and all parent pointers set, a node's count is the number of records `exportData` writes for it. |
| Trees.CategoryIsJoin | Data_Structures/Assignment2/nm4358/tree.cpp:32-36 | When the parent pointers lead up to the root, `getCategory` is the names from the root down, joined by `/`. |
| Trees.Category | Data_Structures/Assignment2/nm4358/tree.cpp:32-36 | `getCategory` ends with the node's own name, and is just that name when the node has no parent pointer. |
| Trees.InsertedLabels | Data_Structures/Assignment2/nm4358/tree.cpp:54-58 | `insert` adds exactly one node: a new last child with the name and its parent set; every other node is unchanged. |
| Trees.InsertedIsLastChild | Data_Structures/Assignment2/nm4358/tree.cpp:186-189 | The node `insert` adds is its parent's last child. |
| Trees.IsLastChild | Data_Structures/Assignment2/nm4358/tree.cpp:186-189 | `isLastChild` holds exactly when the node has a parent pointer and no next sibling. |
| Trees.InsertThenGetChild | Data_Structures/Assignment2/nm4358/tree.cpp:54-58 | After inserting a new name, `getChild` finds the inserted node. |
| Trees.RemoveUndoesInsert | Data_Structures/Assignment2/nm4358/tree.cpp:61-69 | `remove` of a name just inserted under a node that had no such child restores the tree. |
| Trees.InsertKeepsCounts | Data_Structures/Assignment2/nm4358/tree.cpp:54-58 | `insert` keeps the counts consistent. |
| Trees.Tree.constructor | Data_Structures/Assignment2/nm4358/tree.cpp:39-41 | A new tree is one empty root node with no parent. |
| Trees.Tree.Insert | Data_Structures/Assignment2/nm4358/tree.cpp:54-58 | The tree becomes the one with the new child appended. |
| Trees.Tree.Remove | Data_Structures/Assignment2/nm4358/tree.cpp:61-69 | The first child with the name is erased, or nothing changes when there is none. |
| Trees.Tree.Descend | Data_Structures/Assignment2/nm4358/tree.cpp:93-102 | One round of the `createNode` loop: the rest of the work from the child equals the work from the node with that segment first. |
| Trees.Tree.CreateNode | Data_Structures/Assignment2/nm4358/tree.cpp:90-109 | The new tree and the returned node are those of `Ensure` on the path's pieces. |
| Trees.Tree.UpdateBookCount | Data_Structures/Assignment2/nm4358/tree.cpp:120-125 | The loop up the parent pointers leaves the tree `Credited`, so the counts change as `CreditedLabels` says. |
| Trees.Tree.RemoveBook | Data_Structures/Assignment2/nm4358/tree.cpp:148-167 | The found book is erased and the counts on its walk up lowered. The result is true exactly when a book has the title. |
| Csv.RestRoundTrip | Data_Structures/Assignment2/nm4358/lcms.cpp:89-95 | The ISBN, year, category and counts written by export are read back by import when the year and total fit in an `int`, the available count saturated; otherwise the line is `Undefined`. |
| LibrarySystem.Visit | Data_Structures/Assignment2/nm4358/lcms.cpp:557-573 | The stack loop pops the start node first. |
| LibrarySystem.VisitCovers | Data_Structures/Assignment2/nm4358/lcms.cpp:557-573 | The stack loop pops exactly the addresses of the nodes in the subtree. |
| LibrarySystem.FirstCalledIsFirst | Data_Structures/Assignment2/nm4358/lcms.cpp:557-573 | The loop stops at the first popped node with the name, and finds none exactly when no popped node has it. |
| LibrarySystem.Search | Data_Structures/Assignment2/nm4358/lcms.cpp:549-578 | The node the search stops at carries the name. |
| LibrarySystem.SearchFindsAny | Data_Structures/Assignment2/nm4358/lcms.cpp:549-578 | The search finds nothing exactly when no node of the tree has the name. |
| LibrarySystem.SearchUnique | Data_Structures/Assignment2/nm4358/lcms.cpp:549-578 | When one node alone has the name, the search finds that node. |
| LibrarySystem.SearchRootFirst | Data_Structures/Assignment2/nm4358/lcms.cpp:557-573 | A root with the name is found before anything below it. |
| LibrarySystem.FirstChildNamed | Data_Structures/Assignment2/nm4358/lcms.cpp:528-534 | The child loop of `addCategory` stops at the first child with the name. |
| LibrarySystem.PushChildren | Data_Structures/Assignment2/nm4358/lcms.cpp:570-572 | Pushing a node's children puts their subtrees, last child first, ahead of what was pending. |
| LibrarySystem.Parts | Data_Structures/Assignment2/nm4358/lcms.cpp:513-518 | The `getline` split of a category yields no piece exactly when the name is empty. |
| LibrarySystem.PartsAreSegments | Data_Structures/Assignment2/nm4358/lcms.cpp:513-518 | For a name not ending in `/`, `addCategory` splits it into the same pieces as `createNode`. |
| LibrarySystem.PartsTrailingSlash | Data_Structures/Assignment2/nm4358/lcms.cpp:513-518 | `addCategory` ignores a trailing `/`. |
| LibrarySystem.SegmentsTrailingSlash | Data_Structures/Assignment2/nm4358/tree.cpp:90-109 | `createNode` turns a trailing `/` into one more, empty-named node. |
| LibrarySystem.AddedOne | Data_Structures/Assignment2/nm4358/lcms.cpp:504-545 | Adding a one-piece category that no node has adds it as the root's new last child. |
| LibrarySystem.RemovalKeepsRoot | Data_Structures/Assignment2/nm4358/lcms.cpp:582-626 | `removeCategory` never changes the root's own fields, and refuses the root's own name. |
| LibrarySystem.AddedCategoryStuck | Data_Structures/Assignment2/nm4358/lcms.cpp:537-541 | As written, a category `addCategory` creates is refused by `removeCategory` as if it were the root. |
| LibrarySystem.AddThenRemove | Data_Structures/Assignment2/nm4358/lcms.cpp:582-626 | With parent pointers set, removing a freshly added one-piece category restores the tree. |
| LibrarySystem.RenameRoundTrip | Data_Structures/Assignment2/nm4358/lcms.cpp:631-675 | Renaming `a` to an unused `b` and back restores the tree. |
| LibrarySystem.FirstWithId | Data_Structures/Assignment2/nm4358/lcms.cpp:679-684 | The first borrower with the id, and none exactly when no borrower has it. |
| LibrarySystem.Position | Data_Structures/Assignment2/nm4358/lcms.cpp:422-429 | The first position of the borrower among a book's current borrowers, and none exactly when absent. |
| LibrarySystem.UnlentReturns | Data_Structures/Assignment2/nm4358/lcms.cpp:438-442 | Erasing the first book with the title from a borrower's list gives back one loan of that book. |
| LibrarySystem.SameEdition | Data_Structures/Assignment2/nm4358/lcms.cpp:268-277 | A book `addBook` restocks is in the catalogue and has the same title, author, ISBN and year. |
| LibrarySystem.SameEditionNeedsCategory | Data_Structures/Assignment2/nm4358/lcms.cpp:262-277 | No book is restocked when the category path did not exist yet. |
| LibrarySystem.SameEditionInPlace | Data_Structures/Assignment2/nm4358/lcms.cpp:262-277 | When a book is restocked, `createNode` left the tree as it was. |
| LibrarySystem.Filed | Data_Structures/Assignment2/nm4358/lcms.cpp:285 | Filing appends the new book to the node's books. |
| LibrarySystem.FiledKeepsCounts | Data_Structures/Assignment2/nm4358/lcms.cpp:283-285 | Filing a book with `updateBookCount(node, 1)` keeps every count consistent. |
| LibrarySystem.AddBookKeepsCounts | Data_Structures/Assignment2/nm4358/lcms.cpp:262-285 | Creating the category and filing a new book there keep every count consistent. |
| LibrarySystem.EditNothing | Data_Structures/Assignment2/nm4358/lcms.cpp:350-355 | Leaving every prompt at its sentinel changes no field. |
| LibrarySystem.EditEverything | Data_Structures/Assignment2/nm4358/lcms.cpp:350-355 | Entering a non-sentinel value for every field sets all six. |
| LibrarySystem.EditIdempotent | Data_Structures/Assignment2/nm4358/lcms.cpp:350-355 | Applying the same edit twice is the same as once. |
| LibrarySystem.EditTwice | Data_Structures/Assignment2/nm4358/lcms.cpp:350-355 | Two edits in a row are one edit whose later non-sentinel entries win. |
| LibrarySystem.SentinelsStay | Data_Structures/Assignment2/nm4358/lcms.cpp:309-310 | A field holds its sentinel after an edit only if it held it before: a sentinel can never be entered. |
| LibrarySystem.Lcms.constructor | Data_Structures/Assignment2/nm4358/lcms.cpp:22-25 | A new system has a fresh tree of one root with the given name, and no borrowers. |
| LibrarySystem.Lcms.SearchCategory | Data_Structures/Assignment2/nm4358/lcms.cpp:557-573 | The stack loop returns the node `Search` defines. |
| LibrarySystem.Lcms.FindCategory | Data_Structures/Assignment2/nm4358/lcms.cpp:549-578 | `findCategory` is true exactly when some node has the name. |
| LibrarySystem.Lcms.AddCategoryAsWritten | Data_Structures/Assignment2/nm4358/lcms.cpp:504-545 | The tree becomes `AddedCategory` with null parent pointers, as written. The result says whether the name was non-empty. |
| LibrarySystem.Lcms.AddCategory | Data_Structures/Assignment2/nm4358/lcms.cpp:504-545 | The same walk with the parent pointers set, as `insert` would. |
| LibrarySystem.Lcms.FileCategory | Data_Structures/Assignment2/nm4358/lcms.cpp:504-545 | The shared loop: for every piece, the first child with the name or a new last child. |
| LibrarySystem.Lcms.RemoveCategory | Data_Structures/Assignment2/nm4358/lcms.cpp:582-626 | The tree and status are `CategoryRemoval`: not found; the root refused; or the first node with the name erased from its parent. |
| LibrarySystem.Lcms.EditCategory | Data_Structures/Assignment2/nm4358/lcms.cpp:631-675 | The tree and status are `CategoryRenamed`: not found; empty or unchanged name refused; or the first node with the name renamed. |
| LibrarySystem.Lcms.FindBorrowerById | Data_Structures/Assignment2/nm4358/lcms.cpp:679-684 | The first registered borrower with the id, or null. |
| LibrarySystem.Lcms.BorrowerFor | Data_Structures/Assignment2/nm4358/lcms.cpp:377-386 | The borrower a loan goes to: the registered one with the id, leaving the list alone; otherwise a new borrower with the given name and id and no books, appended to the list. The tree is unchanged either way. |
| LibrarySystem.Lcms.BorrowBook | Data_Structures/Assignment2/nm4358/lcms.cpp:359-396 | The cases are not found, no copy available, or issued. An issue lends to the existing borrower with the id, or to a freshly registered one appended to the borrowers. The book's shelf count, current and past borrowers and the borrower's books all change by the one loan. |
| LibrarySystem.Lcms.ReturnBookAsWritten | Data_Structures/Assignment2/nm4358/lcms.cpp:400-445 | As written, the book is handed back but the borrower's list of books stays as it was. |
| LibrarySystem.Lcms.ReturnBook | Data_Structures/Assignment2/nm4358/lcms.cpp:400-445 | Corrected (the erase loop runs): the cases are no book, not registered, not borrowed, or returned. A return takes the borrower out of the book's current borrowers, puts a copy back, and erases the book from the borrower's list. The two sides' loan counts stay equal. |
| LibrarySystem.Lcms.AddBook | Data_Structures/Assignment2/nm4358/lcms.cpp:229-288 | It restocks exactly when the same edition is already shelved, adding the copies and leaving the tree as it was. Otherwise a fresh book with all copies available is appended to the category's node, which is created if needed. |
| LibrarySystem.Lcms.Shelve | Data_Structures/Assignment2/nm4358/lcms.cpp:262-265 | `getNode`, else `createNode`: the tree and the node are `Ensure` of the category's pieces. |
| LibrarySystem.Lcms.File | Data_Structures/Assignment2/nm4358/lcms.cpp:283-285 | The book is appended to the node and the counts are updated up the parent pointers. |
| LibrarySystem.Lcms.EditBook | Data_Structures/Assignment2/nm4358/lcms.cpp:292-356 | Found exactly when `findBook` finds the title. The found book's six fields become `Edited` by the entered values; its borrowers are untouched. |
| LibrarySystem.Lcms.RemoveBook | Data_Structures/Assignment2/nm4358/lcms.cpp:489-501 | Only the answer `yes` removes. The first book with the title in preorder is erased and the counts lowered. The result says whether a book was removed. |
| LibrarySystem.Restock | Data_Structures/Assignment2/nm4358/lcms.cpp:272-273 | `n` more copies in all and on the shelf; keeps shelf plus current loans equal to the total. |
| LibrarySystem.Revise | Data_Structures/Assignment2/nm4358/lcms.cpp:350-355 | The six fields become the edited details; nothing else of the book changes. |
| LibrarySystem.Lend | Data_Structures/Assignment2/nm4358/lcms.cpp:389-392 | One copy leaves the shelf. The borrower is appended to the current and past borrowers and the book to the borrower's list. Each side's count of the other rises by one, and the shelf balance is kept. |
| LibrarySystem.Release | Data_Structures/Assignment2/nm4358/lcms.cpp:422-437 | The borrower is found among the current borrowers exactly when they hold a copy. Then their first entry leaves and a copy returns, keeping the balance; otherwise the book is untouched. |
| LibrarySystem.TakeBack | Data_Structures/Assignment2/nm4358/lcms.cpp:422-442 | Corrected (the erase loop runs): the book is handed back and the borrower's list loses the book; agreeing loan counts stay in agreement. |
| LibrarySystem.Unlend | Data_Structures/Assignment2/nm4358/lcms.cpp:438-442 | The first book with the title leaves the borrower's list, so the borrower holds that book once less. |
| Vectors.InsertAtElements | Data_Structures/Assignment2/nm4358/myvector.h:133-137 | Insertion at `i` puts the element at `i`, keeps the elements before, and shifts the rest up by one. |
| Vectors.RemoveAtElements | Data_Structures/Assignment2/nm4358/myvector.h:147-150 | Erasure at `i` keeps the elements before and shifts the rest down by one. |
| Vectors.RemoveInsertRoundTrip | Data_Structures/Assignment2/nm4358/myvector.h:117-151 | Erasing what was just inserted at `i` restores the elements. |
| Vectors.InsertRemoveRoundTrip | Data_Structures/Assignment2/nm4358/myvector.h:117-151 | Re-inserting what was erased at `i` restores the elements. |
| Vectors.Grown | Data_Structures/Assignment2/nm4358/myvector.h:104-105 | A full vector's capacity grows strictly and at most doubles (0 becomes 1). |
| Vectors.MyVector.constructor | Data_Structures/Assignment2/nm4358/myvector.h:44-50 | An empty vector of capacity 0. |
| Vectors.MyVector.WithCapacity | Data_Structures/Assignment2/nm4358/myvector.h:53-59 | A negative capacity gives `bad_array_new_length` (the throw of `new T[cap]`); any other gives a fresh empty vector of that capacity. |
| Vectors.MyVector.Copy | Data_Structures/Assignment2/nm4358/myvector.h:62-69 | A fresh buffer with the same elements and capacity. |
| Vectors.MyVector.Elements | Data_Structures/Assignment2/nm4358/myvector.h:79-83 | The elements are the first `size` slots of the buffer. |
| Vectors.MyVector.Size | Data_Structures/Assignment2/nm4358/myvector.h:79-83 | The number of elements. |
| Vectors.MyVector.Capacity | Data_Structures/Assignment2/nm4358/myvector.h:86-90 | Never less than the number of elements. |
| Vectors.MyVector.Empty | Data_Structures/Assignment2/nm4358/myvector.h:93-97 | True exactly when there are no elements. |
| Vectors.MyVector.Reallocate | Data_Structures/Assignment2/nm4358/myvector.h:106-111 | A fresh buffer of the new capacity holding the same elements. |
| Vectors.MyVector.PushBack | Data_Structures/Assignment2/nm4358/myvector.h:100-114 | The element is appended; the capacity grows only when the vector was full. |
| Vectors.MyVector.Insert | Data_Structures/Assignment2/nm4358/myvector.h:117-138 | `out_of_range` with nothing changed unless `0 <= index <= size`. Otherwise the element is inserted at `index`, and the capacity grows only when the vector was full. |
| Vectors.MyVector.ShiftUp | Data_Structures/Assignment2/nm4358/myvector.h:133-135 | The slots from `index` on move up by one; those before stay. |
| Vectors.MyVector.Erase | Data_Structures/Assignment2/nm4358/myvector.h:141-151 | `out_of_range` with nothing changed unless `0 <= index < size`. Otherwise the element at `index` is removed; the capacity is unchanged. |
| Vectors.MyVector.ShiftDown | Data_Structures/Assignment2/nm4358/myvector.h:147-149 | The slots after `index` move down by one; those before stay. |
| Vectors.MyVector.Get | Data_Structures/Assignment2/nm4358/myvector.h:154-161 | The element at `index`, or `out_of_range` exactly when the index is outside the elements. |
| Vectors.MyVector.At | Data_Structures/Assignment2/nm4358/myvector.h:164-171 | The same checked access as `operator[]`. |
| Vectors.MyVector.Front | Data_Structures/Assignment2/nm4358/myvector.h:174-181 | The first element, or `out_of_range` exactly when empty. |
| Vectors.MyVector.Back | Data_Structures/Assignment2/nm4358/myvector.h:184-191 | The last element, or `out_of_range` exactly when empty. |
| Vectors.MyVector.ShrinkToFit | Data_Structures/Assignment2/nm4358/myvector.h:194-206 | The elements stay; the capacity drops to the size when it was larger. |
| Vectors.Example | Data_Structures/Assignment2/nm4358/myvector.h:100-171 | Three pushes, an insert and an erase leave `[9, 2, 3]` in capacity 4, and `at(3)` is out of range. |
| LinkedLists.IndexOf | Data_Structures/Assignment3/nm4358/linkedlist.cpp:78-91 | The first node with the key, and none exactly when no node has it. |
| LinkedLists.Upsert | Data_Structures/Assignment3/nm4358/linkedlist.cpp:50-75 | The list grows by one node exactly when the key was absent. |
| LinkedLists.UpsertFinds | Data_Structures/Assignment3/nm4358/linkedlist.cpp:50-75 | Keys stay distinct and the key then maps to the new value. An existing node keeps its place and frequency; a new node goes last with the initial frequency. |
| LinkedLists.UpsertKeepsOthers | Data_Structures/Assignment3/nm4358/linkedlist.cpp:50-75 | Every other key keeps its position and its node. |
| LinkedLists.Node.constructor | Data_Structures/Assignment3/nm4358/linkedlist.cpp:11 | A node with the key and value, the initial frequency and no successor. |
| LinkedLists.Node.SetKey | Data_Structures/Assignment3/nm4358/linkedlist.cpp:23-25 | Only the key changes. |
| LinkedLists.Node.SetValue | Data_Structures/Assignment3/nm4358/linkedlist.cpp:27-29 | Only the value changes. |
| LinkedLists.LinkedList.constructor | Data_Structures/Assignment3/nm4358/linkedlist.cpp:32 | An empty list of size 0. |
| LinkedLists.LinkedList.Empty | Data_Structures/Assignment3/nm4358/linkedlist.cpp:40-42 | True exactly when the list has no entries. |
| LinkedLists.LinkedList.GetSize | Data_Structures/Assignment3/nm4358/linkedlist.cpp:45-47 | The number of entries. |
| LinkedLists.LinkedList.Locate | Data_Structures/Assignment3/nm4358/linkedlist.cpp:51-62 | The walk stops at the first node with the key, or runs off the end, with `prev` the node before. |
| LinkedLists.LinkedList.Insert | Data_Structures/Assignment3/nm4358/linkedlist.cpp:50-75 | The entries become `Upsert`. An existing key keeps the same nodes and size; a new key adds one fresh node at the end. |
| LinkedLists.LinkedList.Overwrite | Data_Structures/Assignment3/nm4358/linkedlist.cpp:55-59 | Only the found node's value changes. |
| LinkedLists.LinkedList.Append | Data_Structures/Assignment3/nm4358/linkedlist.cpp:65-74 | A fresh node with the initial frequency is linked after the last node, or becomes the head. |
| LinkedLists.LinkedList.Find | Data_Structures/Assignment3/nm4358/linkedlist.cpp:78-91 | The first node with the key, or null exactly when the key is absent. |
| LinkedLists.LinkedList.Clear | Data_Structures/Assignment3/nm4358/linkedlist.cpp:94-105 | Every node is released, and the list is empty with size 0. |
| MaxHeap.Parent | Data_Structures/Assignment3/nm4358/maxheap.cpp:105-109 | Below slot 1 a slot's parent is an earlier slot of which it is a child. |
| MaxHeap.Left | Data_Structures/Assignment3/nm4358/maxheap.cpp:111-115 | The left child is a later slot whose parent is the slot. |
| MaxHeap.Right | Data_Structures/Assignment3/nm4358/maxheap.cpp:117-121 | The right child follows the left child and has the same parent. |
| MaxHeap.HeapRootIsMax | Data_Structures/Assignment3/nm4358/maxheap.cpp:96-103 | In a heap no bucket is larger than the root's. |
| MaxHeap.RootIsMaxOfAll | Data_Structures/Assignment3/nm4358/maxheap.cpp:96-103 | `getMax` returns a largest bucket of the heap. |
| MaxHeap.Biggest | Data_Structures/Assignment3/nm4358/maxheap.cpp:132-151 | The corrected choice: the largest of a node and its children, moving only to a strictly larger child. |
| MaxHeap.BiggestAsWritten | Data_Structures/Assignment3/nm4358/maxheap.cpp:140-145 | As written: it stays exactly when the corrected choice stays, but it may move to the smaller child. |
| MaxHeap.RemoveMaxAsWrittenBreaksHeap | Data_Structures/Assignment3/nm4358/maxheap.cpp:79-94 | With sizes 9, 5, 3, 1 the heap `[_, 0, 1, 2, 3]` becomes `[_, 2, 1, 3]` after `removeMax` as written, which is not a heap. |
| MaxHeap.BubbleDownAsWritten | Data_Structures/Assignment3/nm4358/maxheap.cpp:132-151 | `bubbledown` as written keeps the heap's size and slot 0, and moves only valid bucket numbers. |
| MaxHeap.RemoveMaxAsWritten | Data_Structures/Assignment3/nm4358/maxheap.cpp:79-94 | `removeMax` as written shrinks the heap by one slot and keeps slot 0 and the bucket numbers valid. |
| MaxHeap.DrainedAsWritten | Data_Structures/Assignment3/nm4358/maxheap.cpp:157-171 | Removing the maximum as written until the heap is empty yields one valid bucket per slot. |
| MaxHeap.BubbleUpPermutes | Data_Structures/Assignment3/nm4358/maxheap.cpp:123-130 | `bubbleup` only reorders the heap. |
| MaxHeap.BubbleUpRepairs | Data_Structures/Assignment3/nm4358/maxheap.cpp:123-130 | `bubbleup` from the one out-of-place slot makes a heap. |
| MaxHeap.BubbleDownPermutes | Data_Structures/Assignment3/nm4358/maxheap.cpp:132-151 | The corrected `bubbledown` only reorders the heap. |
| MaxHeap.BubbleDownAsWrittenPermutes | Data_Structures/Assignment3/nm4358/maxheap.cpp:132-151 | `bubbledown` as written only reorders the heap. |
| MaxHeap.BubbleDownRepairs | Data_Structures/Assignment3/nm4358/maxheap.cpp:132-151 | The corrected `bubbledown` from the one out-of-place slot makes a heap. |
| MaxHeap.InsertKeepsHeap | Data_Structures/Assignment3/nm4358/maxheap.cpp:72-77 | `insert` adds exactly the new bucket and keeps a heap a heap. |
| MaxHeap.RemoveMaxAsWrittenTakesRoot | Data_Structures/Assignment3/nm4358/maxheap.cpp:79-94 | `removeMax` as written takes out exactly the root, and from a heap leaves nothing larger than what it took. |
| MaxHeap.RemoveMaxTakesRoot | Data_Structures/Assignment3/nm4358/maxheap.cpp:79-94 | The corrected `removeMax` takes out exactly the root, keeps a heap a heap, and leaves nothing larger than what it took. |
| MaxHeap.DrainedAsWrittenPermutes | Data_Structures/Assignment3/nm4358/maxheap.cpp:157-171 | The sequence `heapSort` drains as written holds exactly the heap's buckets. |
| MaxHeap.DrainedAsWrittenFirstIsMax | Data_Structures/Assignment3/nm4358/maxheap.cpp:157-171 | Drained as written from a heap, the first bucket out is a largest one. |
| MaxHeap.SortAsWrittenUnordered | Data_Structures/Assignment3/nm4358/maxheap.cpp:157-171 | With sizes 9, 5, 3, 1 the heap `[_, 0, 1, 2, 3]` drains as written to buckets 0, 2, 1, 3: not by non-increasing size. |
| MaxHeap.DrainedPermutes | Data_Structures/Assignment3/nm4358/maxheap.cpp:157-171 | The corrected drain holds exactly the heap's buckets. |
| MaxHeap.DrainedDescending | Data_Structures/Assignment3/nm4358/maxheap.cpp:157-171 | Drained from a heap with the corrected `removeMax`, the buckets come out by non-increasing size. |
| MaxHeap.Heap.constructor | Data_Structures/Assignment3/nm4358/maxheap.cpp:64-67 | The heap holds only its unused slot 0. |
| MaxHeap.Heap.BubbleUp | Data_Structures/Assignment3/nm4358/maxheap.cpp:123-130 | The loop computes `BubbleUpResult`. |
| MaxHeap.Heap.Insert | Data_Structures/Assignment3/nm4358/maxheap.cpp:72-77 | Append then `bubbleup`. |
| MaxHeap.Heap.BubbleDown | Data_Structures/Assignment3/nm4358/maxheap.cpp:132-151 | The loop as written computes `BubbleDownAsWritten` and keeps the heap's buckets. |
| MaxHeap.Heap.RemoveMax | Data_Structures/Assignment3/nm4358/maxheap.cpp:79-94 | `out_of_range` with nothing changed on an empty heap; otherwise returns the root and the heap becomes `RemoveMaxAsWritten`. |
| MaxHeap.Heap.GetMax | Data_Structures/Assignment3/nm4358/maxheap.cpp:96-103 | The root, or `out_of_range` on an empty heap. |
| MaxHeap.Heap.DrainAll | Data_Structures/Assignment3/nm4358/maxheap.cpp:163-166 | Repeated `removeMax` as written empties the heap into the order `DrainedAsWritten`. |
| MaxHeap.Heap.Sort | Data_Structures/Assignment3/nm4358/maxheap.cpp:157-171 | The slots are refilled with the as-written drain order, which holds exactly the heap's buckets; by `SortAsWrittenUnordered` it need not be largest-first. |
| HashTables.HashCode | Data_Structures/Assignment3/nm4358/hashtable.cpp:33-72 | `invalid_argument` exactly when the function number is outside 1..6; otherwise an index below the capacity. |
| HashTables.Hash | Data_Structures/Assignment3/nm4358/hashtable.cpp:33-66 | Each of the six hash functions yields an `unsigned long`, below 2^64; for the empty key it is the starting value, 5381 for djb2 and 0 for the others. |
| HashTables.RollingIsPolynomial | Data_Structures/Assignment3/nm4358/hashtable.cpp:35-50 | The multiply-and-add loops compute the polynomial hash modulo 2^64. |
| HashTables.Djb2IsPolynomial | Data_Structures/Assignment3/nm4358/hashtable.cpp:51-56 | The shift-and-add hash is the polynomial hash with seed 5381 and base 33. |
| HashTables.SdbmIsPolynomial | Data_Structures/Assignment3/nm4358/hashtable.cpp:57-61 | The shift-and-subtract hash is the polynomial hash with seed 0 and base 65599. |
| HashTables.Lower | Data_Structures/Assignment3/nm4358/hashtable.cpp:166-169 | `tolower` leaves no upper-case letter and keeps a character's being punctuation. |
| HashTables.DropLeading | Data_Structures/Assignment3/nm4358/hashtable.cpp:153-157 | Trimming the front leaves a word empty or starting with a non-punctuation character. |
| HashTables.DropTrailing | Data_Structures/Assignment3/nm4358/hashtable.cpp:158-162 | Trimming the back leaves a word empty or ending with a non-punctuation character. |
| HashTables.TrimWord | Data_Structures/Assignment3/nm4358/hashtable.cpp:151-164 | The two trimming loops remove the leading, then the trailing, punctuation. |
| HashTables.LowerInPlace | Data_Structures/Assignment3/nm4358/hashtable.cpp:166-169 | The loop lower-cases every character. |
| HashTables.CleanWord | Data_Structures/Assignment3/nm4358/hashtable.cpp:144-169 | The word `import` counts: trimmed, then lower-cased. |
| HashTables.CleanedEnds | Data_Structures/Assignment3/nm4358/hashtable.cpp:144-169 | A cleaned word has no upper-case letter and neither starts nor ends with punctuation. |
| HashTables.CleanedIdempotent | Data_Structures/Assignment3/nm4358/hashtable.cpp:144-169 | Cleaning a cleaned word changes nothing. |
| HashTables.CountOnce | Data_Structures/Assignment3/nm4358/hashtable.cpp:107 | `setValue(freq++)` stores the old frequency as the value and raises the frequency by one. |
| HashTables.CountedFreq | Data_Structures/Assignment3/nm4358/hashtable.cpp:90-120 | Counting a word in its bucket raises its frequency by one and no other word's. |
| HashTables.InsertCounts | Data_Structures/Assignment3/nm4358/hashtable.cpp:90-120 | In the whole table the word's frequency rises by one and no other's. Its frequency was 0 exactly when the bucket lacked it, and the total of bucket sizes rises by one. |
| HashTables.AddWordKeepsTable | Data_Structures/Assignment3/nm4358/hashtable.cpp:95-104 | Adding a new word and inserting its bucket into the heap keeps the table invariant. |
| HashTables.CountAgainKeepsTable | Data_Structures/Assignment3/nm4358/hashtable.cpp:105-112 | Counting a known word and the `bubbleup` that follows keep the table invariant. |
| HashTables.ReorderKeepsTable | Data_Structures/Assignment3/nm4358/hashtable.cpp:178-181 | Reordering the heap's buckets keeps the table invariant. |
| HashTables.OccurrencesBounded | Data_Structures/Assignment3/nm4358/hashtable.cpp:136-187 | A word occurs in an import no more often than the number of words counted, and the empty word never. |
| HashTables.ImportAsWrittenMissesMax | Data_Structures/Assignment3/nm4358/hashtable.cpp:178-181 | Importing `b a a` into 2 buckets with function 1 leaves, as written, the smaller bucket of `b` on top: not a heap. |
| HashTables.HashTable.constructor | Data_Structures/Assignment3/nm4358/hashtable.cpp:22-31 | `capacity` empty buckets, zero counters, hash function 1, and an empty heap. |
| HashTables.HashTable.GetUniqueWords | Data_Structures/Assignment3/nm4358/hashtable.cpp:80-83 | The number of distinct words is the number of buckets in the heap. |
| HashTables.HashTable.GetTotalWords | Data_Structures/Assignment3/nm4358/hashtable.cpp:85-88 | The total is the sum of the bucket sizes. |
| HashTables.HashTable.GetCollisions | Data_Structures/Assignment3/nm4358/hashtable.cpp:75-78 | The collision count is the number of distinct words minus the number of non-empty buckets: each distinct word after the first of its bucket counted one collision. |
| HashTables.HashTable.AddWord | Data_Structures/Assignment3/nm4358/hashtable.cpp:95-104 | A new word is counted, the distinct-word count rises by one, a collision is counted when the bucket already held a word, and the bucket joins the heap; collisions plus non-empty buckets stay equal to the distinct words. |
| HashTables.HashTable.CountAgain | Data_Structures/Assignment3/nm4358/hashtable.cpp:105-112 | A known word is counted again; the heap is bubbled up from slot `unique_words - 1` as written. |
| HashTables.HashTable.Insert | Data_Structures/Assignment3/nm4358/hashtable.cpp:90-120 | `invalid_argument` with nothing changed for a bad hash function. Otherwise the total rises by one and the word's frequency by one, other words' frequencies stay, and the distinct-word count rises exactly for a new word. The word is counted in its own bucket and no other bucket changes. A new word counts a collision exactly when its bucket then holds more than one word, and its bucket joins the heap; a known word bubbles up slot `unique_words - 1`. |
| HashTables.HashTable.ImportWord | Data_Structures/Assignment3/nm4358/hashtable.cpp:144-174 | The cleaned word, when non-empty, is counted once; nothing else is counted. |
| HashTables.HashTable.RestoreHeap | Data_Structures/Assignment3/nm4358/hashtable.cpp:178-181 | The corrected repair reorders the heap's buckets into a heap. |
| HashTables.HashTable.Import | Data_Structures/Assignment3/nm4358/hashtable.cpp:136-187 | A missing file changes nothing. Otherwise the total rises by the number of non-empty cleaned words and each word's frequency by its occurrences. It ends with the as-written repair loop, which keeps the table invariant but need not leave a heap (`ImportAsWrittenMissesMax`). |
| HashTables.HashTable.RepairHeap | Data_Structures/Assignment3/nm4358/hashtable.cpp:178-181 | The loop of bubbledown then bubbleup over slots `1 .. unique_words/2 - 1`, as written, computes `RepairAsWritten` and only reorders the heap's buckets. |
| HashTables.RepairAsWrittenPermutes | Data_Structures/Assignment3/nm4358/hashtable.cpp:178-181 | The as-written repair only reorders the heap's buckets. |
| HashTables.HashTable.FindFreq | Data_Structures/Assignment3/nm4358/hashtable.cpp:122-134 | 0 for the empty word, `invalid_argument` for a bad hash function, else the word's frequency. |
| HashTables.HashTable.FindMax | Data_Structures/Assignment3/nm4358/hashtable.cpp:189-191 | `out_of_range` exactly when no word was counted. Otherwise it returns the first word of the root bucket, which occurs at least once; when the heap holds, that bucket is a largest one. |
| IntegerRanges.BitNotComplement | CSO/Hw1/3.1.c:8 | `~x` of a `w`-bit pattern is its complement to all ones. |
| IntegerRanges.BitNotNegates | CSO/Hw1/3.1.c:20 | Read as signed, `~x` is `-x - 1`. |
| IntegerRanges.AsSigned | CSO/Hw1/3.1.c:7-22 | The two's complement reading lies in the signed range and is `x` or `x - 2^w`. |
| IntegerRanges.SignedRange | CSO/Hw1/3.1.c:7-22 | For every width `w` up to 32, the shift-and-NOT computation of the signed bounds gives `-2^(w-1)` and `2^(w-1) - 1`. |
| IntegerRanges.UnsignedRange | CSO/Hw1/3.1.c:7-22 | For every width `w` up to 32, the unsigned bounds computed from `~0` are `0` and `2^w - 1`. |
| IntegerRanges.SignExtend | CSO/Hw1/3.1.c:8 | Promotion to a wider type keeps the signed value. |
| IntegerRanges.SignedCharLimits | CSO/Hw1/3.1.c:7-8 | The computed `signed char` range is `SCHAR_MIN..SCHAR_MAX`, and every `signed char` lies in it. |
| IntegerRanges.UnsignedCharLimits | CSO/Hw1/3.1.c:9-10 | The computed `unsigned char` range is `0..UCHAR_MAX`. |
| IntegerRanges.SignedShortLimits | CSO/Hw1/3.1.c:13-14 | The computed `short` range is `SHRT_MIN..SHRT_MAX`, and every `short` lies in it. |
| IntegerRanges.UnsignedShortLimits | CSO/Hw1/3.1.c:15-16 | The computed `unsigned short` range is `0..USHRT_MAX`. |
| IntegerRanges.SignedIntLimits | CSO/Hw1/3.1.c:19-20 | The computed `int` range is `INT_MIN..INT_MAX`, and every `int` lies in it. |
| IntegerRanges.UnsignedIntLimits | CSO/Hw1/3.1.c:21-22 | The computed `unsigned int` range is `0..UINT_MAX`. |
| MergeFromBack.MergeBackPermutes | CSO/Hw1/3.2.c:6-23 | The merge holds exactly the elements of both inputs. |
| MergeFromBack.MergeBackSorted | CSO/Hw1/3.2.c:6-23 | Merging two sorted inputs gives a sorted result. |
| MergeFromBack.MergeUpToSorted | CSO/Hw1/3.2.c:12-17 | Every partial merge of sorted inputs is sorted. |
| MergeFromBack.MergeUpTo | CSO/Hw1/3.2.c:12-17 | The merge of the first `i` elements of `a` and the first `j` of `b` has `i + j` elements; `MergeUpToSorted` and `VisitsPrefix` relate it to the whole merge. |
| MergeFromBack.MergeBack | CSO/Hw1/3.2.c:6-23 | The whole merge has as many elements as both inputs together; `MergeBackPermutes` and `MergeBackSorted` give its contents and order. |
| MergeFromBack.MergeFromBack | CSO/Hw1/3.2.c:6-23 | The first `m + n` slots of `a` become the merge of its first `m` elements with the first `n` of `b`; the rest of `a` is unchanged. |
| MergeFromBack.CopyRest | CSO/Hw1/3.2.c:19-21 | The copy loop fills the front of `a` with what remains of `b`, as the merge places it. |
| MergeFromBack.ExampleMerge | CSO/Hw1/3.2.c:25-43 | The merge of the odd numbers 1..9 and the even numbers 2..10 is 1..10. |
| MergeFromBack.MergeExample | CSO/Hw1/3.2.c:25-43 | Running the merge on the program's two arrays yields 1..10. |
| FindById.Mystery | CSO/HW2/Question1.c:19-27 | The name of the first node with the id, or NULL when no node has it. Requires an acyclic chain or a node with the id. |
| FindById.SelfLinked | CSO/HW2/Question1.c:9-17 | The node `main` builds has id 10, a NULL name and itself as successor. |
| FindById.SelfLinkedLookup | CSO/HW2/Question1.c:9-27 | Searching that node for its own id returns its NULL name. |
| FindById.SelfLinkedNeverEnds | CSO/HW2/Question1.c:20-25 | On a self-linked node with another id, every number of steps of the walk is back at the same node, so `mystery` never returns. |
| FrontInsertList.InsertFront | CSO/HW2/Question2.c:11-20 | The head becomes a fresh node with the value whose successor is the old head; the list's values gain the value in front. |
| FrontInsertList.IsListDistinct | CSO/HW2/Question2.c:33-40 | The nodes of a NULL-terminated list are pairwise distinct. |
| FrontInsertList.ArrowsAppend | CSO/HW2/Question2.c:23-30 | Printing two lists one after the other prints their concatenation. |
| FrontInsertList.PrintList | CSO/HW2/Question2.c:23-30 | The output is each value followed by ` -> `, then `NULL` and a newline. |
| FrontInsertList.FreeList | CSO/HW2/Question2.c:33-40 | Every node is freed exactly once, in list order. |
| FrontInsertList.ExampleRendered | CSO/HW2/Question2.c:50 | The list 2, 1, 0 prints as `2 -> 1 -> 0 -> NULL`. |
| FrontInsertList.Example | CSO/HW2/Question2.c:42-56 | The program prints `2 -> 1 -> 0 -> NULL`. |

## Left out

- Console and file I/O are not modelled.
  - The `cin` prompts of `lcms.cpp` become parameters.
  - The file loops of `import` and `exportData` are not modelled; one line's parsing and writing are.
  - Every `cout` message, the listing functions (`listBooks`, `listCurrentBorrowers`, `listAllBorrowers`, `display`, `print`), `findAll` and `Heap::print` only print and are left out.
  - `LCMS::findBook` prints the book it finds; its search is `Trees.FindBook`.
  - The word file of `HashTable::import` is given as its sequence of words, or `None` when it does not open.
- Destructors, `delete`, `free` and the `malloc` failure branch are not modelled. Memory is unbounded.
  - `FreeList` and `LinkedList.Clear` return the nodes they would release.
- `LibrarySystem.Lcms.AddBook`: the prompt loops that repeat until a title is non-empty and a year lies in 1..2024 (lines 235-247) are modelled as a precondition with those bounds.
- `LibrarySystem.Lcms.EditBook`: the menu loop (lines 312-348) is modelled by the six values finally entered, with the sentinels of lines 309-310 for fields left alone.
- `LibrarySystem.Lcms.AddBook` looks for the same edition before creating the category node. The source looks after. By `SameEditionNeedsCategory` and `SameEditionInPlace` the outcome is the same.
- `removeCategory` does not adjust book counts or delete the subtree's books. The model does the same and states nothing about counts there.
- `LibrarySystem.Lcms.RemoveBook` asks for confirmation. The typed answer is a parameter, and only `yes` removes.
- Integer overflow of the C++ `int` counters (copies, counts, frequencies) is not modelled. The counters are unbounded. Only the `>>` reads of `import` check the `int` range: they saturate as `Csv.ReadInt` states.
  - The hash functions do model the 64-bit `unsigned long` wrap-around (`% 2^64`), and `char` as signed.
- `HashTables.HashCode` requires a positive capacity, since `% 0` is undefined in C++.
- `HashTables.HashTable.Import` requires every word of the file to be non-empty, as `file >> word` never yields an empty one.
- The third branch of `HashTable::insert` (lines 113-117) is proved unreachable: the model's branch is `assert false`, because `find` returns only a node with the word.
- `getCollisions` (lines 75-78) is the read of the field `collisions`.
- The heap of `maxheap.cpp` holds `LinkedList*` bucket pointers, compared by size. The model holds bucket indices with the sizes passed in.
- `linkedlist.h` and `hashtable.h` are not part of this model. The node's initial frequency (`INITIAL_FREQ`, 1) and the punctuation set are taken from their use in `hashtable.cpp`.
- `FindById.Mystery` requires an acyclic chain or a node with the id. On any other input it never returns; `SelfLinkedNeverEnds` shows this on the program's own node.
- `MergeFromBack.MergeFromBack` requires `a` and `b` to be different arrays.
- The category tree is a value held in the `root` field of a `Tree` object, and a `Node*` is the node's address from the root. So the model does not capture aliasing between node pointers, and `getNode` is the pure `Trees.Lookup`.
- `IntegerRanges` computes the limits for 8-bit `char`, 16-bit `short` and 32-bit `int`, the sizes `sizeof` gives on the usual platforms. The `printf` calls are left out.
  - In C, `1 << 31` on an `int` is undefined, and the narrowing conversions of lines 7 and 13 are implementation-defined. The model fixes the two's complement wrap-around that gcc gives.
- `MaxHeap.BubbleDownPermutes`: stated for the corrected `bubbledown`; the heap class runs the code as written, whose counterpart is `BubbleDownAsWrittenPermutes`.
- `MaxHeap.BubbleDownRepairs`: stated for the corrected `bubbledown`; as written it need not repair a heap (`RemoveMaxAsWrittenBreaksHeap`).
- `MaxHeap.RemoveMaxTakesRoot`: stated for the corrected `removeMax`; as written, `RemoveMaxAsWrittenTakesRoot` keeps the buckets and the root's maximality, but a heap need not stay a heap (`RemoveMaxAsWrittenBreaksHeap`).
- `MaxHeap.DrainedPermutes`: stated for the corrected drain; the as-written drain of `Heap.Sort` is covered by `DrainedAsWrittenPermutes`.
- `MaxHeap.DrainedDescending`: stated for the corrected drain; as written only the first bucket out is a largest one (`DrainedAsWrittenFirstIsMax`), and `SortAsWrittenUnordered` shows the rest need not be in order.
- `HashTables.HashTable.Import` does not promise a heap at the end, since the repair as written does not make one (`ImportAsWrittenMissesMax`). The corrected repair is `HashTable.RestoreHeap`.

## Findings

| source | as written | input that shows it | evidently intended | confidence | as-written member | corrected member |
|---|---|---|---|---|---|---|
| Data_Structures/Assignment3/nm4358/maxheap.cpp:140-145 | `bubbledown` compares the right child with the node's original size, not with the larger of the node and the left child | sizes 9, 5, 3, 1 and heap `[_, 0, 1, 2, 3]`: `removeMax` leaves `[_, 2, 1, 3]`, where bucket 2 (size 3) is above bucket 1 (size 5) | move to the largest of the node and both children | not executed | MaxHeap.RemoveMaxAsWrittenBreaksHeap | MaxHeap.BubbleDownRepairs |
| Data_Structures/Assignment3/nm4358/hashtable.cpp:178-181 | a repeated word bubbles up slot `unique_words - 1`, not its own bucket's slot, and the final loop bubbles down only slots `1 .. unique_words/2 - 1` | words `b a a`, capacity 2, hash function 1: bucket of `b` (size 1) stays above bucket of `a` (size 2), so `findMax` returns `b` | the heap ordered by bucket size after the import | not executed | HashTables.ImportAsWrittenMissesMax | HashTables.HashTable.RestoreHeap |
| Data_Structures/Assignment2/nm4358/lcms.cpp:438 | the loop over the borrower's books runs while `i > size()`, which never holds | borrow a book by id 7, then return it: the book lists no current borrower but the borrower still holds it | erase the returned book from the borrower's list | not executed | LibrarySystem.Lcms.ReturnBookAsWritten | LibrarySystem.Lcms.ReturnBook |
| Data_Structures/Assignment2/nm4358/lcms.cpp:537-541 | `addCategory` creates nodes without setting their parent pointer | add category `Fiction`, then remove it: `removeCategory` refuses it as the root | nodes linked to their parent, as `Tree::insert` does | not executed | LibrarySystem.AddedCategoryStuck | LibrarySystem.AddThenRemove |
