/** The bookmark list of the `BookmarkManager` component: the `Book`
    record, adding a book from the form, deleting by id, and the search
    filter, with the component state as a class. */
module Bookmarks {
  import opened AsciiText
  import opened Sequences
  import opened TagParsing

  datatype Book = Book(
    id: string,
    title: string,
    author: string,
    description: string,
    link: string,
    tags: seq<string>,
    dateAdded: string)

  /** The five text fields of the "Add New Book" form. */
  datatype FormData = FormData(
    title: string,
    author: string,
    description: string,
    link: string,
    tags: string)

  const EMPTY_FORM: FormData := FormData("", "", "", "", "")

  /** The form inputs, one per field of `FormData`. */
  datatype FormField = TitleField | AuthorField | DescriptionField | LinkField | TagsField

  /** `{ ...f, [field]: value }`: the named field becomes `value`, the
      other four keep their text. */
  function WithField(f: FormData, field: FormField, value: string): (g: FormData)
    ensures g.title == if field == TitleField then value else f.title
    ensures g.author == if field == AuthorField then value else f.author
    ensures g.description == if field == DescriptionField then value else f.description
    ensures g.link == if field == LinkField then value else f.link
    ensures g.tags == if field == TagsField then value else f.tags
  {
    match field
    case TitleField => f.(title := value)
    case AuthorField => f.(author := value)
    case DescriptionField => f.(description := value)
    case LinkField => f.(link := value)
    case TagsField => f.(tags := value)
  }

  /** The check `handleSubmit` makes before adding: title, author and link
      must not be the empty string. Whitespace-only text passes, and the
      cleared form never does. */
  predicate HasRequiredFields(f: FormData)
    ensures HasRequiredFields(f) ==> f != EMPTY_FORM
  {
    f.title != "" && f.author != "" && f.link != ""
  }

  /** A book as only `handleSubmit` can create it. */
  predicate WellFormed(b: Book) {
    b.title != "" && b.author != "" && b.link != ""
    && forall i :: 0 <= i < |b.tags| ==> IsCleanTag(b.tags[i])
  }

  /** The record `handleSubmit` builds from the form; the id and the
      timestamp come from the clock in the source and are given here. */
  function NewBook(f: FormData, id: string, dateAdded: string): (b: Book)
    requires HasRequiredFields(f)
    ensures WellFormed(b)
    ensures b.tags == ParseTags(f.tags)
    ensures (b.id, b.dateAdded) == (id, dateAdded)
    ensures (b.title, b.author, b.description, b.link) == (f.title, f.author, f.description, f.link)
  {
    Book(id, f.title, f.author, f.description, f.link, ParseTags(f.tags), dateAdded)
  }

  // ---------------------------------------------------------------------
  // Delete by id

  /** `books.filter(book => book.id !== id)`. */
  function RemoveById(books: seq<Book>, id: string): (r: seq<Book>)
    ensures |r| <= |books|
    ensures forall i :: 0 <= i < |r| ==> r[i].id != id && r[i] in books
  {
    Filter(books, (b: Book) => b.id != id)
  }

  /** Deleting keeps every other book, as often as it occurs, in its
      original relative order. */
  lemma RemoveByIdKeepsOthers(books: seq<Book>, id: string)
    ensures IsSubsequence(RemoveById(books, id), books)
    ensures forall b: Book :: b.id != id ==> multiset(RemoveById(books, id))[b] == multiset(books)[b]
  {
    FilterIsSubsequence(books, (b: Book) => b.id != id);
    forall b: Book | b.id != id
      ensures multiset(RemoveById(books, id))[b] == multiset(books)[b]
    {
      FilterCount(books, (b: Book) => b.id != id, b);
    }
  }

  /** Deleting an id no book has changes nothing. */
  lemma RemoveAbsentId(books: seq<Book>, id: string)
    requires forall i :: 0 <= i < |books| ==> books[i].id != id
    ensures RemoveById(books, id) == books
  {
    FilterAllAccepted(books, (b: Book) => b.id != id);
  }

  /** Deleting the same id twice is deleting it once. */
  lemma RemoveByIdIdempotent(books: seq<Book>, id: string)
    ensures RemoveById(RemoveById(books, id), id) == RemoveById(books, id)
  {
    RemoveAbsentId(RemoveById(books, id), id);
  }

  /** No two books share an id. */
  predicate IdsUnique(books: seq<Book>) {
    forall i, j :: 0 <= i < j < |books| ==> books[i].id != books[j].id
  }

  /** When ids are unique, deleting an id that is present removes exactly
      one book. */
  lemma {:induction false} RemovePresentIdShrinksByOne(books: seq<Book>, id: string)
    requires IdsUnique(books)
    requires exists i :: 0 <= i < |books| && books[i].id == id
    ensures |RemoveById(books, id)| == |books| - 1
  {
    var rest := books[1..];
    if books[0].id == id {
      RemoveAbsentId(rest, id);
    } else {
      var i :| 0 <= i < |books| && books[i].id == id;
      assert rest[i - 1].id == id;
      RemovePresentIdShrinksByOne(rest, id);
    }
  }

  /** Deleting the id of a book just added, when no other book has it,
      gives back the list as it was before the add. */
  lemma RemoveUndoesPrepend(b: Book, books: seq<Book>)
    requires forall i :: 0 <= i < |books| ==> books[i].id != b.id
    ensures RemoveById([b] + books, b.id) == books
  {
    FilterSkipsRejectedHead(b, books, (x: Book) => x.id != b.id);
    RemoveAbsentId(books, b.id);
  }

  // ---------------------------------------------------------------------
  // Search

  /** The `filteredBooks` test: the lower-cased term is included in the
      lower-cased title, the lower-cased author or some lower-cased tag. */
  predicate Matches(b: Book, term: string)
    ensures term == "" ==> Matches(b, term)
    ensures Matches(b, term) ==>
      |term| <= |b.title| || |term| <= |b.author| || exists i :: 0 <= i < |b.tags| && |term| <= |b.tags[i]|
  {
    var t := ToLower(term);
    Includes(ToLower(b.title), t)
    || Includes(ToLower(b.author), t)
    || exists i :: 0 <= i < |b.tags| && Includes(ToLower(b.tags[i]), t)
  }

  /** `sub` occurs in `s` as a contiguous piece. */
  ghost predicate IsSubstring(sub: string, s: string) {
    exists i :: OccursAt(s, sub, i)
  }

  /** `Matches` is the substring test the search box promises, ignoring the
      case of ASCII letters. */
  lemma MatchesIffSubstring(b: Book, term: string)
    ensures Matches(b, term) <==>
      IsSubstring(ToLower(term), ToLower(b.title))
      || IsSubstring(ToLower(term), ToLower(b.author))
      || exists i :: 0 <= i < |b.tags| && IsSubstring(ToLower(term), ToLower(b.tags[i]))
  {
    var t := ToLower(term);
    IncludesIffOccurs(ToLower(b.title), t);
    IncludesIffOccurs(ToLower(b.author), t);
    forall i | 0 <= i < |b.tags|
      ensures Includes(ToLower(b.tags[i]), t) <==> IsSubstring(t, ToLower(b.tags[i]))
    {
      IncludesIffOccurs(ToLower(b.tags[i]), t);
    }
  }

  /** `filteredBooks`. */
  function Search(books: seq<Book>, term: string): (r: seq<Book>)
    ensures |r| <= |books|
    ensures forall i :: 0 <= i < |r| ==> Matches(r[i], term) && r[i] in books
  {
    Filter(books, (b: Book) => Matches(b, term))
  }

  /** The search result is the order-preserving selection of exactly the
      matching books, each as often as it occurs. */
  lemma SearchIsFaithfulFilter(books: seq<Book>, term: string, b: Book)
    ensures IsSubsequence(Search(books, term), books)
    ensures b in Search(books, term) <==> b in books && Matches(b, term)
    ensures Matches(b, term) ==> multiset(Search(books, term))[b] == multiset(books)[b]
  {
    FilterIsSubsequence(books, (x: Book) => Matches(x, term));
    FilterMembership(books, (x: Book) => Matches(x, term), b);
    FilterCount(books, (x: Book) => Matches(x, term), b);
  }

  /** An empty search box shows every book. */
  lemma SearchEmptyTermKeepsAll(books: seq<Book>)
    ensures Search(books, "") == books
  {
    forall i | 0 <= i < |books|
      ensures Matches(books[i], "")
    {
      IncludesEmpty(ToLower(books[i].title));
    }
    FilterAllAccepted(books, (x: Book) => Matches(x, ""));
  }

  /** Typing the term in lower or upper case makes no difference. */
  lemma SearchIgnoresCaseOfTerm(books: seq<Book>, term: string)
    ensures Search(books, ToLower(term)) == Search(books, term)
    ensures Search(books, ToUpper(term)) == Search(books, term)
  {
    ToLowerIdempotent(term);
    ToLowerOfToUpper(term);
    FilterCongruent(books, (x: Book) => Matches(x, ToLower(term)), (x: Book) => Matches(x, term));
    FilterCongruent(books, (x: Book) => Matches(x, ToUpper(term)), (x: Book) => Matches(x, term));
  }

  /** A book tagged "sci-fi" is found by that tag in either case. */
  lemma SearchFindsTagInAnyCase(b: Book)
    requires b.tags == ["sci-fi"]
    ensures Search([b], "sci-fi") == [b]
    ensures Search([b], "SCI-FI") == [b]
  {
    assert ToLower("SCI-FI") == "sci-fi";
    assert ToLower("sci-fi") == "sci-fi";
    assert StartsWith("sci-fi", "sci-fi");
    assert Includes(ToLower(b.tags[0]), ToLower("sci-fi"));
    SearchIgnoresCaseOfTerm([b], "sci-fi");
    assert ToUpper("sci-fi") == "SCI-FI";
    FilterAllAccepted([b], (x: Book) => Matches(x, "sci-fi"));
  }

  // ---------------------------------------------------------------------
  // The component state

  /** The state of the `BookmarkManager` component. Each handler replaces
      a whole field, as `setBooks`, `setFormData`, `setIsDialogOpen` and
      `setSearchTerm` do. */
  class BookmarkManager {
    var books: seq<Book>
    var searchTerm: string
    var isDialogOpen: bool
    var formData: FormData

    /** Every book in the list was built by a successful add. */
    ghost predicate Valid()
      reads this
    {
      forall i :: 0 <= i < |books| ==> WellFormed(books[i])
    }

    /** The initial `useState` values. */
    constructor ()
      ensures Valid()
      ensures books == [] && searchTerm == "" && !isDialogOpen && formData == EMPTY_FORM
    {
      books := [];
      searchTerm := "";
      isDialogOpen := false;
      formData := EMPTY_FORM;
    }

    /** The books the page shows for the current search term: matching
        books from the list, and the whole list when the term is empty. */
    function FilteredBooks(): (r: seq<Book>)
      reads this
      ensures |r| <= |books|
      ensures forall i :: 0 <= i < |r| ==> Matches(r[i], searchTerm) && r[i] in books
      ensures searchTerm == "" ==> r == books
    {
      if searchTerm == "" then SearchEmptyTermKeepsAll(books); Search(books, searchTerm)
      else Search(books, searchTerm)
    }

    /** `handleSubmit`: on a form with title, author and link, prepend the
        new book, clear the form and close the dialog; otherwise change
        nothing. `added` tells which of the two happened. */
    method HandleSubmit(id: string, dateAdded: string) returns (added: bool)
      requires Valid()
      modifies this
      ensures Valid()
      ensures added <==> HasRequiredFields(old(formData))
      ensures added ==> books == [NewBook(old(formData), id, dateAdded)] + old(books)
      ensures added ==> formData == EMPTY_FORM && !isDialogOpen
      ensures !added ==> books == old(books) && formData == old(formData)
      ensures !added ==> isDialogOpen == old(isDialogOpen)
      ensures searchTerm == old(searchTerm)
    {
      if !HasRequiredFields(formData) {
        return false;
      }
      var newBook := NewBook(formData, id, dateAdded);
      books := [newBook] + books;
      formData := EMPTY_FORM;
      isDialogOpen := false;
      added := true;
    }

    /** `handleDelete`: drop every book with that id. */
    method HandleDelete(id: string)
      requires Valid()
      modifies this
      ensures Valid()
      ensures books == RemoveById(old(books), id)
      ensures formData == old(formData) && isDialogOpen == old(isDialogOpen)
      ensures searchTerm == old(searchTerm)
    {
      books := RemoveById(books, id);
    }

    /** The search box's `onChange`. */
    method SetSearchTerm(term: string)
      requires Valid()
      modifies this
      ensures Valid()
      ensures searchTerm == term
      ensures books == old(books) && formData == old(formData)
      ensures isDialogOpen == old(isDialogOpen)
    {
      searchTerm := term;
    }

    /** An input's `onChange`: `setFormData(prev => ({ ...prev, field: value }))`. */
    method SetFormField(field: FormField, value: string)
      requires Valid()
      modifies this
      ensures Valid()
      ensures formData == WithField(old(formData), field, value)
      ensures books == old(books) && searchTerm == old(searchTerm)
      ensures isDialogOpen == old(isDialogOpen)
    {
      formData := WithField(formData, field, value);
    }

    /** The dialog's `onOpenChange`, the "Add Book" trigger and "Cancel". */
    method SetDialogOpen(open: bool)
      requires Valid()
      modifies this
      ensures Valid()
      ensures isDialogOpen == open
      ensures books == old(books) && formData == old(formData)
      ensures searchTerm == old(searchTerm)
    {
      isDialogOpen := open;
    }
  }

  /** Types a title, an author and a link into the form, as a user of
      the "Add New Book" dialog does. */
  method FillRequiredFields(m: BookmarkManager, title: string, author: string, link: string)
    requires m.Valid()
    modifies m
    ensures m.Valid()
    ensures HasRequiredFields(m.formData) <==> title != "" && author != "" && link != ""
    ensures m.books == old(m.books) && m.searchTerm == old(m.searchTerm)
  {
    m.SetFormField(TitleField, title);
    m.SetFormField(AuthorField, author);
    m.SetFormField(LinkField, link);
  }

  /** Add book A, add book B, delete A: the list is first `[B, A]`, then
      `[B]`; a submit with an empty title is refused. */
  method AddAddDeleteScenario()
  {
    var m := new BookmarkManager();
    FillRequiredFields(m, "Dune", "Frank Herbert", "https://example.com/dune.pdf");
    var ok := m.HandleSubmit("1", "t1");
    assert ok;
    var a := m.books[0];
    assert m.books == [a] && a.id == "1";
    FillRequiredFields(m, "Emma", "Jane Austen", "C:\\Books\\emma.pdf");
    ok := m.HandleSubmit("2", "t2");
    assert ok;
    var b := m.books[0];
    assert m.books == [b, a] && b.id == "2";
    FillRequiredFields(m, "", "Nobody", "x");
    ok := m.HandleSubmit("3", "t3");
    assert !ok && m.books == [b, a];
    m.HandleDelete("1");
    assert m.books == [b] by {
      RemoveUndoesPrepend(a, []);
      assert [a] + [] == [a] && [b, a][1..] == [a];
    }
  }
}
