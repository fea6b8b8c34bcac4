/**
  The catalog store behind the web handlers: the persisted collection
  (library.json, read whole and rewritten whole), the add-book path with its
  validation and id policy, the search entry point, and the rule that a
  document holding nothing but whitespace loads as the empty collection.
 */
module Store {
  import opened Text
  import opened Catalog

  datatype Option<T> = None | Some(value: T)

  /** A form field as `request.form.get` returns it counts as given when it
      is present and not the empty string (Python truthiness). A field of
      spaces is given. */
  predicate Given(field: Option<string>)
    ensures Given(field) <==> field != None && field != Some("")
  {
    field.Some? && field.value != []
  }

  /** The three fields of the add-book form, as submitted. */
  datatype AddForm = AddForm(title: Option<string>, author: Option<string>, year: Option<string>)

  /** The fields of an admitted book, the year already converted to an integer. */
  datatype Entry = Entry(title: string, author: string, year: int)

  /** What the add-book handler answers: the "all fields required" error
      page, or a redirect to the listing after the collection was saved. */
  datatype AddOutcome = AllFieldsRequired | RedirectToIndex

  /** The validation of the add-book handler. The form is refused exactly
      when the title, the author or the year is missing or empty; otherwise
      the entry carries the submitted title and author and the year as
      `intOf` (Python's `int()`) converts it. */
  function Validate(form: AddForm, intOf: string -> int): (r: Option<Entry>)
    ensures r.None? <==> !Given(form.title) || !Given(form.author) || !Given(form.year)
    ensures r.Some? ==> r.value.title == form.title.value && r.value.title != []
    ensures r.Some? ==> r.value.author == form.author.value && r.value.author != []
    ensures r.Some? ==> r.value.year == intOf(form.year.value)
  {
    if !Given(form.title) || !Given(form.author) || !Given(form.year) then None
    else Some(Entry(form.title.value, form.author.value, intOf(form.year.value)))
  }

  /** The collection after admitting `e`: `n` records become `n + 1`, the
      first `n` unchanged, and the last is the new record with id `n + 1`
      and status "in stock". */
  function Appended(books: seq<Book>, e: Entry): (r: seq<Book>)
    ensures |r| == |books| + 1
    ensures r[..|books|] == books
    ensures r[|books|] == Book(|books| + 1, e.title, e.author, e.year, InStock)
  {
    books + [Book(|books| + 1, e.title, e.author, e.year, InStock)]
  }

  /** Every record's id is its 1-based position in the collection. */
  ghost predicate PositionalIds(books: seq<Book>) {
    forall i :: 0 <= i < |books| ==> books[i].id == i + 1
  }

  /** Positional ids are pairwise distinct. */
  lemma PositionalIdsAreDistinct(books: seq<Book>)
    requires PositionalIds(books)
    ensures forall i, j :: 0 <= i < j < |books| ==> books[i].id != books[j].id
  {
  }

  /** While ids are positional, the id `len + 1` given to a new record is
      carried by no record already stored, and the collection stays
      positional once the record is appended. */
  lemma NextIdIsFresh(books: seq<Book>, e: Entry)
    requires PositionalIds(books)
    ensures forall b :: b in books ==> b.id != |books| + 1
    ensures PositionalIds(Appended(books, e))
  {
  }

  /** Successive valid adds, one entry after the other. */
  function AddAll(books: seq<Book>, entries: seq<Entry>): (r: seq<Book>)
    ensures |r| == |books| + |entries|
    decreases |entries|
  {
    if entries == [] then books else AddAll(Appended(books, entries[0]), entries[1..])
  }

  /** Successive adds keep the stored records and place the `i`-th entry at
      position `|books| + i` with id `|books| + i + 1`. */
  lemma {:induction false} AddAllRecords(books: seq<Book>, entries: seq<Entry>)
    ensures AddAll(books, entries)[..|books|] == books
    ensures forall i :: 0 <= i < |entries| ==>
      AddAll(books, entries)[|books| + i] ==
        Book(|books| + i + 1, entries[i].title, entries[i].author, entries[i].year, InStock)
    decreases |entries|
  {
    if entries != [] {
      var next := Appended(books, entries[0]);
      AddAllRecords(next, entries[1..]);
      var r := AddAll(books, entries);
      assert r == AddAll(next, entries[1..]);
      assert r[..|books|] == r[..|next|][..|books|];
      forall i | 0 <= i < |entries|
        ensures r[|books| + i] ==
          Book(|books| + i + 1, entries[i].title, entries[i].author, entries[i].year, InStock)
      {
        if i == 0 {
          assert r[|books|] == r[..|next|][|books|];
        } else {
          assert entries[1..][i - 1] == entries[i];
        }
      }
    }
  }

  /** Starting from the empty collection, `k` successive valid adds give
      ids `1..k` in order, each id its record's 1-based position, all
      distinct, each record carrying its entry and status "in stock". */
  lemma SuccessiveAddsFromEmpty(entries: seq<Entry>)
    ensures |AddAll([], entries)| == |entries|
    ensures forall i :: 0 <= i < |entries| ==>
      AddAll([], entries)[i] ==
        Book(i + 1, entries[i].title, entries[i].author, entries[i].year, InStock)
    ensures PositionalIds(AddAll([], entries))
    ensures forall i, j :: 0 <= i < j < |entries| ==> AddAll([], entries)[i].id != AddAll([], entries)[j].id
  {
    AddAllRecords([], entries);
  }

  /** The rule for the text read from the document: it is stripped first;
      nothing left gives the empty collection without parsing, otherwise
      the stripped text goes to the JSON parser `parse` (None stands for a
      parse error). */
  function BooksFromContent(raw: string, parse: string -> Option<seq<Book>>): (r: Option<seq<Book>>)
    ensures AllSpace(raw) ==> r == Some([])
    ensures !AllSpace(raw) ==> r == parse(Strip(raw))
  {
    var content := Strip(raw);
    if content == [] then Some([]) else parse(content)
  }

  /** A document that is empty or holds only whitespace loads as the empty
      collection, whatever the parser would have said; any other document
      is handed to the parser as one non-empty slice without surrounding
      whitespace. */
  lemma WhitespaceDocumentLoadsEmpty(raw: string, parse: string -> Option<seq<Book>>)
    ensures AllSpace(raw) <==> BooksFromContent(raw, parse) == Some([]) && Strip(raw) == []
    ensures !AllSpace(raw) ==> Strip(raw) != [] && !IsSpace(Strip(raw)[0])
  {
  }

  /** The collection as held in the backing document, which the handlers
      read whole and overwrite whole. */
  class Library {
    var books: seq<Book>

    /** A library whose document holds `document`. */
    constructor (document: seq<Book>)
      ensures books == document
    {
      books := document;
    }

    /** Reads the whole collection. */
    method Load() returns (loaded: seq<Book>)
      ensures loaded == books
    {
      loaded := books;
    }

    /** Overwrites the whole collection. */
    method Save(updated: seq<Book>)
      modifies this
      ensures books == updated
    {
      books := updated;
    }

    /** The add-book handler on a submitted form. A form missing the title,
        the author or the year is refused and nothing is saved; otherwise
        the collection is loaded, the new record with id `len + 1` and
        status "in stock" is appended, and the collection is saved. */
    method AddBook(form: AddForm, intOf: string -> int) returns (outcome: AddOutcome)
      modifies this
      ensures outcome == AllFieldsRequired <==> Validate(form, intOf).None?
      ensures outcome == AllFieldsRequired ==> books == old(books)
      ensures outcome == RedirectToIndex ==> books == Appended(old(books), Validate(form, intOf).value)
      ensures PositionalIds(old(books)) ==> PositionalIds(books)
    {
      if !Given(form.title) || !Given(form.author) || !Given(form.year) {
        return AllFieldsRequired;
      }
      var current := Load();
      var newId := |current| + 1;
      var newBook := Book(newId, form.title.value, form.author.value, intOf(form.year.value), InStock);
      current := current + [newBook];
      Save(current);
      if PositionalIds(old(books)) {
        NextIdIsFresh(old(books), Validate(form, intOf).value);
      }
      return RedirectToIndex;
    }

    /** The search handler: loads the collection and filters it by the keyword. */
    method SearchBooks(keyword: string) returns (results: seq<Book>)
      ensures results == Search(books, keyword)
      ensures Subsequence(results, books)
    {
      var lowered := Lower(keyword);
      var current := Load();
      results := KeepMatching(current, lowered);
      SearchIsSubsequence(books, keyword);
    }
  }
}
