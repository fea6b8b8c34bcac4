# Library catalog: store, add-book rule and keyword search

This project models the catalog core of a small Flask library manager
(`app.py`). Book records live in one JSON document, `library.json`. The
handlers read that document whole, change the list in memory and write it
back whole. The model covers three pieces of that core:

- **Adding a book** (`add_book`). The form is refused when the title, the
  author or the year is missing or empty. Otherwise the collection is loaded.
  A record with id `len(books) + 1` and status `"in stock"` is appended at
  the end, and the whole collection is saved.
- **Keyword search** (`search_books`). The keyword is lower-cased once. The
  result keeps, in catalog order, every book whose lower-cased title or
  lower-cased author contains the keyword as a substring.
- **The empty-document rule** (`load_books`). The document text is stripped
  of surrounding whitespace. If nothing is left, the collection is empty and
  no JSON parse happens.

Files:

- `text.dfy` (module `Text`) defines Python's `str.strip()`, `str.lower()`
  and the substring test `needle in hay`, with their properties.
- `catalog.dfy` (module `Catalog`) holds the `Book` record, the search filter
  and the lemmas about search.
- `store.dfy` (module `Store`) holds the add-form validation, the id policy,
  the `Library` class and the rule for turning document text into books.
  `Library` stands for the persisted document; its `books` field is the
  collection that loads read and saves overwrite.

The add path changes state, so it is a method, `Library.AddBook`. It is
specified against the pure function `Appended`, and the id properties are
lemmas about `Appended` and about `AddAll`, which is a run of successive
adds. Search is a single list comprehension in the source, so it is modelled
as functions with lemmas.

An empty keyword matches every book, because `"" in s` always holds. The
model follows the code here and does not offer a "match nothing" policy.

## Model

| member | source | states |
|---|---|---|
| `Text.IsSpace` | app.py:19 | the set of characters `str.strip()` removes: exactly Python's `str.isspace` set (ASCII whitespace, the separator controls U+001C-U+001F, and the Unicode space characters); the four JSON whitespace characters are in it |
| `Text.Strip` | app.py:19 | `str.strip()`: the result is empty exactly when the text is all whitespace; otherwise its first and last characters are not whitespace |
| `Text.StripRemovesOnlySpace` | app.py:19 | stripping keeps one contiguous slice of the text and removes only whitespace on either side of it |
| `Text.Lower` | app.py:97 | `str.lower()` keeps the length and lower-cases each character; the result has no upper-case ASCII letter |
| `Text.LowerIdempotent` | app.py:97-99 | lower-casing an already lower-cased string changes nothing |
| `Text.LowerOfUpper` | app.py:97 | the upper-cased text lower-cases to the same string as the original, so the keyword's case is forgotten |
| `Text.Contains` | app.py:99 | Python's `needle in hay` on strings: `""` is in every string, and no string is in a shorter one |
| `Text.ContainsIffOccurs` | app.py:99 | `needle in hay` holds if and only if some index `i` has `hay[i..i+len(needle)] == needle` (both directions) |
| `Text.MissingCharNotContained` | app.py:99 | a needle containing a character that the text lacks is not a substring of it |
| `Catalog.Matches` | app.py:99 | the comprehension's condition `keyword in title.lower() or keyword in author.lower()`: the empty keyword matches every book, and a keyword longer than both fields matches none |
| `Catalog.KeepMatching` | app.py:99 | the comprehension filter: a book is kept if and only if it is in the list and matches the lowered keyword; the result is never longer than the list |
| `Catalog.Search` | app.py:97-99 | a book is in the result if and only if it is in the catalog and `lower(keyword)` is a substring of `lower(title)` or of `lower(author)` |
| `Catalog.KeepMatchingIsSubsequence` | app.py:99 | the filter's result is a subsequence of its input |
| `Catalog.SearchIsSubsequence` | app.py:99 | the search result is a subsequence of the catalog: order kept, nothing altered or invented |
| `Catalog.KeepMatchingAppend` | app.py:99 | the filter of `a + b` is the filter of `a` followed by the filter of `b` |
| `Catalog.SearchAfterAppend` | app.py:99 | after appending a record, the search result is the old result, followed by the new record when it matches |
| `Catalog.KeepEverything` | app.py:99 | filtering with the empty keyword keeps every book |
| `Catalog.SearchEmptyKeyword` | app.py:97-99 | `search(books, "") == books` |
| `Catalog.SearchMissingCharFindsNothing` | app.py:97-99 | a keyword with a character whose lower-cased form appears in no lower-cased title or author finds nothing |
| `Catalog.SearchIgnoresKeywordCase` | app.py:97-99 | `search(books, upper(k)) == search(books, k)` |
| `Catalog.KeepMatchingIdempotent` | app.py:99 | filtering twice with the same lowered keyword is filtering once |
| `Catalog.SearchIdempotent` | app.py:97-99 | `search(search(books, k), k) == search(books, k)` |
| `Store.Given` | app.py:81 | Python truthiness of a form field: `None` and `""` count as missing, and every other string, including one of spaces, counts as given |
| `Store.Validate` | app.py:78-86 | the form is refused if and only if the title, the author or the year is missing or empty; an admitted entry carries the submitted non-empty title and author and the year as `int()` converts it |
| `Store.Appended` | app.py:84-87 | a valid add turns `n` records into `n + 1`; the first `n` are unchanged and the last is `{id: n+1, title, author, year, status: "in stock"}` |
| `Store.PositionalIdsAreDistinct` | app.py:85 | when every id equals its 1-based position, all ids are distinct |
| `Store.NextIdIsFresh` | app.py:85-87 | when ids are positional, no stored record already has id `len + 1`, and the collection stays positional after the append |
| `Store.AddAll` | app.py:84-88 | `k` successive valid adds lengthen the collection by `k` |
| `Store.AddAllRecords` | app.py:84-88 | successive adds keep the stored records; the `i`-th entry lands at position `n + i` with id `n + i + 1` and status "in stock" |
| `Store.SuccessiveAddsFromEmpty` | app.py:85-87 | starting from an empty collection, `k` valid adds give ids `1..k` in order; each id is its record's position and all ids are distinct |
| `Store.BooksFromContent` | app.py:19-20 | text that is empty or all whitespace gives the empty collection without a parse; any other text is parsed after stripping |
| `Store.WhitespaceDocumentLoadsEmpty` | app.py:19-20 | the text gives the empty collection through the empty-content branch if and only if it is all whitespace; otherwise the parser receives non-empty text that starts with a non-space character |
| `Store.Library.constructor` | app.py:7 | a library whose document holds the given collection |
| `Store.Library.Load` | app.py:16-20 | a load returns the whole stored collection |
| `Store.Library.Save` | app.py:36-38 | a save replaces the whole stored collection |
| `Store.Library.AddBook` | app.py:75-89 | a refused form (missing or empty title, author or year) leaves the collection unchanged; otherwise the collection becomes `Appended(old, entry)`; positional ids stay positional |
| `Store.Library.SearchBooks` | app.py:96-99 | the handler returns `Search(books, keyword)`, a subsequence of the stored collection |

## Left out

- Flask routing, templates, redirects, the `session` language state and the secret key (app.py:1, 10-11, 56-72, 89-90, 100-101). These are web glue. `AddBook` returns only which of its two answers the handler gives.
- The GET branches of `add_book` and `search_books` only render a form, so they are not modelled.
- File reading and writing, `json.loads` and `json.dump` (app.py:16-38). The document is the abstract `Library.books` sequence. The JSON parser is the parameter `parse` of `BooksFromContent`, where `None` stands for a parse error. That error propagates uncaught in the source.
- The encoding-detection fallback (app.py:21-33) is not modelled: it relies on a statistical encoding detector from a third-party library that works on raw bytes.
- `Store.Library.Load`: the model's load always returns the stored collection. In the source, a document that is not valid UTF-8 and for which the encoding detector finds no guess loads as `[]` (app.py:31-33). A following add then saves a one-record collection with id 1 over the document (app.py:84-88), and every stored record is lost. `Store.Library.AddBook`'s promise that the first `n` records are unchanged therefore holds only for a document that decodes.
- `load_translations` (app.py:42-53) is file lookup plus a JSON parse into a dictionary, so it is not modelled.
- The creation of an empty `library.json` at startup (app.py:105-111) is file I/O. The `Library` constructor takes whatever collection the document holds.
- `Store.Validate`: `int(year)` is the parameter `intOf`, applied only after validation. The `ValueError` that `int()` raises on non-numeric text is not modelled.
- `Store.Library.SearchBooks`: the keyword is a string. The crash when the `keyword` field is missing (`None.lower()`) is not modelled.
- `Text.Lower`: only ASCII `A`-`Z` are lower-cased. Python's `str.lower` also maps non-ASCII letters (full Unicode case mapping).
- The lost update between two concurrent load-append-save requests is not modelled. The source has no locking to model, and each handler is modelled as one sequential run.
