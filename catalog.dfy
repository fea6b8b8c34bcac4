/**
  The book record and the keyword search of the library catalog.

  A record holds an id, a title, an author, a year and a status; the
  catalog is an ordered sequence of records. Search lower-cases the keyword
  once and keeps, in catalog order, every book whose lower-cased title or
  lower-cased author contains it.
 */
module Catalog {
  import opened Text

  /** The status every new record is given. */
  const InStock: string := "in stock"

  datatype Book = Book(id: int, title: string, author: string, year: int, status: string)

  /** The per-book test of the search filter, for an already lower-cased
      keyword. The empty keyword matches every book; a keyword longer than
      both the title and the author matches none. */
  predicate Matches(b: Book, lowered: string)
    ensures lowered == [] ==> Matches(b, lowered)
    ensures Matches(b, lowered) ==> |lowered| <= |b.title| || |lowered| <= |b.author|
  {
    Contains(Lower(b.title), lowered) || Contains(Lower(b.author), lowered)
  }

  /** The filter of the search, in catalog order, for an already lower-cased keyword. */
  function KeepMatching(books: seq<Book>, lowered: string): (r: seq<Book>)
    ensures |r| <= |books|
    ensures forall b :: b in r <==> b in books && Matches(b, lowered)
  {
    if books == [] then []
    else (if Matches(books[0], lowered) then [books[0]] else []) + KeepMatching(books[1..], lowered)
  }

  /** The search over the catalog: a book is in the result if and only if it
      is in the catalog and the lower-cased keyword is a substring of its
      lower-cased title or of its lower-cased author. */
  function Search(books: seq<Book>, keyword: string): (r: seq<Book>)
    ensures forall b :: b in r <==>
      b in books && (Contains(Lower(b.title), Lower(keyword)) || Contains(Lower(b.author), Lower(keyword)))
  {
    KeepMatching(books, Lower(keyword))
  }

  /** `r` is `s` with some elements dropped: same relative order, nothing
      altered, nothing added. */
  predicate Subsequence(r: seq<Book>, s: seq<Book>)
    decreases |s|
  {
    if r == [] then true
    else if s == [] then false
    else if r[0] == s[0] then Subsequence(r[1..], s[1..])
    else Subsequence(r, s[1..])
  }

  lemma {:induction false} KeepMatchingIsSubsequence(books: seq<Book>, lowered: string)
    ensures Subsequence(KeepMatching(books, lowered), books)
  {
    if books != [] {
      KeepMatchingIsSubsequence(books[1..], lowered);
      var rest := KeepMatching(books[1..], lowered);
      if Matches(books[0], lowered) {
        assert KeepMatching(books, lowered) == [books[0]] + rest;
        assert ([books[0]] + rest)[1..] == rest;
      } else {
        assert KeepMatching(books, lowered) == rest;
        // the first book does not match, so it cannot head the result
        assert rest != [] ==> rest[0] in rest;
      }
    }
  }

  /** The search result is a subsequence of the catalog: catalog order is
      kept and no record is altered or invented. */
  lemma SearchIsSubsequence(books: seq<Book>, keyword: string)
    ensures Subsequence(Search(books, keyword), books)
  {
    KeepMatchingIsSubsequence(books, Lower(keyword));
  }

  /** The filter splits over concatenation: the result for `a + b` is the
      result for `a` followed by the result for `b`. */
  lemma {:induction false} KeepMatchingAppend(a: seq<Book>, b: seq<Book>, lowered: string)
    ensures KeepMatching(a + b, lowered) == KeepMatching(a, lowered) + KeepMatching(b, lowered)
  {
    if a == [] {
      assert a + b == b;
    } else {
      assert (a + b)[0] == a[0];
      assert (a + b)[1..] == a[1..] + b;
      KeepMatchingAppend(a[1..], b, lowered);
    }
  }

  /** Searching the catalog with one more record at the end gives the old
      result, followed by the new record when it matches. */
  lemma SearchAfterAppend(books: seq<Book>, b: Book, keyword: string)
    ensures Search(books + [b], keyword) ==
      Search(books, keyword) + (if Matches(b, Lower(keyword)) then [b] else [])
  {
    KeepMatchingAppend(books, [b], Lower(keyword));
    assert [b][1..] == [];
  }

  lemma {:induction false} KeepEverything(books: seq<Book>)
    ensures KeepMatching(books, "") == books
  {
    if books != [] {
      KeepEverything(books[1..]);
    }
  }

  /** The empty keyword matches every book, so the search returns the whole
      catalog, in order. */
  lemma SearchEmptyKeyword(books: seq<Book>)
    ensures Search(books, "") == books
  {
    assert Lower("") == "";
    KeepEverything(books);
  }

  /** A keyword holding a character that, lower-cased, appears in no
      lower-cased title and no lower-cased author finds nothing. */
  lemma SearchMissingCharFindsNothing(books: seq<Book>, keyword: string, k: nat)
    requires k < |keyword|
    requires forall b :: b in books ==>
      LowerChar(keyword[k]) !in Lower(b.title) && LowerChar(keyword[k]) !in Lower(b.author)
    ensures Search(books, keyword) == []
  {
    var r := Search(books, keyword);
    if r != [] {
      var b := r[0];
      assert b in r;
      MissingCharNotContained(Lower(b.title), Lower(keyword), k);
      MissingCharNotContained(Lower(b.author), Lower(keyword), k);
      assert false;
    }
  }

  /** The keyword's case does not matter: searching for its upper-cased
      form gives the same result. */
  lemma SearchIgnoresKeywordCase(books: seq<Book>, keyword: string)
    ensures Search(books, Upper(keyword)) == Search(books, keyword)
  {
    LowerOfUpper(keyword);
  }

  lemma {:induction false} KeepMatchingIdempotent(books: seq<Book>, lowered: string)
    ensures KeepMatching(KeepMatching(books, lowered), lowered) == KeepMatching(books, lowered)
  {
    if books != [] {
      var rest := KeepMatching(books[1..], lowered);
      KeepMatchingIdempotent(books[1..], lowered);
      if Matches(books[0], lowered) {
        assert KeepMatching(books, lowered) == [books[0]] + rest;
        KeepMatchingAppend([books[0]], rest, lowered);
        assert [books[0]][1..] == [];
        assert KeepMatching([books[0]], lowered) == [books[0]] + KeepMatching([], lowered);
      } else {
        assert KeepMatching(books, lowered) == rest;
      }
    }
  }

  /** Searching a search result again with the same keyword changes nothing. */
  lemma SearchIdempotent(books: seq<Book>, keyword: string)
    ensures Search(Search(books, keyword), keyword) == Search(books, keyword)
  {
    KeepMatchingIdempotent(books, Lower(keyword));
  }
}
