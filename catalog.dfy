/** The one entity of the dashboard: a book record as the remote store returns it,
    and the form data the add/edit form submits. */
module Catalog {

  /** A stored book. `id` is the store's `_id`. */
  datatype Book = Book(
    id: string,
    title: string,
    author: string,
    genre: string,
    publishedYear: int,
    status: string)

  /** The fields the add/edit form submits; the form has no identifier field. */
  datatype Draft = Draft(
    title: string,
    author: string,
    genre: string,
    publishedYear: int,
    status: string)

  /** `{ ...formData, _id: id }`: the submitted fields under the given identifier. */
  function WithId(d: Draft, id: string): (b: Book)
    ensures b.id == id
    ensures b.title == d.title && b.author == d.author && b.genre == d.genre
    ensures b.publishedYear == d.publishedYear && b.status == d.status
  {
    Book(id, d.title, d.author, d.genre, d.publishedYear, d.status)
  }

  /** Some entry of `books` carries `id`. */
  predicate HasId(books: seq<Book>, id: string)
  {
    exists i :: 0 <= i < |books| && books[i].id == id
  }

  /** No two entries share an identifier (the store assigns them). */
  predicate UniqueIds(books: seq<Book>)
  {
    forall i, j :: 0 <= i < j < |books| ==> books[i].id != books[j].id
  }

  /** How many entries carry `id`. */
  function CountId(books: seq<Book>, id: string): (n: nat)
    ensures n <= |books|
    ensures n == 0 <==> !HasId(books, id)
  {
    if books == [] then 0
    else
      assert forall i :: 0 < i < |books| ==> books[i] == books[1..][i - 1];
      (if books[0].id == id then 1 else 0) + CountId(books[1..], id)
  }

  /** With unique identifiers an identifier that occurs occurs exactly once. */
  lemma {:induction false} CountIdUnique(books: seq<Book>, id: string)
    requires UniqueIds(books) && HasId(books, id)
    ensures CountId(books, id) == 1
  {
    assert books != [];
    if books[0].id == id {
      assert !HasId(books[1..], id);
    } else {
      var i :| 0 <= i < |books| && books[i].id == id;
      assert books[1..][i - 1].id == id;
      CountIdUnique(books[1..], id);
    }
  }
}
