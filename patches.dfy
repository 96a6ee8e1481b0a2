/** How the dashboard patches its local copy of the collection after the store
    accepts a change, instead of fetching the collection again. */
module Patches {
  import opened ArrayOps
  import opened Catalog

  /** After a successful update: `books.map(b => b._id === id ? { ...form, _id: id } : b)`. */
  function ReplaceById(books: seq<Book>, id: string, form: Draft): (r: seq<Book>)
    ensures |r| == |books|
    ensures forall i :: 0 <= i < |books| && books[i].id != id ==> r[i] == books[i]
    ensures forall i :: 0 <= i < |books| && books[i].id == id ==> r[i] == WithId(form, id)
  {
    if books == [] then []
    else [if books[0].id == id then WithId(form, id) else books[0]] + ReplaceById(books[1..], id, form)
  }

  /** An update never changes which identifier sits at which position. */
  lemma ReplaceByIdKeepsIds(books: seq<Book>, id: string, form: Draft)
    ensures var r := ReplaceById(books, id, form);
      forall i :: 0 <= i < |books| ==> r[i].id == books[i].id
  {
  }

  /** Submitting the same form twice has the effect of submitting it once. */
  lemma ReplaceByIdIdempotent(books: seq<Book>, id: string, form: Draft)
    ensures ReplaceById(ReplaceById(books, id, form), id, form) == ReplaceById(books, id, form)
  {
  }

  /** An identifier that is not in the collection leaves it as it was. */
  lemma ReplaceByIdAbsent(books: seq<Book>, id: string, form: Draft)
    requires !HasId(books, id)
    ensures ReplaceById(books, id, form) == books
  {
  }

  /** With unique identifiers an update writes exactly one position. */
  lemma ReplaceByIdUnique(books: seq<Book>, id: string, form: Draft, j: int)
    requires UniqueIds(books)
    requires 0 <= j < |books| && books[j].id == id
    ensures ReplaceById(books, id, form) == books[j := WithId(form, id)]
  {
  }

  /** An update keeps identifiers unique. */
  lemma ReplaceByIdKeepsUnique(books: seq<Book>, id: string, form: Draft)
    requires UniqueIds(books)
    ensures UniqueIds(ReplaceById(books, id, form))
  {
  }

  function OtherId(id: string): Book -> bool
  {
    (b: Book) => b.id != id
  }

  /** After a successful delete: `books.filter(b => b._id !== id)`. */
  function RemoveById(books: seq<Book>, id: string): (r: seq<Book>)
    ensures !HasId(r, id)
    ensures forall b :: b in r <==> b in books && b.id != id
    ensures |r| == |books| - CountId(books, id)
  {
    RemoveByIdLength(books, id);
    var r := Filter(books, OtherId(id));
    assert forall i :: 0 <= i < |r| ==> r[i] in r;
    r
  }

  lemma {:induction false} RemoveByIdLength(books: seq<Book>, id: string)
    ensures |Filter(books, OtherId(id))| == |books| - CountId(books, id)
  {
    if books != [] {
      RemoveByIdLength(books[1..], id);
    }
  }

  /** A delete keeps every other entry, in its original order and with its
      multiplicity. */
  lemma RemoveByIdInOrder(books: seq<Book>, id: string) returns (idx: seq<int>)
    ensures var r := RemoveById(books, id);
      && |idx| == |r|
      && (forall k :: 0 <= k < |idx| ==> 0 <= idx[k] < |books| && r[k] == books[idx[k]])
      && (forall k, k' :: 0 <= k < k' < |idx| ==> idx[k] < idx[k'])
      && (forall i :: 0 <= i < |books| && books[i].id != id ==> i in idx)
    ensures forall b: Book :: b.id != id ==> multiset(RemoveById(books, id))[b] == multiset(books)[b]
  {
    idx := FilterSelects(books, OtherId(id));
    forall b: Book | b.id != id
      ensures multiset(RemoveById(books, id))[b] == multiset(books)[b]
    {
      FilterCounts(books, OtherId(id), b);
    }
  }

  /** With unique identifiers deleting an identifier that occurs removes exactly
      one entry. */
  lemma RemoveByIdUnique(books: seq<Book>, id: string)
    requires UniqueIds(books) && HasId(books, id)
    ensures |RemoveById(books, id)| == |books| - 1
  {
    CountIdUnique(books, id);
  }

  /** A delete keeps identifiers unique. */
  lemma RemoveByIdKeepsUnique(books: seq<Book>, id: string)
    requires UniqueIds(books)
    ensures UniqueIds(RemoveById(books, id))
  {
    var r := RemoveById(books, id);
    var idx := RemoveByIdInOrder(books, id);
    forall i, j | 0 <= i < j < |r|
      ensures r[i].id != r[j].id
    {
      assert idx[i] < idx[j];
    }
  }

  /** After a successful create: `[...books, created]`. */
  function AppendBook(books: seq<Book>, created: Book): (r: seq<Book>)
    ensures |r| == |books| + 1
    ensures r[..|books|] == books && r[|books|] == created
  {
    books + [created]
  }

  /** A create keeps identifiers unique when the store hands out a new one. */
  lemma AppendBookKeepsUnique(books: seq<Book>, created: Book)
    requires UniqueIds(books) && !HasId(books, created.id)
    ensures UniqueIds(AppendBook(books, created))
  {
    var r := AppendBook(books, created);
    forall i, j | 0 <= i < j < |r|
      ensures r[i].id != r[j].id
    {
      if j == |books| {
        assert r[i] == books[i];
      }
    }
  }

  /** Deleting a freshly created book restores the collection it was added to. */
  lemma {:induction false} RemoveUndoesAppend(books: seq<Book>, created: Book)
    requires !HasId(books, created.id)
    ensures RemoveById(AppendBook(books, created), created.id) == books
  {
    FilterAppend(books, [created], OtherId(created.id));
    FilterKeepsAll(books, OtherId(created.id));
    assert [created][1..] == [];
  }
}
