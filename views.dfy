/** The views the dashboard derives from its state on every render: the
    filtered list, the page count and the visible page, the genre and status
    dropdown options, and the window of page-number buttons. */
module Views {
  import opened Text
  import opened ArrayOps
  import opened Catalog

  const ItemsPerPage: nat := 10
  const MaxPagesToShow: int := 5

  function Max(a: int, b: int): int { if a < b then b else a }
  function Min(a: int, b: int): int { if a < b then a else b }

  // ---------------------------------------------------------------- filter

  /** The filter test: lower-cased title or author includes the lower-cased
      search term, and each non-empty dropdown filter equals the book's value. */
  predicate Matches(b: Book, searchTerm: string, genreFilter: string, statusFilter: string)
    ensures Matches(b, searchTerm, genreFilter, statusFilter) <==>
      (Occurs(Lower(b.title), Lower(searchTerm)) || Occurs(Lower(b.author), Lower(searchTerm)))
      && (genreFilter == "" || b.genre == genreFilter)
      && (statusFilter == "" || b.status == statusFilter)
  {
    var term := Lower(searchTerm);
    IncludesIffOccurs(Lower(b.title), term);
    IncludesIffOccurs(Lower(b.author), term);
    (Includes(Lower(b.title), term) || Includes(Lower(b.author), term))
    && (genreFilter == "" || b.genre == genreFilter)
    && (statusFilter == "" || b.status == statusFilter)
  }

  function MatchFn(searchTerm: string, genreFilter: string, statusFilter: string): Book -> bool
  {
    b => Matches(b, searchTerm, genreFilter, statusFilter)
  }

  /** `filteredBooks`. */
  function FilteredBooks(books: seq<Book>, searchTerm: string, genreFilter: string, statusFilter: string): (r: seq<Book>)
    ensures |r| <= |books|
    ensures forall b :: b in r <==> b in books && Matches(b, searchTerm, genreFilter, statusFilter)
  {
    Filter(books, MatchFn(searchTerm, genreFilter, statusFilter))
  }

  /** The filtered list is the subsequence of `books` made of exactly the
      matching positions, in their original order. */
  lemma FilteredBooksInOrder(books: seq<Book>, searchTerm: string, genreFilter: string, statusFilter: string)
    returns (idx: seq<int>)
    ensures var r := FilteredBooks(books, searchTerm, genreFilter, statusFilter);
      && |idx| == |r|
      && (forall k :: 0 <= k < |idx| ==> 0 <= idx[k] < |books| && r[k] == books[idx[k]])
      && (forall k, k' :: 0 <= k < k' < |idx| ==> idx[k] < idx[k'])
      && (forall i :: 0 <= i < |books| && Matches(books[i], searchTerm, genreFilter, statusFilter) ==> i in idx)
  {
    var keep := MatchFn(searchTerm, genreFilter, statusFilter);
    idx := FilterSelects(books, keep);
    assert forall i :: 0 <= i < |books| ==> keep(books[i]) == Matches(books[i], searchTerm, genreFilter, statusFilter);
  }

  /** Each matching book is listed as many times as it occurs in `books`. */
  lemma FilteredBooksCounts(books: seq<Book>, searchTerm: string, genreFilter: string, statusFilter: string, b: Book)
    ensures multiset(FilteredBooks(books, searchTerm, genreFilter, statusFilter))[b]
         == if Matches(b, searchTerm, genreFilter, statusFilter) then multiset(books)[b] else 0
  {
    FilterCounts(books, MatchFn(searchTerm, genreFilter, statusFilter), b);
  }

  /** An empty search term and empty dropdown filters show every book. */
  lemma {:induction false} FilteredBooksAllWhenUnfiltered(books: seq<Book>)
    ensures FilteredBooks(books, "", "", "") == books
  {
    forall b | b in books
      ensures MatchFn("", "", "")(b)
    {
      IncludesEmpty(Lower(b.title));
    }
    FilterKeepsAll(books, MatchFn("", "", ""));
  }

  /** The search is case-insensitive: lower-casing the term changes nothing. */
  lemma FilteredBooksCaseInsensitive(books: seq<Book>, searchTerm: string, genreFilter: string, statusFilter: string)
    ensures FilteredBooks(books, searchTerm, genreFilter, statusFilter)
         == FilteredBooks(books, Lower(searchTerm), genreFilter, statusFilter)
  {
    LowerIdempotent(searchTerm);
    FilterCongruent(books, MatchFn(searchTerm, genreFilter, statusFilter), MatchFn(Lower(searchTerm), genreFilter, statusFilter));
  }

  /** Appending a book to the collection appends it to the filtered list
      exactly when it matches. */
  lemma FilteredBooksAppend(books: seq<Book>, b: Book, searchTerm: string, genreFilter: string, statusFilter: string)
    ensures FilteredBooks(books + [b], searchTerm, genreFilter, statusFilter)
         == FilteredBooks(books, searchTerm, genreFilter, statusFilter)
            + (if Matches(b, searchTerm, genreFilter, statusFilter) then [b] else [])
  {
    var keep := MatchFn(searchTerm, genreFilter, statusFilter);
    FilterAppend(books, [b], keep);
    assert [b][1..] == [];
  }

  // ---------------------------------------------------------------- paging

  /** `Math.ceil(count / itemsPerPage)`: no minimum, so 0 when nothing matches. */
  function TotalPages(count: nat): (r: nat)
    ensures count == 0 <==> r == 0
    ensures ItemsPerPage * (r - 1) < count <= ItemsPerPage * r || count == 0
  {
    (count + ItemsPerPage - 1) / ItemsPerPage
  }

  /** `startIndex`: where page `currentPage` begins in the filtered list. */
  function StartIndex(currentPage: int): (r: int)
    ensures currentPage >= 1 ==> r >= 0 && r % ItemsPerPage == 0 && r / ItemsPerPage == currentPage - 1
  {
    (currentPage - 1) * ItemsPerPage
  }

  /** `paginatedBooks`: the filtered list sliced to the current page. */
  function PageRows(filtered: seq<Book>, currentPage: int): (r: seq<Book>)
    ensures |r| <= ItemsPerPage
  {
    Slice(filtered, StartIndex(currentPage), StartIndex(currentPage) + ItemsPerPage)
  }

  /** For a positive page number the page is the block of at most ten rows
      starting at `(p - 1) * 10`, and nothing when that start lies past the end. */
  lemma PageRowsWindow(filtered: seq<Book>, currentPage: int)
    requires currentPage >= 1
    ensures var start := (currentPage - 1) * ItemsPerPage;
      PageRows(filtered, currentPage)
        == if start <= |filtered| then filtered[start..Min(currentPage * ItemsPerPage, |filtered|)] else []
  {
  }

  /** A page number that is not negative shows rows exactly when it lies in
      `[1, totalPages]`; a page left past the end after the list shrank is empty. */
  lemma PageRowsNonEmptyIff(filtered: seq<Book>, currentPage: int)
    requires currentPage >= 0
    ensures |PageRows(filtered, currentPage)| > 0 <==> 1 <= currentPage <= TotalPages(|filtered|)
  {
    var n := |filtered|;
    if currentPage >= 1 {
      var start := StartIndex(currentPage);
      if currentPage <= TotalPages(n) {
        assert start < n;
        assert |PageRows(filtered, currentPage)| > 0;
      } else {
        assert start >= n;
      }
    }
  }

  /** Every filtered row appears on page `i / 10 + 1`, at offset `i % 10`, and
      that page is one of the `totalPages` pages. */
  lemma RowOnItsPage(filtered: seq<Book>, i: int)
    requires 0 <= i < |filtered|
    ensures var p := i / ItemsPerPage + 1;
      && 1 <= p <= TotalPages(|filtered|)
      && i % ItemsPerPage < |PageRows(filtered, p)|
      && PageRows(filtered, p)[i % ItemsPerPage] == filtered[i]
  {
    var p := i / ItemsPerPage + 1;
    PageRowsWindow(filtered, p);
    assert StartIndex(p) + i % ItemsPerPage == i;
  }

  /** What the table body shows: placeholder rows while loading, the rows of
      the current page, or the single "No books found" row. */
  datatype TableBody = Skeleton(rows: nat) | Rows(books: seq<Book>) | NoBooksFound

  function Body(loading: bool, filtered: seq<Book>, currentPage: int): (t: TableBody)
    ensures loading ==> t == Skeleton(5)
    ensures !loading ==> !t.Skeleton?
    ensures !loading && 1 <= currentPage <= TotalPages(|filtered|) ==> t == Rows(PageRows(filtered, currentPage))
    ensures !loading && t.Rows? ==> 0 < |t.books| <= ItemsPerPage && t.books == PageRows(filtered, currentPage)
    ensures !loading && currentPage >= 0 ==>
      (t == NoBooksFound <==> !(1 <= currentPage <= TotalPages(|filtered|)))
  {
    if loading then Skeleton(5)
    else
      var rows := PageRows(filtered, currentPage);
      var t := if |rows| > 0 then Rows(rows) else NoBooksFound;
      if currentPage < 0 then t
      else PageRowsNonEmptyIff(filtered, currentPage); t
  }

  // ---------------------------------------------------------------- options

  function GenreOf(b: Book): string { b.genre }
  function StatusOf(b: Book): string { b.status }

  /** `genres`: the distinct genres of the collection, sorted. */
  function Genres(books: seq<Book>): (r: seq<string>)
    ensures Sorted(r) && NoDuplicates(r)
    ensures forall g :: g in r <==> exists b :: b in books && b.genre == g
  {
    var r := OptionList(Map(books, GenreOf));
    forall g
      ensures g in r <==> exists b :: b in books && b.genre == g
    {
      MapMembership(books, GenreOf, g);
    }
    r
  }

  /** `statuses`: the distinct statuses of the collection, sorted. */
  function Statuses(books: seq<Book>): (r: seq<string>)
    ensures Sorted(r) && NoDuplicates(r)
    ensures forall st :: st in r <==> exists b :: b in books && b.status == st
  {
    var r := OptionList(Map(books, StatusOf));
    forall st
      ensures st in r <==> exists b :: b in books && b.status == st
    {
      MapMembership(books, StatusOf, st);
    }
    r
  }

  /** Some book of the collection has genre `g`. */
  predicate HasGenre(books: seq<Book>, g: string)
  {
    exists b :: b in books && b.genre == g
  }

  /** The option lists depend only on which values occur: two collections with
      the same genres get identical dropdowns, whatever their order. */
  lemma GenresDependOnlyOnValues(books: seq<Book>, others: seq<Book>)
    requires forall g :: HasGenre(books, g) <==> HasGenre(others, g)
    ensures Genres(books) == Genres(others)
  {
    forall g
      ensures g in Genres(books) <==> g in Genres(others)
    {
      assert g in Genres(books) <==> HasGenre(books, g);
      assert g in Genres(others) <==> HasGenre(others, g);
    }
    SortedDistinctDetermined(Genres(books), Genres(others));
  }

  // ---------------------------------------------------------------- pagination window

  /** The first and last page-number buttons `renderPagination` draws. */
  datatype Window = Window(startPage: int, endPage: int)

  /** `renderPagination`'s window arithmetic: centre on the current page, cut at
      the last page, then slide back so that five buttons show when possible. */
  function PageWindow(currentPage: int, totalPages: nat): (w: Window)
    ensures totalPages == 0 ==> w.endPage < w.startPage
    ensures totalPages >= 1 ==>
      && 1 <= w.startPage && w.endPage <= totalPages
      && w.endPage - w.startPage + 1 == Min(MaxPagesToShow, totalPages)
    ensures 1 <= currentPage <= totalPages ==> w.startPage <= currentPage <= w.endPage
    ensures totalPages >= 1 && currentPage <= 3 ==> w.startPage == 1
    ensures totalPages >= 1 && currentPage >= totalPages - 2 ==> w.endPage == totalPages
    ensures 3 <= currentPage <= totalPages - 2 ==> w == Window(currentPage - 2, currentPage + 2)
    ensures totalPages >= 1 ==> w.startPage == Max(1, Min(currentPage - 2, totalPages - 4))
    ensures totalPages == 0 ==> w == Window(1, 0)
  {
    var startPage := Max(1, currentPage - MaxPagesToShow / 2);
    var endPage := Min(totalPages, startPage + MaxPagesToShow - 1);
    if endPage - startPage + 1 < MaxPagesToShow then
      Window(Max(1, endPage - MaxPagesToShow + 1), endPage)
    else
      Window(startPage, endPage)
  }

  /** One page-number button: its page and whether it is highlighted. */
  datatype PageButton = PageButton(page: int, active: bool)

  /** `renderPagination`: one button per page of the window, in ascending order,
      the current page highlighted. */
  method RenderPagination(currentPage: int, totalPages: nat) returns (pages: seq<PageButton>)
    ensures var w := PageWindow(currentPage, totalPages);
      && |pages| == Max(0, w.endPage - w.startPage + 1)
      && forall k :: 0 <= k < |pages| ==> pages[k].page == w.startPage + k
    ensures totalPages >= 1 ==>
      && |pages| == Min(MaxPagesToShow, totalPages)
      && 1 <= pages[0].page && pages[|pages| - 1].page <= totalPages
    ensures totalPages == 0 ==> pages == []
    ensures forall k :: 0 <= k < |pages| - 1 ==> pages[k + 1].page == pages[k].page + 1
    ensures forall k :: 0 <= k < |pages| ==> (pages[k].active <==> pages[k].page == currentPage)
    ensures 1 <= currentPage <= totalPages ==> exists k :: 0 <= k < |pages| && pages[k].page == currentPage
  {
    pages := [];
    var startPage := Max(1, currentPage - MaxPagesToShow / 2);
    var endPage := Min(totalPages, startPage + MaxPagesToShow - 1);
    if endPage - startPage + 1 < MaxPagesToShow {
      startPage := Max(1, endPage - MaxPagesToShow + 1);
    }
    assert Window(startPage, endPage) == PageWindow(currentPage, totalPages);
    var i := startPage;
    while i <= endPage
      invariant startPage <= i <= Max(startPage, endPage + 1)
      invariant |pages| == i - startPage
      invariant forall k :: 0 <= k < |pages| ==> pages[k] == PageButton(startPage + k, startPage + k == currentPage)
    {
      pages := pages + [PageButton(i, currentPage == i)];
      i := i + 1;
    }
    if 1 <= currentPage <= totalPages {
      assert pages[currentPage - startPage].page == currentPage;
    }
  }

  /** Previous: one page back, never below page 1. */
  function PreviousPage(currentPage: int): (p: int)
    ensures p >= 1
    ensures currentPage > 1 ==> p == currentPage - 1
    ensures currentPage <= 1 ==> p == 1
  {
    Max(1, currentPage - 1)
  }

  /** Next: one page on, never beyond the last page. */
  function NextPage(currentPage: int, totalPages: nat): (p: int)
    ensures p <= totalPages
    ensures currentPage >= totalPages ==> p == totalPages
    ensures currentPage < totalPages ==> p == currentPage + 1
    ensures 1 <= currentPage <= totalPages ==> 1 <= p <= totalPages
    ensures currentPage >= 1 && totalPages >= 1 ==> p >= 1
  {
    Min(totalPages, currentPage + 1)
  }
}
