/** The dashboard component's state and its event handlers. Each handler that
    talks to the remote store takes the store's reply as a parameter and runs as
    one step, from the moment it is invoked to the moment its `finally` block
    has run. */
module Dashboard {
  import opened Catalog
  import opened Views
  import opened Patches

  datatype Option<T> = None | Some(value: T)

  /** What the remote store answered: a value, or an error thrown by the call. */
  datatype Reply<T> = Ok(value: T) | Failed

  datatype ToastKind = Success | Error

  /** The one notification the dashboard may be showing. */
  datatype Toast = Toast(message: string, kind: ToastKind)

  class BookDashboard {
    var books: seq<Book>
    var loading: bool
    var searchTerm: string
    var genreFilter: string
    var statusFilter: string
    var currentPage: int
    var showModal: bool
    var showDeleteModal: bool
    var editingBook: Option<Book>
    var deletingBook: Option<Book>
    var modalLoading: bool
    var toast: Option<Toast>

    /** The page number never drops below 1, and the delete prompt is only open
        with a book to delete. */
    ghost predicate Valid()
      reads this
    {
      && currentPage >= 1
      && (showDeleteModal ==> deletingBook.Some?)
    }

    function Filtered(): seq<Book>
      reads this
    {
      FilteredBooks(books, searchTerm, genreFilter, statusFilter)
    }

    function PageCount(): nat
      reads this
    {
      TotalPages(|Filtered()|)
    }

    /** The rows of the table body. */
    function VisibleRows(): seq<Book>
      reads this
    {
      PageRows(Filtered(), currentPage)
    }

    /** The table body as rendered. */
    function Table(): TableBody
      reads this
    {
      Body(loading, Filtered(), currentPage)
    }

    /** Once loaded, the table shows "No books found" exactly when the page lies
        past the last one, and the visible rows otherwise. */
    lemma TableShowsNoBooks()
      requires Valid() && !loading
      ensures Table() == NoBooksFound <==> currentPage > PageCount()
      ensures Table() != NoBooksFound ==> Table() == Rows(VisibleRows())
    {
    }

    /** The pagination bar (Previous, page buttons, Next) is rendered. */
    predicate PaginationShown()
      reads this
      ensures PaginationShown() <==> !loading && |Filtered()| > ItemsPerPage
    {
      !loading && |Filtered()| > 0 && PageCount() > 1
    }

    /** The initial state of every `useState` field. */
    constructor ()
      ensures Valid()
      ensures books == [] && loading
      ensures searchTerm == "" && genreFilter == "" && statusFilter == ""
      ensures currentPage == 1
      ensures !showModal && !showDeleteModal && !modalLoading
      ensures editingBook == None && deletingBook == None && toast == None
    {
      books := [];
      loading := true;
      searchTerm, genreFilter, statusFilter := "", "", "";
      currentPage := 1;
      showModal, showDeleteModal := false, false;
      editingBook, deletingBook := None, None;
      modalLoading := false;
      toast := None;
    }

    /** `showToast`: the new notification replaces whatever was showing. */
    method ShowToast(message: string, kind: ToastKind)
      modifies this`toast
      ensures toast == Some(Toast(message, kind))
    {
      toast := Some(Toast(message, kind));
    }

    /** The notification's close button, and its auto-dismiss timer. */
    method DismissToast()
      modifies this`toast
      ensures toast == None
    {
      toast := None;
    }

    /** `loadBooks`: replace the collection with the store's list, or report the
        failure and keep the collection; the spinner is off afterwards either way.
        The page number is left alone. */
    method LoadBooks(reply: Reply<seq<Book>>)
      requires Valid()
      modifies this`loading, this`books, this`toast
      ensures Valid()
      ensures !loading
      ensures reply.Ok? ==> books == reply.value && toast == old(toast)
      ensures reply.Failed? ==> books == old(books) && toast == Some(Toast("Failed to load books", Error))
    {
      loading := true;
      match reply {
        case Ok(data) =>
          books := data;
        case Failed =>
          ShowToast("Failed to load books", Error);
      }
      loading := false;
    }

    /** Typing in the search box; the reset effect sends the view back to page 1
        when the term actually changed. */
    method SetSearchTerm(term: string)
      requires Valid()
      modifies this`searchTerm, this`currentPage
      ensures Valid()
      ensures searchTerm == term
      ensures currentPage == if term != old(searchTerm) then 1 else old(currentPage)
    {
      if term != searchTerm {
        searchTerm := term;
        currentPage := 1;
      }
    }

    /** Choosing a genre in the dropdown ("" is "All Genres"). */
    method SetGenreFilter(genre: string)
      requires Valid()
      modifies this`genreFilter, this`currentPage
      ensures Valid()
      ensures genreFilter == genre
      ensures currentPage == if genre != old(genreFilter) then 1 else old(currentPage)
    {
      if genre != genreFilter {
        genreFilter := genre;
        currentPage := 1;
      }
    }

    /** Choosing a status in the dropdown ("" is "All Status"). */
    method SetStatusFilter(status: string)
      requires Valid()
      modifies this`statusFilter, this`currentPage
      ensures Valid()
      ensures statusFilter == status
      ensures currentPage == if status != old(statusFilter) then 1 else old(currentPage)
    {
      if status != statusFilter {
        statusFilter := status;
        currentPage := 1;
      }
    }

    /** The Previous button. */
    method Previous()
      requires Valid()
      modifies this`currentPage
      ensures Valid()
      ensures currentPage == PreviousPage(old(currentPage))
      ensures 1 <= old(currentPage) <= PageCount() ==> 1 <= currentPage <= PageCount()
    {
      currentPage := PreviousPage(currentPage);
    }

    /** The Next button, which exists only while the pagination bar is shown. */
    method Next()
      requires Valid() && PaginationShown()
      modifies this`currentPage
      ensures Valid()
      ensures currentPage == NextPage(old(currentPage), PageCount())
      ensures 1 <= old(currentPage) <= PageCount() ==> 1 <= currentPage <= PageCount()
    {
      currentPage := NextPage(currentPage, PageCount());
    }

    /** A page-number button of the pagination bar. */
    method GoToPage(page: int)
      requires Valid() && PaginationShown()
      requires var w := PageWindow(currentPage, PageCount()); w.startPage <= page <= w.endPage
      modifies this`currentPage
      ensures Valid()
      ensures currentPage == page
      ensures 1 <= currentPage <= PageCount()
    {
      currentPage := page;
    }

    /** `handleAddBook`: open an empty form. */
    method OpenAddForm()
      requires Valid()
      modifies this`editingBook, this`showModal
      ensures Valid()
      ensures editingBook == None && showModal
    {
      editingBook := None;
      showModal := true;
    }

    /** `handleEditBook`: open the form on an existing book. */
    method OpenEditForm(book: Book)
      requires Valid()
      modifies this`editingBook, this`showModal
      ensures Valid()
      ensures editingBook == Some(book) && showModal
    {
      editingBook := Some(book);
      showModal := true;
    }

    /** The form's Cancel and close buttons. */
    method CloseForm()
      requires Valid()
      modifies this`showModal
      ensures Valid()
      ensures !showModal
    {
      showModal := false;
    }

    /** `handleDeleteBook`: open the delete prompt on a book. */
    method OpenDeletePrompt(book: Book)
      requires Valid()
      modifies this`deletingBook, this`showDeleteModal
      ensures Valid()
      ensures deletingBook == Some(book) && showDeleteModal
    {
      deletingBook := Some(book);
      showDeleteModal := true;
    }

    /** The delete prompt's Cancel button: no request, the collection stays. */
    method CancelDelete()
      requires Valid()
      modifies this`showDeleteModal
      ensures Valid()
      ensures !showDeleteModal
    {
      showDeleteModal := false;
    }

    /** `handleSubmitBook`: update the book being edited, or create a new one.
        On success the local copy is patched and the form closes; on failure
        the form stays as it was. The busy flag is off afterwards either way.
        An update ignores the body of the store's reply. */
    method SubmitBook(form: Draft, reply: Reply<Book>)
      requires Valid()
      modifies this`modalLoading, this`books, this`toast, this`showModal
      ensures Valid()
      ensures !modalLoading
      ensures reply.Ok? && editingBook.Some? ==>
        && books == ReplaceById(old(books), editingBook.value.id, form)
        && toast == Some(Toast("Book updated successfully!", Success))
        && !showModal
      ensures reply.Ok? && editingBook.None? ==>
        && books == AppendBook(old(books), reply.value)
        && toast == Some(Toast("Book added successfully!", Success))
        && !showModal
      ensures reply.Failed? ==>
        && books == old(books)
        && toast == Some(Toast("Failed to save book", Error))
        && showModal == old(showModal)
    {
      modalLoading := true;
      match reply {
        case Ok(saved) =>
          match editingBook {
            case Some(edited) =>
              books := ReplaceById(books, edited.id, form);
              ShowToast("Book updated successfully!", Success);
            case None =>
              books := AppendBook(books, saved);
              ShowToast("Book added successfully!", Success);
          }
          showModal := false;
        case Failed =>
          ShowToast("Failed to save book", Error);
      }
      modalLoading := false;
    }

    /** `handleConfirmDelete`: delete the book of the prompt. On success the
        local copy loses every entry with its identifier and the prompt closes;
        on failure the prompt stays open. With no book recorded, reading its
        identifier throws before any request is sent, which the handler reports
        as a failed delete. The busy flag is off afterwards either way. */
    method ConfirmDelete(reply: Reply<()>)
      requires Valid()
      modifies this`modalLoading, this`books, this`toast, this`showDeleteModal, this`deletingBook
      ensures Valid()
      ensures !modalLoading
      ensures old(showDeleteModal) && reply.Ok? ==>
        && books == RemoveById(old(books), old(deletingBook).value.id)
        && !showDeleteModal
      ensures old(deletingBook).Some? && reply.Ok? ==>
        && books == RemoveById(old(books), old(deletingBook).value.id)
        && toast == Some(Toast("Book deleted successfully!", Success))
        && !showDeleteModal && deletingBook == None
      ensures old(deletingBook).None? || reply.Failed? ==>
        && books == old(books)
        && toast == Some(Toast("Failed to delete book", Error))
        && showDeleteModal == old(showDeleteModal) && deletingBook == old(deletingBook)
    {
      modalLoading := true;
      match deletingBook {
        case None =>
          ShowToast("Failed to delete book", Error);
        case Some(target) =>
          match reply {
            case Ok(_) =>
              books := RemoveById(books, target.id);
              ShowToast("Book deleted successfully!", Success);
              showDeleteModal := false;
              deletingBook := None;
            case Failed =>
              ShowToast("Failed to delete book", Error);
          }
      }
      modalLoading := false;
    }
  }

  /** A delete does not move the page back. With eleven books and no filter,
      page 2 shows the eleventh; once that book is deleted the collection still
      has ten books, but page 2 shows "No books found" and, as only one page is
      left, the pagination bar that could lead back to page 1 is gone. */
  lemma StalePageAfterDelete(books: seq<Book>)
    requires |books| == 11 && UniqueIds(books)
    ensures Body(false, FilteredBooks(books, "", "", ""), 2) == Rows([books[10]])
    ensures var after := RemoveById(books, books[10].id);
      && |after| == 10
      && Body(false, FilteredBooks(after, "", "", ""), 2) == NoBooksFound
      && TotalPages(|FilteredBooks(after, "", "", "")|) == 1
  {
    var after := RemoveById(books, books[10].id);
    assert HasId(books, books[10].id);
    RemoveByIdUnique(books, books[10].id);
    FilteredBooksAllWhenUnfiltered(books);
    FilteredBooksAllWhenUnfiltered(after);
    PageRowsWindow(books, 2);
    assert books[10..11] == [books[10]];
  }
}
