/**
 * The `App` component's state and its event handlers. Each React state
 * variable is a field; each handler is a method that replaces fields. The
 * REST calls are not performed: the caller passes in how each one turned out
 * (`saved`/`deleted` for a mutation, a `Fetch` for the list reload), and a
 * mutating handler returns the request it would have issued.
 */
module Dashboard {
  import opened Users
  import opened Subsequences
  import Text
  import Filtering
  import Pagination

  class App {
    var users: seq<UserRecord>
    var filteredUsers: seq<UserRecord>
    var isModalOpen: bool
    var userData: UserRecord
    var currentPage: int
    var filterStatus: string

    /** Pages are numbered from 1, and the shown list is drawn from the fetched one in its order. */
    ghost predicate Valid()
      reads this
    {
      currentPage >= 1 && IsSubsequence(filteredUsers, users)
    }

    /** The current page lies between 1 and the last non-empty page (page 1 when nothing is shown). */
    ghost predicate PageInRange()
      reads this
    {
      1 <= currentPage <= Pagination.Max(1, Pagination.TotalPages(|filteredUsers|))
    }

    /** The initial state, before the mount-time fetch. */
    constructor ()
      ensures Valid() && PageInRange()
      ensures users == [] && filteredUsers == [] && !isModalOpen && userData == EmptyForm
      ensures currentPage == 1 && filterStatus == "all"
    {
      users := [];
      filteredUsers := [];
      isModalOpen := false;
      userData := EmptyForm;
      currentPage := 1;
      filterStatus := "all";
      SubsequenceReflexive<UserRecord>([]);
    }

    /** The table's rows: row i is the record numbered SerialNumber(currentPage, i) in the shown list. */
    function CurrentUsers(): (r: seq<UserRecord>)
      reads this
      requires Valid()
      ensures |r| <= Pagination.UsersPerPage
      ensures forall i :: 0 <= i < |r| ==>
                1 <= Pagination.SerialNumber(currentPage, i) <= |filteredUsers|
                && r[i] == filteredUsers[Pagination.SerialNumber(currentPage, i) - 1]
      ensures r == [] <==> currentPage > Pagination.TotalPages(|filteredUsers|)
    {
      Pagination.PageEmptyIff(filteredUsers, currentPage);
      Pagination.PageIsContiguous(filteredUsers, currentPage);
      Pagination.CurrentUsers(filteredUsers, currentPage)
    }

    /** `getAllUsers`: on success both lists become the fetched list; on failure nothing changes. */
    method GetAllUsers(fetch: Fetch)
      requires Valid()
      modifies this
      ensures Valid()
      ensures fetch.Fetched? ==> users == fetch.data && filteredUsers == fetch.data
      ensures fetch.FetchFailed? ==> users == old(users) && filteredUsers == old(filteredUsers)
      ensures isModalOpen == old(isModalOpen) && userData == old(userData)
      ensures currentPage == old(currentPage) && filterStatus == old(filterStatus)
    {
      if fetch.Fetched? {
        users := fetch.data;
        filteredUsers := fetch.data;
        SubsequenceReflexive(fetch.data);
      }
    }

    /** `filterUsers`: the shown list becomes the filter of the fetched list; nothing else changes. */
    method FilterUsers(status: string, searchText: string)
      requires Valid()
      modifies this`filteredUsers
      ensures Valid()
      ensures filteredUsers == Filtering.FilterUsers(users, status, searchText)
    {
      filteredUsers := Filtering.FilterUsers(users, status, searchText);
      Filtering.FilterExact(users, status, searchText);
    }

    /** `handleSearchChange`: filter by the current status and the lower-cased text; the page is kept. */
    method HandleSearchChange(value: string)
      requires Valid()
      modifies this`filteredUsers
      ensures Valid()
      ensures filteredUsers == Filtering.FilterUsers(users, filterStatus, Text.ToLower(value))
    {
      var searchText := Text.ToLower(value);
      FilterUsers(filterStatus, searchText);
    }

    /** `handleFilterStatusChange`: store the status and filter by it with no search text; the page is kept. */
    method HandleFilterStatusChange(status: string)
      requires Valid()
      modifies this`filterStatus, this`filteredUsers
      ensures Valid()
      ensures filterStatus == status
      ensures filteredUsers == Filtering.FilterUsers(users, status, "")
    {
      filterStatus := status;
      FilterUsers(status, "");
    }

    /**
     * `handleDelete`: nothing unless confirmed; then a delete request, and
     * after a successful delete a reload of the list.
     */
    method HandleDelete(id: Option<string>, confirmed: bool, deleted: bool, fetch: Fetch) returns (req: Request)
      requires Valid()
      modifies this
      ensures Valid()
      ensures req == if confirmed then Delete(PathId(id)) else NoRequest
      ensures !(confirmed && deleted) ==> unchanged(this)
      ensures confirmed && deleted && fetch.Fetched? ==> users == fetch.data && filteredUsers == fetch.data
      ensures fetch.FetchFailed? ==> users == old(users) && filteredUsers == old(filteredUsers)
      ensures isModalOpen == old(isModalOpen) && userData == old(userData)
      ensures currentPage == old(currentPage) && filterStatus == old(filterStatus)
    {
      req := NoRequest;
      if confirmed {
        req := Delete(PathId(id));
        if deleted {
          GetAllUsers(fetch);
        }
      }
    }

    /** `handleAddRecord`: load the empty template and open the modal. */
    method HandleAddRecord()
      requires Valid()
      modifies this`userData, this`isModalOpen
      ensures Valid()
      ensures userData == EmptyForm && isModalOpen
    {
      userData := EmptyForm;
      isModalOpen := true;
    }

    /** `closeModal`: close the modal and reload the list; the buffer is left as it is. */
    method CloseModal(fetch: Fetch)
      requires Valid()
      modifies this
      ensures Valid()
      ensures !isModalOpen
      ensures fetch.Fetched? ==> users == fetch.data && filteredUsers == fetch.data
      ensures fetch.FetchFailed? ==> users == old(users) && filteredUsers == old(filteredUsers)
      ensures userData == old(userData) && currentPage == old(currentPage) && filterStatus == old(filterStatus)
    {
      isModalOpen := false;
      GetAllUsers(fetch);
    }

    /** `handleData`: the input named `name` reported `value`. */
    method HandleData(name: string, value: string)
      requires Valid()
      modifies this`userData
      ensures Valid()
      ensures userData == SetField(old(userData), name, value)
    {
      userData := SetField(userData, name, value);
    }

    /**
     * `handleSubmit`: with a required field empty, no request and no change.
     * Otherwise a partial update (id present) or a creation (id absent); when
     * it succeeds the modal closes and the list is reloaded, when it fails
     * nothing changes.
     */
    method HandleSubmit(saved: bool, fetch: Fetch) returns (req: Request)
      requires Valid()
      modifies this
      ensures Valid()
      ensures req == SubmitRequest(old(userData))
      ensures req.NoRequest? || !saved ==> unchanged(this)
      ensures !req.NoRequest? && saved ==> !isModalOpen
      ensures !req.NoRequest? && saved && fetch.Fetched? ==> users == fetch.data && filteredUsers == fetch.data
      ensures fetch.FetchFailed? ==> users == old(users) && filteredUsers == old(filteredUsers)
      ensures userData == old(userData) && currentPage == old(currentPage) && filterStatus == old(filterStatus)
    {
      if userData.name == "" || userData.email == "" || userData.phone == "" {
        req := NoRequest;
        return;
      }
      if HasId(userData) {
        req := Patch(userData.id.value, userData);
      } else {
        req := Post(userData);
      }
      if saved {
        CloseModal(fetch);
      }
    }

    /** `handleUpdateRecord`: load the record, id included, and open the modal. */
    method HandleUpdateRecord(user: UserRecord)
      requires Valid()
      modifies this`userData, this`isModalOpen
      ensures Valid()
      ensures userData == user && isModalOpen
    {
      userData := user;
      isModalOpen := true;
    }

    /**
     * `handleNextPage`: one page on while the current page is before the last
     * one; it never moves onto an empty page and never leaves the range.
     */
    method HandleNextPage()
      requires Valid()
      modifies this`currentPage
      ensures Valid()
      ensures currentPage == if old(currentPage) < Pagination.TotalPages(|filteredUsers|)
                             then old(currentPage) + 1 else old(currentPage)
      ensures currentPage != old(currentPage) ==> CurrentUsers() != []
      ensures old(PageInRange()) ==> PageInRange()
    {
      if currentPage < Pagination.TotalPages(|filteredUsers|) {
        currentPage := currentPage + 1;
      }
    }

    /**
     * `handlePreviousPage`: one page back unless on page 1; from a page in
     * range it lands on a non-empty page.
     */
    method HandlePreviousPage()
      requires Valid()
      modifies this`currentPage
      ensures Valid()
      ensures currentPage == if old(currentPage) > 1 then old(currentPage) - 1 else old(currentPage)
      ensures old(PageInRange()) ==> PageInRange()
      ensures old(PageInRange()) && currentPage != old(currentPage) ==> CurrentUsers() != []
    {
      if currentPage > 1 {
        currentPage := currentPage - 1;
      }
    }
  }

  /**
   * Seven records, everything shown: page 1 holds the first five, Previous
   * on page 1 does nothing, Next goes to page 2 with the last two, and Next
   * on page 2 does nothing.
   */
  method SevenRecordsPaging(records: seq<UserRecord>) returns (first: seq<UserRecord>, second: seq<UserRecord>, lastPage: int)
    requires |records| == 7
    ensures first == records[..5] && second == records[5..] && lastPage == 2
  {
    var app := new App();
    app.GetAllUsers(Fetched(records));
    Pagination.SevenRecords(records);
    app.HandlePreviousPage();
    first := app.CurrentUsers();
    app.HandleNextPage();
    second := app.CurrentUsers();
    app.HandleNextPage();
    lastPage := app.currentPage;
  }

  /** An Add form with an empty name is refused: no request, and the modal stays open. */
  method SubmitWithoutName(email: string, phone: string, saved: bool, fetch: Fetch) returns (req: Request, open: bool)
    ensures req == NoRequest && open
  {
    var app := new App();
    app.HandleAddRecord();
    app.HandleData("email", email);
    app.HandleData("phone", phone);
    req := app.HandleSubmit(saved, fetch);
    open := app.isModalOpen;
  }

  /**
   * Editing a record and submitting it unchanged sends a partial update of
   * that id with the record's own fields; on success the modal closes and
   * the reloaded list is shown.
   */
  method EditAndSubmitUnchanged(record: UserRecord, reloaded: seq<UserRecord>) returns (req: Request, open: bool, shown: seq<UserRecord>)
    requires RequiredFilled(record) && HasId(record)
    ensures req == Patch(record.id.value, record)
    ensures !open && shown == reloaded
  {
    var app := new App();
    app.HandleUpdateRecord(record);
    req := app.HandleSubmit(true, Fetched(reloaded));
    open := app.isModalOpen;
    shown := app.filteredUsers;
  }

  /** A declined confirmation issues no request and keeps the list. */
  method DeclineDelete(records: seq<UserRecord>, id: Option<string>, fetch: Fetch) returns (req: Request, shown: seq<UserRecord>)
    ensures req == NoRequest && shown == records
  {
    var app := new App();
    app.GetAllUsers(Fetched(records));
    req := app.HandleDelete(id, false, true, fetch);
    shown := app.filteredUsers;
  }
}
