/**
 * `filterUsers`: narrow the list by the status selector, then by the search
 * text against the lower-cased name and email.
 */
module Filtering {
  import opened Text
  import opened Users
  import opened Subsequences

  /** The status selector: "active" and "inactive" narrow, any other value keeps all. */
  predicate StatusMatches(status: string, u: UserRecord)
  {
    if status == "active" then u.status == true
    else if status == "inactive" then u.status == false
    else true
  }

  /** The search text occurs in the lower-cased name or the lower-cased email. */
  predicate SearchMatches(searchText: string, u: UserRecord)
  {
    Includes(ToLower(u.name), searchText) || Includes(ToLower(u.email), searchText)
  }

  /**
   * The first stage: the records the status selector lets through, each one
   * from the list and matching the status (ByStatusIsSelect pins it down).
   */
  function ByStatus(users: seq<UserRecord>, status: string): (r: seq<UserRecord>)
    ensures |r| <= |users|
    ensures forall u :: u in r ==> u in users && StatusMatches(status, u)
  {
    if status == "active" then Select(users, (u: UserRecord) => u.status == true)
    else if status == "inactive" then Select(users, (u: UserRecord) => u.status == false)
    else users
  }

  /**
   * `filterUsers(status, searchText)`: the new value of `filteredUsers`. It
   * is no longer than the list and holds only records of the list that pass
   * both stages (FilterExact pins it down).
   */
  function FilterUsers(users: seq<UserRecord>, status: string, searchText: string): (r: seq<UserRecord>)
    ensures |r| <= |users|
    ensures forall u :: u in r ==> u in users && Matches(status, searchText, u)
  {
    var filtered := ByStatus(users, status);
    if searchText != "" then Select(filtered, u => SearchMatches(searchText, u)) else filtered
  }

  /** The record passes both stages. */
  predicate Matches(status: string, searchText: string, u: UserRecord)
  {
    StatusMatches(status, u) && (searchText == "" || SearchMatches(searchText, u))
  }

  lemma ByStatusIsSelect(users: seq<UserRecord>, status: string)
    ensures ByStatus(users, status) == Select(users, u => StatusMatches(status, u))
  {
    if status == "active" {
      SelectExtensional(users, (u: UserRecord) => u.status == true, u => StatusMatches(status, u));
    } else if status == "inactive" {
      SelectExtensional(users, (u: UserRecord) => u.status == false, u => StatusMatches(status, u));
    } else {
      SelectAll(users, u => StatusMatches(status, u));
    }
  }

  /** The two-stage filter is one stable filter by the combined criterion. */
  lemma FilterIsOnePass(users: seq<UserRecord>, status: string, searchText: string)
    ensures FilterUsers(users, status, searchText) == Select(users, u => Matches(status, searchText, u))
  {
    ByStatusIsSelect(users, status);
    var st := u => StatusMatches(status, u);
    if searchText != "" {
      var sm := u => SearchMatches(searchText, u);
      SelectSelect(users, st, sm, u => Matches(status, searchText, u));
    } else {
      SelectExtensional(users, st, u => Matches(status, searchText, u));
    }
  }

  /**
   * The result is a subsequence of the list holding every matching record as
   * often as the list does and nothing else, and it is the only such
   * subsequence: order is kept and nothing is sorted or dropped.
   */
  lemma FilterExact(users: seq<UserRecord>, status: string, searchText: string)
    ensures IsSubsequence(FilterUsers(users, status, searchText), users)
    ensures forall u :: multiset(FilterUsers(users, status, searchText))[u]
                        == if Matches(status, searchText, u) then multiset(users)[u] else 0
    ensures forall r :: IsSubsequence(r, users)
                        && (forall u :: multiset(r)[u] == if Matches(status, searchText, u) then multiset(users)[u] else 0)
                        ==> r == FilterUsers(users, status, searchText)
  {
    var keep := u => Matches(status, searchText, u);
    FilterIsOnePass(users, status, searchText);
    SelectIsSubsequence(users, keep);
    forall u ensures multiset(FilterUsers(users, status, searchText))[u]
                     == if Matches(status, searchText, u) then multiset(users)[u] else 0 {
      SelectCount(users, keep, u);
    }
    forall r | IsSubsequence(r, users)
               && (forall u :: multiset(r)[u] == if Matches(status, searchText, u) then multiset(users)[u] else 0)
      ensures r == FilterUsers(users, status, searchText)
    {
      SelectUnique(r, users, keep);
    }
  }

  /** With "all" (or any value other than the two statuses) and no search text, the list is kept whole. */
  lemma FilterAllNoSearch(users: seq<UserRecord>, status: string)
    requires status != "active" && status != "inactive"
    ensures FilterUsers(users, status, "") == users
  {
  }

  /** "active" keeps exactly the records with status true, "inactive" exactly those with status false. */
  lemma FilterByStatus(users: seq<UserRecord>, active: bool)
    ensures var r := FilterUsers(users, if active then "active" else "inactive", "");
            IsSubsequence(r, users)
            && (forall u :: u in r <==> u in users && u.status == active)
            && (forall u: UserRecord :: u.status == active ==> multiset(r)[u] == multiset(users)[u])
  {
    var status := if active then "active" else "inactive";
    FilterExact(users, status, "");
    FilterIsOnePass(users, status, "");
    SelectMembers(users, u => Matches(status, "", u));
  }

  /**
   * The search narrows the status-filtered list: the result is a subsequence
   * of it (and so of the whole list), and a record is in the result exactly
   * when it is in that list and its lower-cased name or email contains the
   * search text.
   */
  lemma SearchNarrows(users: seq<UserRecord>, status: string, searchText: string)
    requires searchText != ""
    ensures var r := FilterUsers(users, status, searchText);
            var byStatus := FilterUsers(users, status, "");
            IsSubsequence(r, byStatus)
            && IsSubsequence(r, users)
            && forall u :: u in r <==> u in byStatus && SearchMatches(searchText, u)
  {
    var sm := u => SearchMatches(searchText, u);
    SelectIsSubsequence(ByStatus(users, status), sm);
    SelectMembers(ByStatus(users, status), sm);
    ByStatusIsSelect(users, status);
    SelectIsSubsequence(users, u => StatusMatches(status, u));
    SubsequenceTransitive(FilterUsers(users, status, searchText), ByStatus(users, status), users);
  }

  /**
   * The search box lower-cases what is typed before matching, so text that
   * occurs exactly as typed in the name or email (upper-case letters
   * included) still finds the record.
   */
  lemma SearchFindsTypedText(u: UserRecord, typed: string)
    requires Includes(u.name, typed) || Includes(u.email, typed)
    ensures SearchMatches(ToLower(typed), u)
  {
    if Includes(u.name, typed) {
      IncludesToLower(u.name, typed);
    } else {
      IncludesToLower(u.email, typed);
    }
  }
}
