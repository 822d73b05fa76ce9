/**
 * The mention picker of `src/store/mention.ts`: whether the user is tagging
 * someone, the search typed inside the mention, the users matching it and
 * the highlighted one. The store's `useState` record becomes the fields of
 * a class whose methods are the store's transitions; the users come from
 * the users context and are fixed for the store's life.
 */
module MentionStore {

  import opened Common

  /** The fields of `UserDB` that the picker reads. */
  datatype User = User(firstName: string, lastName: string, username: string)

  /** `userFullName` of `src/store/user.tsx`. */
  function FullName(u: User): string
  {
    u.firstName + " " + u.lastName
  }

  /** `createFilterMentionSearch(search)(u)`. */
  predicate MatchesSearch(search: string, u: User)
  {
    Includes(FullName(u), search) || Includes(u.username, search)
  }

  /**
   * The users `startOrContinueWantingToTagUser` lists: all of them for an
   * empty search, else exactly those matching it, in their order.
   */
  function MatchingUsers(taggableUsers: seq<User>, search: string): (r: seq<User>)
    ensures search == "" ==> r == taggableUsers
    ensures forall u :: u in r <==> u in taggableUsers && MatchesSearch(search, u)
    ensures forall u :: multiset(r)[u] == if MatchesSearch(search, u) then multiset(taggableUsers)[u] else 0
    ensures IsSubsequence(r, taggableUsers)
  {
    if search == "" then
      forall u ensures MatchesSearch(search, u) {
        IncludesEmpty(FullName(u));
      }
      SubsequenceOfItself(taggableUsers);
      taggableUsers
    else
      FilterIsSubsequence(taggableUsers, u => MatchesSearch(search, u));
      FilterCounts(taggableUsers, u => MatchesSearch(search, u));
      Filter(taggableUsers, u => MatchesSearch(search, u))
  }

  /** `WantsToTagUser`, the store's record. */
  datatype WantsToTagUser = WantsToTagUser(
    wants: bool, search: string, usersMatchingSearch: seq<User>, selectedUserIndex: int)

  /** `TAGGABLE_USER_SEARCH_LIMIT`. */
  const TaggableUserSearchLimit: nat := 5

  /** `getTaggableUserLimit`: every listed user while the search is empty, else 5. */
  function TaggableUserLimit(w: WantsToTagUser): (r: nat)
    ensures w.search == "" ==> r == |w.usersMatchingSearch|
    ensures w.search != "" ==> r == TaggableUserSearchLimit
  {
    if w.search == "" then |w.usersMatchingSearch| else TaggableUserSearchLimit
  }

  /** `limitTaggableUsers`: the first `min(listed, limit)` listed users. */
  function LimitTaggableUsers(w: WantsToTagUser): (r: seq<User>)
    ensures |r| == if |w.usersMatchingSearch| < TaggableUserLimit(w)
                   then |w.usersMatchingSearch| else TaggableUserLimit(w)
    ensures r == w.usersMatchingSearch[..|r|]
    ensures w.search == "" ==> r == w.usersMatchingSearch
  {
    Slice(w.usersMatchingSearch, 0, TaggableUserLimit(w))
  }

  /** `Setter<number>`: a new value, or a function of the current one. */
  datatype Setter<!T> = Value(value: T) | Update(update: T -> T)

  /** `getSetterValue`. */
  function SetterValue<T>(setter: Setter<T>, currentValue: T): T
  {
    match setter
    case Value(v) => v
    case Update(f) => f(currentValue)
  }

  /** `getSelectedUser`: the highlighted user, or `None` when the index is off the list. */
  function SelectedUser(w: WantsToTagUser): (r: Option<User>)
    ensures r.Some? <==> 0 <= w.selectedUserIndex < |w.usersMatchingSearch|
    ensures r.Some? ==> r.value == w.usersMatchingSearch[w.selectedUserIndex]
  {
    At(w.usersMatchingSearch, w.selectedUserIndex)
  }

  /** The mention store over a fixed list of taggable users. */
  class MentionStore {
    const taggableUsers: seq<User>
    var wants: bool
    var search: string
    var usersMatchingSearch: seq<User>
    var selectedUserIndex: int

    /** The store's record. */
    function State(): WantsToTagUser
      reads this
    {
      WantsToTagUser(wants, search, usersMatchingSearch, selectedUserIndex)
    }

    /**
     * What every transition keeps: the index is 0 or on the list, the
     * list is drawn in order from the taggable users and every listed user
     * matches the search, and the search is empty while nobody is tagged.
     */
    predicate Valid()
      reads this
    {
      && (selectedUserIndex == 0 || 0 <= selectedUserIndex < |usersMatchingSearch|)
      && IsSubsequence(usersMatchingSearch, taggableUsers)
      && (forall u :: u in usersMatchingSearch ==> MatchesSearch(search, u))
      && (!wants ==> search == "")
    }

    /** The initial record: not tagging, empty search, no users listed, index 0. */
    constructor(taggableUsers: seq<User>)
      ensures this.taggableUsers == taggableUsers
      ensures State() == WantsToTagUser(false, "", [], 0)
      ensures Valid()
    {
      this.taggableUsers := taggableUsers;
      wants := false;
      search := "";
      usersMatchingSearch := [];
      selectedUserIndex := 0;
    }

    /** `stopWantingToTagUser`: back to not tagging, every user listed, index 0. */
    method Stop()
      modifies this
      ensures State() == WantsToTagUser(false, "", taggableUsers, 0)
      ensures Valid()
    {
      wants, search, usersMatchingSearch, selectedUserIndex := false, "", taggableUsers, 0;
      assert MatchingUsers(taggableUsers, "") == taggableUsers;
    }

    /** `startOrContinueWantingToTagUser`: tagging, with the users matching `search`, index 0. */
    method StartOrContinue(search: string)
      modifies this
      ensures State() == WantsToTagUser(true, search, MatchingUsers(taggableUsers, search), 0)
      ensures Valid()
    {
      var matching := if search == "" then taggableUsers
        else Filter(taggableUsers, u => MatchesSearch(search, u));
      assert matching == MatchingUsers(taggableUsers, search);
      wants, this.search, usersMatchingSearch, selectedUserIndex := true, search, matching, 0;
    }

    /**
     * `setSelectedUserIndex`: the new index is kept only when it is on the
     * list; otherwise nothing changes.
     */
    method SetSelectedUserIndex(index: Setter<int>)
      modifies this
      ensures var i := SetterValue(index, old(selectedUserIndex));
        if 0 <= i < |old(usersMatchingSearch)|
        then State() == old(State()).(selectedUserIndex := i)
        else State() == old(State())
      ensures old(Valid()) ==> Valid()
    {
      var i := SetterValue(index, selectedUserIndex);
      if i < 0 || i >= |usersMatchingSearch| {
        return;
      }
      selectedUserIndex := i;
    }

    /** `getSelectedUser` on the store's record. */
    function GetSelectedUser(): Option<User>
      reads this
    {
      SelectedUser(State())
    }
  }

  /**
   * In a valid store someone is highlighted exactly when the list is not
   * empty.
   */
  lemma SelectedWhenListed(w: WantsToTagUser)
    requires w.selectedUserIndex == 0 || 0 <= w.selectedUserIndex < |w.usersMatchingSearch|
    ensures SelectedUser(w).Some? <==> |w.usersMatchingSearch| > 0
  {
  }

  /** The picker shows at most five users for a non-empty search, all of them from the list. */
  lemma LimitedUsersListed(w: WantsToTagUser)
    ensures |LimitTaggableUsers(w)| <= |w.usersMatchingSearch|
    ensures w.search != "" ==> |LimitTaggableUsers(w)| <= 5
    ensures forall u :: u in LimitTaggableUsers(w) ==> u in w.usersMatchingSearch
  {
  }
}
