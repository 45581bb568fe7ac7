/**
 * The admin page for managing user roles: it looks a user up by wallet
 * address or id in the list it holds, and asks the server to grant or
 * revoke another user's admin flag.  The page's state is a class; the
 * server's answer to a role change is a parameter.
 */
module AdminUsersPage {
  import opened Wrappers
  import Text

  /** A user as the page receives it. */
  datatype UserData = UserData(
    id: string,
    walletAddress: string,
    points: int,
    cryptoBalance: string,
    isAdmin: bool,
    createdAt: string)

  /** How the role-change request ended: a success message, a refusal, or a thrown error. */
  datatype RoleResponse = Accepted(message: string) | Refused(error: string) | Thrown(errorMessage: string)

  const ENTER_ADDRESS: string := "Please enter a wallet address to search."
  const NOT_FOUND: string := "User not found."
  const NOT_CONNECTED: string := "Your wallet is not connected."
  const OWN_STATUS: string := "You cannot change your own admin status through this panel."

  /** A user is found by a term equal, up to case, to its wallet address or its id. */
  predicate UserMatches(u: UserData, term: string) {
    Text.Lower(u.walletAddress) == Text.Lower(term) || Text.Lower(u.id) == Text.Lower(term)
  }

  /** The position of the first user the term finds, or `|users|` when none. */
  function FirstMatch(users: seq<UserData>, term: string): (i: nat)
    ensures i <= |users|
    ensures i < |users| ==> UserMatches(users[i], term)
    ensures forall j :: 0 <= j < i ==> !UserMatches(users[j], term)
  {
    if users == [] then 0
    else if UserMatches(users[0], term) then 0
    else 1 + FirstMatch(users[1..], term)
  }

  /** `allUsers.find(...)`: the first user the term finds, if any. */
  function FindUser(users: seq<UserData>, term: string): (r: Option<UserData>)
    ensures r.None? <==> forall j :: 0 <= j < |users| ==> !UserMatches(users[j], term)
    ensures r.Some? ==> r.value in users && UserMatches(r.value, term)
  {
    var i := FirstMatch(users, term);
    if i < |users| then Some(users[i]) else None
  }

  /** Terms that differ only in case find the same user. */
  lemma FindIgnoresCase(users: seq<UserData>, term: string, other: string)
    requires Text.SameIgnoringCase(term, other)
    ensures FindUser(users, term) == FindUser(users, other)
  {
    FirstMatchIgnoresCase(users, term, other);
  }

  lemma {:induction false} FirstMatchIgnoresCase(users: seq<UserData>, term: string, other: string)
    requires Text.SameIgnoringCase(term, other)
    ensures FirstMatch(users, term) == FirstMatch(users, other)
  {
    if users != [] {
      FirstMatchIgnoresCase(users[1..], term, other);
    }
  }

  class ManageUsersPage {
    var currentUserWallet: Option<string>
    var searchTerm: string
    var userFound: Option<UserData>
    var message: Option<string>
    var allUsers: seq<UserData>
    var loading: bool

    constructor (currentUserWallet: Option<string>, allUsers: seq<UserData>)
      ensures this.currentUserWallet == currentUserWallet && this.allUsers == allUsers
      ensures searchTerm == "" && userFound.None? && message.None? && !loading
    {
      this.currentUserWallet := currentUserWallet;
      this.allUsers := allUsers;
      searchTerm := "";
      userFound := None;
      message := None;
      loading := false;
    }

    /**
     * `handleSearch`: a blank term (white space only) asks for an address;
     * otherwise the first user matching the untrimmed term is shown, or
     * "User not found.".
     */
    method HandleSearch()
      modifies this
      ensures currentUserWallet == old(currentUserWallet) && searchTerm == old(searchTerm)
      ensures allUsers == old(allUsers)
      ensures Text.AllSpace(searchTerm) ==>
        userFound.None? && message == Some(ENTER_ADDRESS) && loading == old(loading)
      ensures !Text.AllSpace(searchTerm) ==>
        && !loading
        && userFound == FindUser(allUsers, searchTerm)
        && message == if userFound.None? then Some(NOT_FOUND) else None
    {
      Text.TrimEmptyIffAllSpace(searchTerm);
      if Text.Trim(searchTerm) == "" {
        message := Some(ENTER_ADDRESS);
        userFound := None;
        return;
      }
      loading := true;
      message := None;
      userFound := None;
      var foundUser := FindUser(allUsers, searchTerm);
      if foundUser.Some? {
        userFound := foundUser;
        message := None;
      } else {
        message := Some(NOT_FOUND);
        userFound := None;
      }
      loading := false;
    }

    /**
     * `handleUpdateRole`: no request without a connected wallet or for
     * one's own wallet (compared up to case).  Otherwise the request is
     * sent; when it succeeds and the found user has the target's id up to
     * case, only that user's `isAdmin` changes on the page.
     */
    method HandleUpdateRole(targetWalletAddress: string, newAdminStatus: bool, response: RoleResponse)
      returns (requestSent: bool)
      modifies this
      ensures currentUserWallet == old(currentUserWallet) && searchTerm == old(searchTerm)
      ensures allUsers == old(allUsers)
      ensures requestSent ==> !loading
      ensures !requestSent ==> loading == old(loading)
      ensures requestSent <==>
        Truthy(currentUserWallet) && Text.Lower(targetWalletAddress) != Text.Lower(currentUserWallet.value)
      ensures !Truthy(currentUserWallet) ==> message == Some(NOT_CONNECTED) && unchanged(this`userFound)
      ensures Truthy(currentUserWallet) && !requestSent ==> message == Some(OWN_STATUS) && unchanged(this`userFound)
      ensures requestSent && response.Accepted? ==>
        && message == Some(response.message)
        && userFound == if old(userFound).Some? && Text.Lower(old(userFound).value.id) == Text.Lower(targetWalletAddress)
                        then Some(old(userFound).value.(isAdmin := newAdminStatus))
                        else old(userFound)
      ensures requestSent && response.Refused? ==>
        message == Some("Failed to update role: " + response.error) && userFound == old(userFound)
      ensures requestSent && response.Thrown? ==>
        message == Some("Failed to fetch events: " + response.errorMessage) && userFound == old(userFound)
    {
      if !Truthy(currentUserWallet) {
        message := Some(NOT_CONNECTED);
        return false;
      }
      if Text.Lower(targetWalletAddress) == Text.Lower(currentUserWallet.value) {
        message := Some(OWN_STATUS);
        return false;
      }
      requestSent := true;
      loading := true;
      message := None;
      match response {
        case Accepted(m) =>
          message := Some(m);
          if userFound.Some? && Text.Lower(userFound.value.id) == Text.Lower(targetWalletAddress) {
            userFound := Some(userFound.value.(isAdmin := newAdminStatus));
          }
        case Refused(e) =>
          message := Some("Failed to update role: " + e);
        case Thrown(e) =>
          message := Some("Failed to fetch events: " + e);
      }
      loading := false;
    }
  }
}
