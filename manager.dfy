/**
 * The password manager page as list state: the entries shown, the add form,
 * which passwords are revealed, and the transitions its handlers make. The
 * server's answers are parameters; `requests` records what the page asks
 * the server for.
 */
module Manager {
  import opened Common
  import opened Vault

  /** `passwords.filter(p => p._id !== id)`. */
  function RemoveById(list: seq<Entry>, id: Id): (r: seq<Entry>)
    ensures |r| <= |list|
    ensures forall e :: e in r <==> e in list && e.id != id
  {
    if list == [] then []
    else (if list[0].id != id then [list[0]] else []) + RemoveById(list[1..], id)
  }

  /** Filtering works piece by piece, so the kept entries stay in their order. */
  lemma {:induction false} RemoveByIdAppend(a: seq<Entry>, b: seq<Entry>, id: Id)
    ensures RemoveById(a + b, id) == RemoveById(a, id) + RemoveById(b, id)
  {
    if a == [] {
      assert a + b == b;
    } else {
      assert (a + b)[1..] == a[1..] + b;
      RemoveByIdAppend(a[1..], b, id);
    }
  }

  /** Removing an id no entry has changes nothing. */
  lemma {:induction false} RemoveByIdAbsent(list: seq<Entry>, id: Id)
    requires forall j :: 0 <= j < |list| ==> list[j].id != id
    ensures RemoveById(list, id) == list
  {
    if list != [] {
      RemoveByIdAbsent(list[1..], id);
    }
  }

  /** Deleting the entry just added, whose id is new, gives back the list before the add. */
  lemma DeleteUndoesAdd(e: Entry, list: seq<Entry>)
    requires forall j :: 0 <= j < |list| ==> list[j].id != e.id
    ensures RemoveById([e] + list, e.id) == list
  {
    RemoveByIdAppend([e], list, e.id);
    RemoveByIdAbsent(list, e.id);
  }

  /** `showPassword[id]`, where a missing key reads as `undefined`, that is hidden. */
  predicate IsShown(shown: map<Id, bool>, id: Id)
  {
    id in shown && shown[id]
  }

  /** `{ ...prev, [id]: !prev[id] }`. */
  function Toggle(shown: map<Id, bool>, id: Id): (r: map<Id, bool>)
    ensures r.Keys == shown.Keys + {id}
    ensures IsShown(r, id) == !IsShown(shown, id)
    ensures forall k :: k in shown && k != id ==> r[k] == shown[k]
  {
    shown[id := !IsShown(shown, id)]
  }

  /** Toggling the same id twice shows and hides exactly what was shown and hidden before. */
  lemma ToggleTwice(shown: map<Id, bool>, id: Id, k: Id)
    ensures IsShown(Toggle(Toggle(shown, id), id), k) == IsShown(shown, k)
  {
  }

  /** What the page asks the server for. */
  datatype Request = ListRequest | AddRequest(website: string, username: string, password: string) | DeleteRequest(id: Id)

  const LOAD_FAILED := "Failed to load passwords"
  const FILL_ALL_FIELDS := "Please fill in all fields"
  const ADD_FAILED := "Failed to add password"
  const DELETE_FAILED := "Failed to delete password"

  class VaultPage {
    var passwords: seq<Entry>
    var website: string
    var username: string
    var password: string
    var showPassword: map<Id, bool>
    var loading: bool
    var error: string
    var alerts: seq<string>
    var requests: seq<Request>

    constructor()
      ensures passwords == [] && website == "" && username == "" && password == ""
      ensures showPassword == map[] && loading && error == "" && alerts == [] && requests == []
    {
      passwords := [];
      website, username, password := "", "", "";
      showPassword := map[];
      loading := true;
      error := "";
      alerts := [];
      requests := [];
    }

    /**
     * `fetchPasswords`: the list the server returns replaces the shown list;
     * a failure keeps the old list and sets the error. Either way loading ends.
     */
    method FetchPasswords(response: Option<seq<Entry>>)
      modifies this
      ensures requests == old(requests) + [ListRequest] && !loading
      ensures response.Some? ==> passwords == response.value && error == old(error)
      ensures response.None? ==> passwords == old(passwords) && error == LOAD_FAILED
      ensures website == old(website) && username == old(username) && password == old(password)
      ensures showPassword == old(showPassword) && alerts == old(alerts)
    {
      loading := true;
      requests := requests + [ListRequest];
      match response {
        case Some(list) =>
          passwords := list;
        case None =>
          error := LOAD_FAILED;
      }
      loading := false;
    }

    /**
     * `handleAddPassword`: an empty field is refused with an alert and no
     * request. Otherwise the three fields are posted; the entry the server
     * returns goes to the front of the list and the form is cleared, and a
     * failure only raises an alert.
     */
    method HandleAddPassword(response: Option<Entry>)
      modifies this
      ensures old(website) == "" || old(username) == "" || old(password) == "" ==>
        && alerts == old(alerts) + [FILL_ALL_FIELDS] && requests == old(requests)
        && passwords == old(passwords)
        && website == old(website) && username == old(username) && password == old(password)
      ensures old(website) != "" && old(username) != "" && old(password) != "" ==>
        && requests == old(requests) + [AddRequest(old(website), old(username), old(password))]
        && (response.Some? ==>
              && passwords == [response.value] + old(passwords)
              && website == "" && username == "" && password == ""
              && alerts == old(alerts))
        && (response.None? ==>
              && passwords == old(passwords)
              && website == old(website) && username == old(username) && password == old(password)
              && alerts == old(alerts) + [ADD_FAILED])
      ensures showPassword == old(showPassword) && error == old(error) && loading == old(loading)
    {
      if website == "" || username == "" || password == "" {
        alerts := alerts + [FILL_ALL_FIELDS];
        return;
      }
      requests := requests + [AddRequest(website, username, password)];
      match response {
        case Some(entry) =>
          passwords := [entry] + passwords;
          website := "";
          username := "";
          password := "";
        case None =>
          alerts := alerts + [ADD_FAILED];
      }
    }

    /**
     * `handleDeletePassword(id)`: nothing happens unless the user confirms;
     * after a successful delete request the entries with that id leave the
     * list, and a failure raises an alert.
     */
    method HandleDeletePassword(id: Id, confirmed: bool, deleted: bool)
      modifies this
      ensures !confirmed ==> passwords == old(passwords) && requests == old(requests) && alerts == old(alerts)
      ensures confirmed ==> requests == old(requests) + [DeleteRequest(id)]
      ensures confirmed && deleted ==> passwords == RemoveById(old(passwords), id) && alerts == old(alerts)
      ensures confirmed && !deleted ==> passwords == old(passwords) && alerts == old(alerts) + [DELETE_FAILED]
      ensures website == old(website) && username == old(username) && password == old(password)
      ensures showPassword == old(showPassword) && error == old(error) && loading == old(loading)
    {
      if confirmed {
        requests := requests + [DeleteRequest(id)];
        if deleted {
          passwords := RemoveById(passwords, id);
        } else {
          alerts := alerts + [DELETE_FAILED];
        }
      }
    }

    /** `togglePasswordVisibility(id)`: only that id's visibility flips. */
    method TogglePasswordVisibility(id: Id)
      modifies this
      ensures showPassword == Toggle(old(showPassword), id)
      ensures IsShown(showPassword, id) == !IsShown(old(showPassword), id)
      ensures forall k :: k != id ==> IsShown(showPassword, k) == IsShown(old(showPassword), k)
      ensures passwords == old(passwords) && requests == old(requests) && alerts == old(alerts)
      ensures website == old(website) && username == old(username) && password == old(password)
      ensures error == old(error) && loading == old(loading)
    {
      showPassword := Toggle(showPassword, id);
    }
  }
}
