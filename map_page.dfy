/**
 * The map page: its module-level state (the signed-in user and the markers on the map) and
 * the operations that read and write the user-scoped tree lists and the account registry.
 */
module MapPage {
  import opened Common
  import opened Store
  import opened Cookies

  /** The errors `register` and `login` throw. */
  datatype AuthError = UserAlreadyExists | UserNotFound | InvalidPassword

  function Message(e: AuthError): (m: string)
    ensures m == "User already exists" <==> e == UserAlreadyExists
    ensures m == "User not found" <==> e == UserNotFound
    ensures m == "Invalid password" <==> e == InvalidPassword
  {
    match e
    case UserAlreadyExists => "User already exists"
    case UserNotFound => "User not found"
    case InvalidPassword => "Invalid password"
  }

  /** A `<wpt>` element as the XML parser delivers it: its `lat`/`lon` attributes and the text of its first `<name>`. */
  datatype Waypoint = Waypoint(lat: Option<string>, lon: Option<string>, name: Option<string>)

  const ImportedKind: string := "Other"
  const ImportedName: string := "Imported Tree"

  /** The tree object the import builds for one waypoint, before `saveTree` gives it an id. */
  function ImportedTree(w: Waypoint, date: string): Tree {
    Tree("", ImportedKind, w.name.GetOr(ImportedName), ParsedFrom(w.lat), ParsedFrom(w.lon), date, map[])
  }

  /** The trees an import stores, one per waypoint and in document order, each with its fresh id. */
  function Imported(wpts: seq<Waypoint>, ids: seq<string>, dates: seq<string>): (ts: seq<Tree>)
    requires |ids| == |wpts| && |dates| == |wpts|
    ensures |ts| == |wpts|
    ensures forall i :: 0 <= i < |wpts| ==>
      && ts[i].id == ids[i] && ts[i].kind == "Other" && ts[i].date == dates[i]
      && ts[i].name == (if wpts[i].name.Some? then wpts[i].name.value else "Imported Tree")
      && ts[i].lat == ParsedFrom(wpts[i].lat) && ts[i].lng == ParsedFrom(wpts[i].lon)
  {
    seq(|wpts|, i requires 0 <= i < |wpts| => ImportedTree(wpts[i], dates[i]).(id := ids[i]))
  }

  class App {
    /** `localStorage`. */
    var storage: Storage
    /** `currentUser`: the email of the signed-in user, if any. */
    var currentUser: Option<string>
    /** `markers`: the trees currently drawn on the map, in drawing order. */
    var markers: seq<Tree>

    /** The map shows exactly the signed-in user's stored trees, and nothing when signed out. */
    ghost predicate Synced()
      reads this
    {
      match currentUser
      case None => markers == []
      case Some(email) => markers == ReadTrees(storage, KeyFor(email))
    }

    /** The page as it loads, before a session is restored: nobody signed in, an empty map. */
    constructor (initial: Storage)
      ensures storage == initial && currentUser == None && markers == []
      ensures Synced()
    {
      storage := initial;
      currentUser := None;
      markers := [];
    }

    /** `loadTrees`: redraw the markers from the signed-in user's list; nothing when signed out. */
    method LoadTrees()
      modifies this`markers
      ensures currentUser.None? ==> markers == old(markers)
      ensures currentUser.Some? ==> markers == ReadTrees(storage, KeyFor(currentUser.value))
    {
      var key := TreesKeyOf(currentUser);
      if key.None? {
        return;
      }
      var trees := ReadTrees(storage, key.value);
      markers := [];
      for i := 0 to |trees|
        invariant markers == trees[..i]
      {
        markers := markers + [trees[i]];
      }
      assert trees[..|trees|] == trees;
    }

    /** `saveTree`: append the tree, under a fresh id, to the signed-in user's list; refuse when signed out. */
    method SaveTree(draft: Tree, freshId: string) returns (saved: bool)
      modifies this`storage, this`markers
      ensures saved <==> currentUser.Some?
      ensures !saved ==> storage == old(storage) && markers == old(markers)
      ensures saved ==>
        var key := KeyFor(currentUser.value);
        var tree := draft.(id := freshId);
        && storage == old(storage)[key := TreeList(old(ReadTrees(storage, key)) + [tree])]
        && ReadTrees(storage, key) == old(ReadTrees(storage, key)) + [tree]
        && markers == old(markers) + [tree]
      ensures forall email :: Some(email) != currentUser ==>
        ReadTrees(storage, KeyFor(email)) == old(ReadTrees(storage, KeyFor(email)))
      ensures ReadUsers(storage) == old(ReadUsers(storage))
      ensures old(Synced()) ==> Synced()
    {
      var key := TreesKeyOf(currentUser);
      if key.None? {
        return false;
      }
      var trees := ReadTrees(storage, key.value);
      var tree := draft.(id := freshId);
      trees := trees + [tree];
      storage := storage[key.value := TreeList(trees)];
      markers := markers + [tree];
      OtherListsUnchanged(old(storage), currentUser.value, TreeList(trees));
      return true;
    }

    /** `deleteTree`: when confirmed and signed in, keep only the trees with a different id, then reload. */
    method DeleteTree(id: string, confirmed: bool)
      modifies this`storage, this`markers
      ensures !confirmed || currentUser.None? ==> storage == old(storage) && markers == old(markers)
      ensures confirmed && currentUser.Some? ==>
        var key := KeyFor(currentUser.value);
        && storage == old(storage)[key := TreeList(WithoutId(old(ReadTrees(storage, key)), id))]
        && markers == ReadTrees(storage, key)
      ensures forall email :: Some(email) != currentUser ==>
        ReadTrees(storage, KeyFor(email)) == old(ReadTrees(storage, KeyFor(email)))
      ensures ReadUsers(storage) == old(ReadUsers(storage))
      ensures old(Synced()) ==> Synced()
    {
      if !confirmed {
        return;
      }
      var key := TreesKeyOf(currentUser);
      if key.None? {
        return;
      }
      var trees := ReadTrees(storage, key.value);
      var updated := WithoutId(trees, id);
      storage := storage[key.value := TreeList(updated)];
      OtherListsUnchanged(old(storage), currentUser.value, TreeList(updated));
      LoadTrees();
    }

    /**
     * `checkSession`: a non-empty session cookie in `document.cookie` signs that email in and
     * draws its trees; otherwise nothing changes.
     */
    method CheckSession(header: string) returns (signedIn: bool)
      modifies this`currentUser, this`markers
      ensures var session := CookieValue(header, SessionCookie);
        && (signedIn <==> session.Some? && session.value != "")
        && (signedIn ==> currentUser == session && markers == ReadTrees(storage, KeyFor(session.value)))
        && (!signedIn ==> currentUser == old(currentUser) && markers == old(markers))
      ensures signedIn ==> Synced()
    {
      var email := Cookies.GetCookie(header, SessionCookie);
      if email.None? || email.value == "" {
        return false;
      }
      currentUser := email;
      LoadTrees();
      return true;
    }

    /** `register`: add the account with the hashed password, unless the email is taken. */
    method Register(email: string, password: string) returns (r: Outcome<AuthError>)
      modifies this`storage
      ensures email in old(ReadUsers(storage)) ==> r == Fail(UserAlreadyExists) && storage == old(storage)
      ensures email !in old(ReadUsers(storage)) ==>
        && r == Pass
        && storage == old(storage)[UsersKey := Registry(old(ReadUsers(storage))[email := Account(email, Md5(password))])]
      ensures forall e :: ReadTrees(storage, KeyFor(e)) == old(ReadTrees(storage, KeyFor(e)))
      ensures old(Synced()) ==> Synced()
    {
      var users := ReadUsers(storage);
      if email in users {
        return Fail(UserAlreadyExists);
      }
      var hashedPassword := Md5(password);
      users := users[email := Account(email, hashedPassword)];
      storage := storage[UsersKey := Registry(users)];
      forall e ensures ReadTrees(storage, KeyFor(e)) == ReadTrees(old(storage), KeyFor(e)) {
        KeyForNotRegistry(e);
      }
      return Pass;
    }

    /** `login`: check the account and the password hash, then sign in and load that user's trees. */
    method Login(email: string, password: string) returns (r: Outcome<AuthError>)
      modifies this`currentUser, this`markers
      ensures email !in ReadUsers(storage) ==> r == Fail(UserNotFound)
      ensures email in ReadUsers(storage) && ReadUsers(storage)[email].password != Md5(password) ==>
        r == Fail(InvalidPassword)
      ensures r.Pass? <==> email in ReadUsers(storage) && ReadUsers(storage)[email].password == Md5(password)
      ensures r.Fail? ==> currentUser == old(currentUser) && markers == old(markers)
      ensures r.Pass? ==> currentUser == Some(email) && markers == ReadTrees(storage, KeyFor(email))
      ensures old(Synced()) || r.Pass? ==> Synced()
    {
      var users := ReadUsers(storage);
      if email !in users {
        return Fail(UserNotFound);
      }
      var user := users[email];
      var hashedPassword := Md5(password);
      if user.password != hashedPassword {
        return Fail(InvalidPassword);
      }
      currentUser := Some(email);
      LoadTrees();
      return Pass;
    }

    /** `logout`: sign out and clear the map; the stored lists stay as they are. */
    method Logout()
      modifies this`currentUser, this`markers
      ensures currentUser == None && markers == []
      ensures storage == old(storage)
      ensures Synced()
    {
      currentUser := None;
      markers := [];
    }

    /** The loop of `handleGPXUpload`: save one tree per waypoint and count every waypoint. */
    method ImportWaypoints(wpts: seq<Waypoint>, ids: seq<string>, dates: seq<string>) returns (count: nat)
      requires |ids| == |wpts| && |dates| == |wpts|
      modifies this`storage, this`markers
      ensures count == |wpts|
      ensures currentUser.None? || wpts == [] ==> storage == old(storage) && markers == old(markers)
      ensures currentUser.Some? && wpts != [] ==>
        var key := KeyFor(currentUser.value);
        && storage == old(storage)[key := TreeList(old(ReadTrees(storage, key)) + Imported(wpts, ids, dates))]
        && markers == old(markers) + Imported(wpts, ids, dates)
      ensures old(Synced()) ==> Synced()
    {
      count := 0;
      for i := 0 to |wpts|
        invariant count == i
        invariant currentUser == old(currentUser)
        invariant currentUser.None? || i == 0 ==> storage == old(storage) && markers == old(markers)
        invariant currentUser.Some? && i > 0 ==>
          var key := KeyFor(currentUser.value);
          && storage == old(storage)[key := TreeList(old(ReadTrees(storage, key)) + Imported(wpts[..i], ids[..i], dates[..i]))]
          && markers == old(markers) + Imported(wpts[..i], ids[..i], dates[..i])
        invariant old(Synced()) ==> Synced()
      {
        var tree := ImportedTree(wpts[i], dates[i]);
        ghost var before := storage;
        var _ := SaveTree(tree, ids[i]);
        assert Imported(wpts[..i + 1], ids[..i + 1], dates[..i + 1])
            == Imported(wpts[..i], ids[..i], dates[..i]) + [tree.(id := ids[i])];
        if currentUser.Some? {
          var key := KeyFor(currentUser.value);
          var stored := old(ReadTrees(storage, key));
          var done := Imported(wpts[..i], ids[..i], dates[..i]);
          var item := TreeList(stored + (done + [tree.(id := ids[i])]));
          if i == 0 {
            assert done == [];
            assert ReadTrees(before, key) + [tree.(id := ids[i])] == stored + (done + [tree.(id := ids[i])]);
          } else {
            assert ReadTrees(before, key) == stored + done;
            assert ReadTrees(before, key) + [tree.(id := ids[i])] == stored + (done + [tree.(id := ids[i])]);
            assert before[key := item] == old(storage)[key := item];
          }
        }
        count := count + 1;
      }
      assert wpts[..|wpts|] == wpts && ids[..|ids|] == ids && dates[..|dates|] == dates;
    }
  }

  /** Writing one user's list leaves every other user's list as it was. */
  lemma OtherListsUnchanged(s: Storage, owner: string, item: Item)
    ensures forall email :: email != owner ==>
      ReadTrees(s[KeyFor(owner) := item], KeyFor(email)) == ReadTrees(s, KeyFor(email))
    ensures ReadUsers(s[KeyFor(owner) := item]) == ReadUsers(s)
  {
    forall email | email != owner
      ensures ReadTrees(s[KeyFor(owner) := item], KeyFor(email)) == ReadTrees(s, KeyFor(email))
    {
      KeyForInjective(owner, email);
    }
    KeyForNotRegistry(owner);
  }
}
