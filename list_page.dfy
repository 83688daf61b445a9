/**
 * The tree-list page: its own copy of the signed-in user, the cookie jar it reads the session
 * from (with a `localStorage` fallback), the list it displays, and the two export buttons.
 */
module ListPage {
  import opened Common
  import Text
  import opened Store
  import opened Cookies
  import opened Export

  /** The key `localStorage.getItem(getTreesKey())` reads: a null key is read as the string "null". */
  function ListKey(currentUser: Option<string>): (k: string)
    ensures currentUser.Some? ==> k == KeyFor(currentUser.value)
    ensures currentUser.None? ==> k == "null"
  {
    match TreesKeyOf(currentUser)
    case Some(key) => key
    case None => "null"
  }

  /** `fruitmap_session` and `fruitmap_trees_` part at their tenth character. */
  lemma SessionOutsideTreesKeys()
    ensures !Text.HasPrefix(SessionCookie, TreesKeyPrefix)
  {
    assert SessionCookie[9] != TreesKeyPrefix[9];
  }

  class TreesPage {
    /** `localStorage`, shared with the map page. */
    var storage: Storage
    /** The browser's cookie jar; `document.cookie` is `Header(cookies)`. */
    var cookies: seq<Cookie>
    /** `currentUser` of this page. */
    var currentUser: Option<string>
    /** The trees `displayTrees` last rendered, in order. */
    var listed: seq<Tree>

    /** The page as it loads: nothing listed and nobody signed in yet. */
    constructor (initial: Storage, jar: seq<Cookie>)
      ensures storage == initial && cookies == jar && currentUser == None && listed == []
    {
      storage := initial;
      cookies := jar;
      currentUser := None;
      listed := [];
    }

    /** `getCookie`: the cookie's value if `document.cookie` has it, else the `localStorage` entry of that name. */
    method GetCookie(name: string) returns (v: Option<string>)
      ensures CookieValue(Header(cookies), name).Some? ==> v == CookieValue(Header(cookies), name)
      ensures CookieValue(Header(cookies), name).None? ==> v == StoredText(storage, name)
      ensures WellFormedJar(cookies) && '=' !in name ==>
        v == if JarValue(cookies, name).Some? then JarValue(cookies, name) else StoredText(storage, name)
    {
      v := Cookies.GetCookie(Header(cookies), name);
      if v.None? {
        v := StoredText(storage, name);
      }
      if WellFormedJar(cookies) && '=' !in name {
        HeaderLookup(cookies, name);
      }
    }

    /**
     * `checkSession`: a session value that is a non-empty string signs that email in and lists
     * its trees; a missing or empty value leaves the page as it is (the page then redirects).
     */
    method CheckSession() returns (signedIn: bool)
      modifies this`currentUser, this`listed
      ensures var session := if CookieValue(Header(cookies), SessionCookie).Some?
                             then CookieValue(Header(cookies), SessionCookie)
                             else StoredText(storage, SessionCookie);
        && (signedIn <==> session.Some? && session.value != "")
        && (signedIn ==> currentUser == session && listed == ReadTrees(storage, KeyFor(session.value)))
        && (!signedIn ==> currentUser == old(currentUser) && listed == old(listed))
    {
      var email := GetCookie(SessionCookie);
      if email.None? || email.value == "" {
        return false;
      }
      currentUser := email;
      LoadTrees();
      return true;
    }

    /** `deleteCookie`: expire the cookie and remove the `localStorage` fallback entry. */
    method DeleteCookie(name: string)
      modifies this`cookies, this`storage
      ensures cookies == WithoutCookie(old(cookies), name)
      ensures storage == old(storage) - {name}
      ensures old(WellFormedJar(cookies)) && '=' !in name ==>
        && WellFormedJar(cookies)
        && CookieValue(Header(cookies), name) == None
        && StoredText(storage, name) == None
    {
      cookies := WithoutCookie(cookies, name);
      storage := storage - {name};
      if WellFormedJar(old(cookies)) && '=' !in name {
        WithoutCookieGone(old(cookies), name);
        HeaderLookup(cookies, name);
      }
    }

    /** `getTrees`: the list stored under this page's key, or the empty list when that key holds none. */
    function GetTrees(): (r: seq<Tree>)
      reads this
      ensures ListKey(currentUser) !in storage ==> r == []
      ensures currentUser.Some? ==> r == ReadTrees(storage, KeyFor(currentUser.value))
    {
      ReadTrees(storage, ListKey(currentUser))
    }

    /** `loadTrees`: display the signed-in user's list; nothing when signed out. */
    method LoadTrees()
      modifies this`listed
      ensures currentUser.None? ==> listed == old(listed)
      ensures currentUser.Some? ==> listed == ReadTrees(storage, KeyFor(currentUser.value))
    {
      if currentUser.None? {
        return;
      }
      listed := ReadTrees(storage, KeyFor(currentUser.value));
    }

    /** `deleteTree`: when confirmed and signed in, keep only the trees with a different id, then redisplay. */
    method DeleteTree(id: string, confirmed: bool)
      modifies this`storage, this`listed
      ensures !confirmed || currentUser.None? ==> storage == old(storage) && listed == old(listed)
      ensures confirmed && currentUser.Some? ==>
        var key := KeyFor(currentUser.value);
        && storage == old(storage)[key := TreeList(WithoutId(old(ReadTrees(storage, key)), id))]
        && listed == WithoutId(old(ReadTrees(storage, key)), id)
      ensures forall email :: Some(email) != currentUser ==>
        ReadTrees(storage, KeyFor(email)) == old(ReadTrees(storage, KeyFor(email)))
    {
      if !confirmed {
        return;
      }
      var key := TreesKeyOf(currentUser);
      if key.None? {
        return;
      }
      var trees := ReadTrees(storage, key.value);
      var updated := WithoutId(trees, id);
      storage := storage[key.value := TreeList(updated)];
      forall email | Some(email) != currentUser
        ensures ReadTrees(storage, KeyFor(email)) == ReadTrees(old(storage), KeyFor(email))
      {
        KeyForInjective(currentUser.value, email);
      }
      LoadTrees();
    }

    /** `logout` of the list page: drop the session cookie and its fallback, and sign out. */
    method Logout()
      modifies this`cookies, this`storage, this`currentUser
      ensures currentUser == None
      ensures cookies == WithoutCookie(old(cookies), SessionCookie)
      ensures storage == old(storage) - {SessionCookie}
      ensures forall email :: ReadTrees(storage, KeyFor(email)) == old(ReadTrees(storage, KeyFor(email)))
    {
      DeleteCookie(SessionCookie);
      currentUser := None;
      forall email ensures ReadTrees(storage, KeyFor(email)) == ReadTrees(old(storage), KeyFor(email)) {
        SessionOutsideTreesKeys();
        KeyForAvoids(email, SessionCookie);
      }
    }

    /** `exportToGPX`: no file for an empty list, else one `<wpt>` per stored tree in order. */
    method ExportToGpx(showCoord: Coord -> string) returns (file: Option<string>)
      ensures file.None? <==> GetTrees() == []
      ensures file.Some? ==> file.value == GpxHeader + GpxBody(GetTrees(), showCoord) + GpxFooter
    {
      var trees := GetTrees();
      if |trees| == 0 {
        return None;
      }
      var gpx := GpxText(trees, showCoord);
      return Some(gpx);
    }

    /** `exportToCSV`: no file for an empty list, else the header line and one line per stored tree. */
    method ExportToCsv(showCoord: Coord -> string, showDate: string -> string) returns (file: Option<string>)
      ensures file.None? <==> GetTrees() == []
      ensures file.Some? ==> file.value == Text.Join(CsvLines(CsvRows(GetTrees(), showCoord, showDate)), "\n")
    {
      var trees := GetTrees();
      if |trees| == 0 {
        return None;
      }
      file := CsvDocument(CsvRows(trees, showCoord, showDate));
    }
  }
}
