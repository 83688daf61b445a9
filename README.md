# Fruit Tree Map — a Dafny model of its core

Fruit Tree Map is a browser app for recording fruit trees on a map. It has three parts, and this project models the logic of each:

- **The map page (`app.js`).** Accounts live in a registry under the `localStorage` key `fruitmap_users`. Each user's trees live under `fruitmap_trees_<email>`. `currentUser` picks the key, or blocks a write entirely when nobody is signed in. Saving appends one tree with a fresh id. Deleting filters the list by id. Register and login check the registry. The session is read from the `fruitmap_session` cookie. A GPX import saves one tree per waypoint.
- **The tree-list page (`trees.js`).** It reads the session cookie, falling back to `localStorage`. It lists the signed-in user's trees, deletes by id, shows the "n trees" label and the emoji per type, and exports the list as GPX text and as CSV text, with the CSV type column unescaped as the code writes it (see Findings).
- **The service worker (`sw.js`).** On install it puts a fixed asset manifest into the cache `fruit-tree-map-v1`, all or nothing. It answers fetches from the caches first and from the network otherwise.

Modules:

- **Common:** `Option`, `Outcome`.
- **Text:** split, join, prefix and decimal helpers.
- **Store:** the `localStorage` documents, the key scheme and the list filter.
- **Cookies:** the `document.cookie` lookup, plus a cookie jar that produces that header.
- **Export:** emoji, label, CSV and GPX.
- **MapPage:** class `App`.
- **ListPage:** class `TreesPage`.
- **ServiceWorker:** class `CacheStorage` and the fetch handler.

Modelling choices:

- `localStorage` is a map from key to the document its JSON parses to. A key holds a tree list, the registry, or plain text.
- md5 is an injective symbolic digest.
- Coordinates are opaque. A coordinate records the text `parseFloat` was applied to; a missing attribute gives NaN.
- Ids, dates and the network are parameters.

## Model

| member | source | states |
|---|---|---|
| Store.KeyFor | app.js:487-490 | the key is `fruitmap_trees_` followed by exactly the email |
| Store.KeyForInjective | app.js:487-490 | two emails get the same key iff they are equal, and no user's key is the registry key |
| Store.KeyForNotRegistry | app.js:487-490 | no user's key is the registry key `fruitmap_users` |
| Store.KeyForAvoids | app.js:487-490 | a key that does not start with `fruitmap_trees_` is no user's key |
| Store.RegistryOutsideTreesKeys | app.js:8 | the registry key `fruitmap_users` does not start with `fruitmap_trees_` |
| Store.TreesKeyOf | app.js:487-490 | no key exactly when nobody is signed in, otherwise the signed-in user's key, never the registry key (the list page's copy at trees.js:165-168 is the same function) |
| Store.ReadTrees | app.js:517-519 | an absent key reads as the empty list and a stored list reads as itself |
| Store.ReadUsers | app.js:82 | an absent registry reads as the empty registry, and a stored registry reads as its own accounts |
| Store.StoredText | trees.js:23 | `localStorage.getItem` of an absent key is null, and of a key holding text is that text |
| Store.WithoutId | app.js:544 | the result is what remains after removing every tree carrying the id: its length drops by that count, it keeps every tree with another id and no tree with this id, and it is the list itself when no tree carries the id |
| Store.WithoutIdAppend | app.js:544 | filtering distributes over concatenation, so the remaining trees stay in their original order |
| Store.WithoutIdIdempotent | app.js:537-555 | deleting the same id twice leaves what deleting it once leaves |
| Cookies.FirstMatch | app.js:58-61 | the index of the first segment that starts with `name=` after leading spaces are stripped; no earlier segment matches |
| Cookies.GetCookie | app.js:55-64 | the loop returns the text after `name=` in the first matching segment, or null when no segment matches (the list page's loop at trees.js:13-21 is the same) |
| Cookies.ValueInPadded | app.js:60 | one more leading space on the first segment does not change the lookup |
| Cookies.ValueInCons | app.js:58-61 | the first segment decides the lookup when it matches, and otherwise the rest does |
| Cookies.JarValue | app.js:55-64 | a jar lookup is null iff no cookie has the name |
| Cookies.PairMatches | app.js:61 | a well-formed `name=value` pair matches `n=` iff its name is `n`, and what follows is its value |
| Cookies.HeaderLookup | app.js:55-64 | parsing the `; `-joined header of a well-formed jar returns the value of the first cookie of that name, and null when there is none |
| Cookies.WithoutCookie | trees.js:27 | expiring a cookie removes every cookie of that name and keeps every other cookie |
| Cookies.WithoutCookieGone | trees.js:26-29 | after expiry the jar stays well formed and a lookup of that name finds nothing |
| Text.Split | trees.js:15 | `split(';')` gives at least one part, and no part contains the separator |
| Text.Join | trees.js:139 | joining no parts gives the empty text, and otherwise the join starts with the first part; `Text.SplitJoin` and `Text.JoinSplit` state that it inverts `split` |
| Text.SplitJoin | trees.js:15 | splitting the `;`-joined segments gives back exactly those segments |
| Text.JoinSplit | trees.js:15 | joining the split parts with the separator gives back the header |
| Text.StripLeadingSpaces | trees.js:18 | the stripped segment is no longer than the input and does not start with a space |
| Text.StripLeadingSpacesDrops | trees.js:18 | the stripped segment is a suffix of the input, and every character dropped in front of it is a space, so exactly the leading spaces are removed |
| Export.TreeEmoji | trees.js:264-276 | each of the seven listed fruits gets its own emoji, Plum and Peach share 🍑, and every other type, `Other` included, gets 🌳 |
| Export.CountLabel | trees.js:185-193 | the label is empty iff there are no trees; otherwise it is the decimal count followed by " tree" for one and " trees" for more |
| Export.CountLabelReadsBack | trees.js:193 | the label's leading digits parse back to the number of trees |
| Text.Decimal | trees.js:193 | the count is written as decimal digits, at least one, with a leading zero only for zero |
| Text.ParseDecimalOfDecimal | trees.js:193 | the decimal rendering of a count parses back to that count |
| Export.DoubleQuotes | trees.js:133 | the escaped text is longer than the original by exactly its number of quotes |
| Export.UndoubleDoubleQuotes | trees.js:133 | undoubling the quote-doubled description recovers it exactly |
| Export.QuotedField | trees.js:133 | the quoted, escaped field unquotes to the original text |
| Export.CsvHeaderLineIsOneLine | trees.js:130 | the header line, the five header values of trees.js:130 joined by commas, holds no line break, so it is exactly the first line of the file |
| Export.KindFieldAsWrittenLosesQuotes | trees.js:132 | a type containing `"` does not read back from the type field as written |
| Export.DoubleQuotesWithoutQuotes | trees.js:133 | a text without quotes is left as it is by the escaping |
| Export.CsvRow | trees.js:131-137 | the row as written: one field per header column; the type field is the type between quotes, unescaped; the description field unquotes to the description; then the coordinate and date text |
| Export.CsvRows | trees.js:131-137 | one row as written per tree, in stored order |
| Export.CorrectedCsvRow | trees.js:132 | the corrected row: the type escaped like the description, so both text fields unquote to the tree's own; the other fields are as written |
| Export.CorrectedCsvRows | trees.js:131-137 | one corrected row per tree, in stored order; every type and description field reads back as the tree's own |
| Export.CorrectionOnlyForQuotes | trees.js:132 | for a type without quotes the corrected row equals the written row, and the written type field reads back |
| Export.CsvLines | trees.js:139 | one more line than rows: the header line first, then each row joined by commas, in order |
| Export.CsvDocument | trees.js:139 | no document exactly when there are no rows, otherwise the lines joined by newlines |
| Export.CsvLineCount | trees.js:139 | when no line holds a line break, the document splits back into exactly its lines, one more than there are rows |
| Export.WptElement | trees.js:112-115 | the body is the waypoint template; the contract states that the element opens with `<wpt lat="…" lon="…">` carrying the tree's coordinate text and closes with `</wpt>` and a newline |
| Export.Waypoints | trees.js:111-116 | one `<wpt>` element per tree, in stored order |
| Export.ConcatAppend | trees.js:111-116 | appending waypoints concatenates their text |
| Export.GpxBodyAt | trees.js:111-116 | tree `i`'s waypoint sits between the waypoints of the trees before it and those after it |
| Export.GpxText | trees.js:100-119 | the `gpx +=` loop yields the header, the waypoints of every tree in order, then `</gpx>` |
| MapPage.Message | app.js:85-103 | each error has its own text: `User already exists`, `User not found`, `Invalid password` |
| MapPage.Imported | app.js:603-622 | one tree per waypoint, in order; each has type `Other`, the `<name>` text or `Imported Tree`, the raw coordinate text (an unparseable one is kept as its text; what marker creation then does is under Left out), its own fresh id and date |
| MapPage.OtherListsUnchanged | app.js:487-490 | writing one user's key leaves every other user's list and the registry as they were |
| MapPage.App.constructor | app.js:2-10 | the page starts with nobody signed in and an empty map |
| MapPage.App.LoadTrees | app.js:492-509 | signed out: the markers stay as they are; signed in: the markers become exactly the stored list, an absent key giving none |
| MapPage.App.SaveTree | app.js:511-535 | saves iff someone is signed in; signed out, nothing changes; signed in, the list gets exactly one more tree, last, carrying the fresh id, earlier entries unchanged; the map shows it; other users' lists and the registry are unchanged; the map stays in step with storage |
| MapPage.App.DeleteTree | app.js:537-555 | declined or signed out: nothing changes; otherwise the list becomes the filtered list and the map is reloaded from it; other users' lists and the registry are unchanged |
| MapPage.App.CheckSession | app.js:70-79 | a non-empty session cookie value signs that email in and loads its trees; a missing or empty value changes nothing |
| MapPage.App.Register | app.js:81-91 | a taken email fails with `User already exists` and changes nothing; otherwise exactly that email is added with `md5(password)` and every other entry is kept; no tree list changes |
| MapPage.App.Login | app.js:93-116 | an absent email fails with `User not found`; a hash mismatch fails with `Invalid password`; success iff the account exists and the hash matches; only success signs the user in and loads their trees |
| MapPage.App.Logout | app.js:118-126 | nobody is signed in and the map is empty; storage is untouched |
| MapPage.App.ImportWaypoints | app.js:603-622 | the count equals the number of waypoints; signed in, the list grows by exactly the imported trees, in order; signed out, nothing is stored |
| ListPage.SessionOutsideTreesKeys | trees.js:3 | the session key `fruitmap_session` does not start with `fruitmap_trees_`, so removing it touches no tree list |
| ListPage.ListKey | trees.js:85-89 | the signed-in user's key; with nobody signed in, the key `"null"` |
| ListPage.TreesPage.constructor | trees.js:1-10 | the page starts with nobody signed in and nothing listed |
| ListPage.TreesPage.GetCookie | trees.js:13-24 | the cookie's value when `document.cookie` has one, else the `localStorage` entry of that name, which may be null; for a well-formed jar this is the first cookie of that name |
| ListPage.TreesPage.CheckSession | trees.js:32-41 | a non-empty session value, from the cookie or the fallback, signs that email in and lists its trees; otherwise nothing changes |
| ListPage.TreesPage.DeleteCookie | trees.js:26-29 | removes the cookie and the fallback entry, so a later lookup of that name yields null |
| ListPage.TreesPage.Logout | trees.js:43-47 | drops the session cookie and its fallback entry, signs out, and leaves every tree list as it was |
| ListPage.TreesPage.GetTrees | trees.js:85-89 | the empty list when the key holds nothing, otherwise the signed-in user's stored list |
| ListPage.TreesPage.LoadTrees | trees.js:170-177 | signed out: nothing changes; signed in: the displayed list is the stored list |
| ListPage.TreesPage.DeleteTree | trees.js:245-261 | declined or signed out: nothing changes; otherwise the stored and displayed lists become the filtered list; other users' lists are unchanged |
| ListPage.TreesPage.ExportToGpx | trees.js:100-121 | no file iff the list is empty; otherwise the GPX document of the stored trees |
| ListPage.TreesPage.ExportToCsv | trees.js:123-141 | no file iff the list is empty; otherwise the newline-joined CSV lines built from the rows as written (type column unescaped, see Findings) for the stored trees |
| ServiceWorker.AssetsDistinct | sw.js:2-13 | the manifest has ten entries and lists no request twice |
| ServiceWorker.FetchAll | sw.js:18 | every response, in order, iff every fetch gives an ok, non-partial response |
| ServiceWorker.PutAll | sw.js:18 | every request is stored with its response; entries for other requests stay |
| ServiceWorker.AddAll | sw.js:18 | succeeds iff the requests are distinct and every fetch is storable; on success every request maps to its network response and other entries stay; on failure nothing is stored |
| ServiceWorker.AddAllIdempotent | sw.js:15-20 | installing the same manifest again with the same responses changes nothing |
| ServiceWorker.FirstHolder | sw.js:24 | the first cache, in creation order, that holds the request |
| ServiceWorker.MatchIn | sw.js:24 | no match iff no listed cache holds the request; a match is the response stored in the first cache, in creation order, that holds the request |
| ServiceWorker.HeldIsMatched | sw.js:24 | a request held by any cache is matched |
| ServiceWorker.HandleFetch | sw.js:22-27 | answers from the cache iff some cache holds the request, and then with the matched response; otherwise with the network's result; being a function of the caches, it never writes them |
| ServiceWorker.HitIgnoresNetwork | sw.js:24-25 | a cached request gets the same answer whatever the network does |
| ServiceWorker.CacheStorage.Open | sw.js:17 | an existing cache is reused; otherwise an empty one is created and listed last; no other cache changes |
| ServiceWorker.CacheStorage.AddAllTo | sw.js:18 | on failure the caches are unchanged; on success only the named cache changes, every request is stored with its response and will be served from the cache |
| ServiceWorker.CacheStorage.OpenAndAddAll | sw.js:17-18 | the named cache exists afterwards; the call succeeds iff every fetch is storable, and on success the cache holds the whole manifest; on failure the cache is as it was before (or empty when new) |
| ServiceWorker.CacheStorage.Install | sw.js:15-20 | after a successful install every asset is in `fruit-tree-map-v1` with its network response and is served from the cache; on failure no manifest entry is stored; other caches are unchanged |

## Left out

- DOM, modals, alerts, event listeners, the Leaflet map and icons, geolocation and page redirects. These are UI. A redirect is modelled as "nothing further changes".
- MapPage.App.SaveTree assumes that drawing the marker never throws. In the code `saveTree` stores the tree and then calls `addMarker` (app.js:528-531), which builds a Leaflet marker from the coordinates (app.js:558); Leaflet rejects a NaN coordinate, so the save of such a tree stores it and then fails before the map shows it. The model adds the marker.
- MapPage.App.ImportWaypoints assumes the same: in the code a waypoint with a missing or unparseable lat/lon would be stored, the import would stop there, and that waypoint and all later ones would not be counted. The model stores and counts every waypoint.
- MapPage.App.LoadTrees assumes that drawing every stored tree succeeds. `loadTrees` draws each stored tree with `addMarker` (app.js:504-506), and `login`, `checkSession` and `deleteTree` reload through it (app.js:75, 115, 552). A NaN coordinate comes back from JSON as null, so once such a tree is stored the code's map shows only the trees before the first such tree; the model's markers are the whole stored list.
- ListPage.TreesPage.LoadTrees assumes that rendering the list never throws. `displayTrees` formats each coordinate with `toFixed` (trees.js:210), and a NaN coordinate comes back from JSON as null, on which that call fails.
- `FileReader` and `DOMParser`. The GPX import starts from already-parsed waypoints: optional lat/lon attribute text and the text of the first `<name>`.
- md5 (CryptoJS). It is a symbolic injective digest, so hash collisions are not modelled.
- `setCookie` and its `Date` expiry arithmetic, and the map page's own `deleteCookie`. `App` holds no cookie jar: login does not write the session cookie and logout does not expire it; `CheckSession` receives `document.cookie` as a parameter.
- The browser's cookie jar rules (paths, expiry, ordering). The jar is a list whose `document.cookie` is its `name=value` pairs joined by `; `. Expiring a cookie is modelled as removing every cookie of that name.
- Floating point: `parseFloat`, `toString` of numbers, `toLocaleDateString`. Coordinates keep the text they were parsed from; coordinate and date text in exports come from the parameters `showCoord` and `showDate`.
- `Date.now()`/`Math.random()` ids and `new Date().toISOString()` dates. They are given as parameters.
- JSON `stringify`/`parse`. Each key holds the parsed document. A key that holds something else than a tree list reads as the empty list. A `localStorage` fallback entry that is not plain text reads as null.
- Text.Decimal: only non-negative integers are rendered, which covers every list length.
- Tree fields that are absent in storage. A tree's name is always a string (an absent name is the empty string), so `tree.name || ''` is the name itself.
- JavaScript property lookup through the prototype. A type such as `constructor` would find an inherited property in the emoji table or the user registry; the model treats such keys like any other absent key.
- `backupToCloud` (a timer that only shows messages), `downloadFile`/Blob, `registerServiceWorker`, the `requireAuth` UI toggle and the datalist update. These are I/O or UI.
- Promises and async scheduling in the service worker. Install and fetch are sequential operations on the cache state: each fetch of a request during install returns the network oracle's answer.
- Service-worker requests are identified by URL string. Resolving relative URLs against the worker's scope, request methods and `Vary` matching are not modelled.
- The service-worker lifecycle (waiting, activation, old cache clean-up). The code has none.
- This revision has no anonymous storage scope, stale-while-revalidate, generation pruning or remote adapter; a signed-out save or delete does nothing.

## Findings

| source | as written | input that shows it | evidently intended | confidence | as-written member | corrected member |
|---|---|---|---|---|---|---|
| trees.js:132 | the CSV type field is wrapped in quotes but its inner quotes are not doubled, unlike the description field on the next line | a tree whose type is `a"b` produces the field `"a"b"`, which does not read back as `a"b` | double the quotes in the type field as the description does; the page's export keeps the code as written | medium, not executed | Export.KindFieldAsWrittenLosesQuotes | Export.CorrectedCsvRows |
