/**
 * The browser's `localStorage` as both pages use it: a registry of accounts under one fixed
 * key and one tree list per user under a key derived from the user's email.
 * JSON is abstracted away: each key holds the document it would parse to.
 */
module Store {
  import opened Common
  import opened Text

  /** A coordinate as `parseFloat` produced it from `text`; `None` is a missing attribute (NaN). */
  datatype Coord = ParsedFrom(text: Option<string>)

  /**
   * A saved tree. `details` holds the optional form fields (planting and pruning dates,
   * condition, harvest period, notes, accessibility, photo data) that the core never inspects.
   */
  datatype Tree = Tree(id: string, kind: string, name: string, lat: Coord, lng: Coord,
                       date: string, details: map<string, string>)

  /** The result of the md5 hash: a symbolic, injective digest of its input. */
  datatype Digest = Digest(input: string)

  function Md5(s: string): Digest {
    Digest(s)
  }

  /** A registry entry: `{ email, password: md5(password) }`. */
  datatype Account = Account(email: string, password: Digest)

  /** What one `localStorage` key holds, as its JSON would parse. */
  datatype Item = TreeList(trees: seq<Tree>) | Registry(users: map<string, Account>) | Text(text: string)

  type Storage = map<string, Item>

  const UsersKey: string := "fruitmap_users"
  const TreesKeyPrefix: string := "fruitmap_trees_"

  /** `fruitmap_trees_${email}`. */
  function KeyFor(email: string): (k: string)
    ensures HasPrefix(k, TreesKeyPrefix) && k[|TreesKeyPrefix|..] == email
  {
    TreesKeyPrefix + email
  }

  /** Distinct users get distinct keys, and no user's key is the registry's. */
  lemma {:induction false} KeyForInjective(a: string, b: string)
    ensures KeyFor(a) == KeyFor(b) <==> a == b
    ensures KeyFor(a) != UsersKey
  {
    if KeyFor(a) == KeyFor(b) {
      assert a == KeyFor(a)[|TreesKeyPrefix|..];
    }
    RegistryOutsideTreesKeys();
    KeyForAvoids(a, UsersKey);
  }

  /** No user's key is the registry key. */
  lemma KeyForNotRegistry(email: string)
    ensures KeyFor(email) != UsersKey
  {
    RegistryOutsideTreesKeys();
    KeyForAvoids(email, UsersKey);
  }

  /** A key outside the `fruitmap_trees_` namespace is no user's key. */
  lemma KeyForAvoids(email: string, key: string)
    requires !HasPrefix(key, TreesKeyPrefix)
    ensures KeyFor(email) != key
  {
  }

  /** `fruitmap_users` and `fruitmap_trees_` part at their tenth character. */
  lemma RegistryOutsideTreesKeys()
    ensures !HasPrefix(UsersKey, TreesKeyPrefix)
  {
    assert UsersKey[9] != TreesKeyPrefix[9];
  }

  /** `getTreesKey`: no key without a signed-in user, otherwise that user's key. */
  function TreesKeyOf(currentUser: Option<string>): (k: Option<string>)
    ensures k.None? <==> currentUser.None?
    ensures k.Some? ==> k.value == KeyFor(currentUser.value) && k.value != UsersKey
  {
    KeyForNotRegistry(currentUser.GetOr(""));
    if currentUser.None? then None else Some(KeyFor(currentUser.value))
  }

  /** `treesData ? JSON.parse(treesData) : []` for `treesData = localStorage.getItem(key)`. */
  function ReadTrees(s: Storage, key: string): (r: seq<Tree>)
    ensures key !in s ==> r == []
    ensures key in s && s[key].TreeList? ==> r == s[key].trees
  {
    if key in s && s[key].TreeList? then s[key].trees else []
  }

  /** `JSON.parse(localStorage.getItem(AUTH_STORAGE_KEY) || '{}')`. */
  function ReadUsers(s: Storage): (r: map<string, Account>)
    ensures UsersKey !in s ==> r == map[]
    ensures UsersKey in s && s[UsersKey].Registry? ==> r == s[UsersKey].users
  {
    if UsersKey in s && s[UsersKey].Registry? then s[UsersKey].users else map[]
  }

  /** `localStorage.getItem(name)` for a key holding plain text. */
  function StoredText(s: Storage, name: string): (r: Option<string>)
    ensures name !in s ==> r == None
    ensures name in s && s[name].Text? ==> r == Some(s[name].text)
  {
    if name in s && s[name].Text? then Some(s[name].text) else None
  }

  /** How many trees in `trees` carry `id`. */
  function CountId(trees: seq<Tree>, id: string): nat {
    if trees == [] then 0 else (if trees[0].id == id then 1 else 0) + CountId(trees[1..], id)
  }

  /** `trees.filter(tree => tree.id !== id)`. */
  function WithoutId(trees: seq<Tree>, id: string): (r: seq<Tree>)
    ensures |r| + CountId(trees, id) == |trees|
    ensures forall t :: t in r ==> t in trees && t.id != id
    ensures forall t :: t in trees && t.id != id ==> t in r
    ensures CountId(trees, id) == 0 ==> r == trees
  {
    if trees == [] then []
    else (if trees[0].id == id then [] else [trees[0]]) + WithoutId(trees[1..], id)
  }

  /** Filtering keeps the original order: it distributes over concatenation. */
  lemma {:induction false} WithoutIdAppend(a: seq<Tree>, b: seq<Tree>, id: string)
    ensures WithoutId(a + b, id) == WithoutId(a, id) + WithoutId(b, id)
  {
    if a == [] {
      assert a + b == b;
    } else {
      assert (a + b)[0] == a[0];
      assert (a + b)[1..] == a[1..] + b;
      WithoutIdAppend(a[1..], b, id);
    }
  }

  /** Deleting the same id twice is the same as deleting it once. */
  lemma {:induction false} WithoutIdIdempotent(trees: seq<Tree>, id: string)
    ensures WithoutId(WithoutId(trees, id), id) == WithoutId(trees, id)
  {
    var r := WithoutId(trees, id);
    assert CountId(r, id) == 0 by {
      NoIdCountsZero(r, id);
    }
  }

  /** A list in which no tree carries `id` counts zero of them. */
  lemma {:induction false} NoIdCountsZero(trees: seq<Tree>, id: string)
    requires forall t :: t in trees ==> t.id != id
    ensures CountId(trees, id) == 0
  {
    if trees != [] {
      assert trees[0] in trees;
      assert forall t :: t in trees[1..] ==> t in trees;
      NoIdCountsZero(trees[1..], id);
    }
  }
}
