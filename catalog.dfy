/**
 * The asset catalog of index.js: a fixed table of assets whose `parentId`
 * links form a forest (Site, Plant, Train, Unit, Signal Container, Signal), and
 * the read resolvers over it (`Asset.children`, `assets`, `searchAssets`,
 * `getAsset`, `getAssetPath`, `getAssetsByIds`).
 *
 * Every resolver takes the table as a parameter `db`; `Db` is the table the
 * service ships with.
 */
module Catalog {
  import opened Base
  import opened Text

  /** An asset; `parentId == None` marks a root (a Site). */
  datatype Asset = Asset(id: string, name: string, kind: string, parentId: Option<string>)

  /** The service's built-in table, in its declaration order. */
  const Db: seq<Asset> := [
    Asset("site-1", "Texas Refinery", "Site", None),
    Asset("site-2", "Louisiana Chemical", "Site", None),
    Asset("plant-1", "Plant Alpha", "Plant", Some("site-1")),
    Asset("plant-2", "Plant Beta", "Plant", Some("site-1")),
    Asset("plant-3", "Plant Gamma", "Plant", Some("site-2")),
    Asset("train-1", "Train 101", "Train", Some("plant-1")),
    Asset("train-2", "Train 102", "Train", Some("plant-1")),
    Asset("unit-1", "Crude Unit", "Unit", Some("train-1")),
    Asset("unit-2", "Vacuum Unit", "Unit", Some("train-1")),
    Asset("cont-1", "Temperature Sensors", "Signal Container", Some("unit-1")),
    Asset("cont-2", "Pressure Sensors", "Signal Container", Some("unit-1")),
    Asset("sig-1", "TI-1001 Inlet Temp", "Signal", Some("cont-1")),
    Asset("sig-2", "TI-1002 Outlet Temp", "Signal", Some("cont-1")),
    Asset("sig-3", "PI-2001 Header Press", "Signal", Some("cont-2")),
    Asset("sig-4", "PI-2002 Suction Press", "Signal", Some("cont-2"))
  ]

  // ---------------------------------------------------------------------------
  // Children and roots

  /** The filter test `asset.parentId === parentId`. */
  function HasParent(parentId: Option<string>): Asset -> bool
  {
    (a: Asset) => a.parentId == parentId
  }

  /** `Asset.children`: the assets whose parent is `parent`, in table order. */
  function Children(db: seq<Asset>, parent: Asset): (r: seq<Asset>)
    ensures forall a :: a in r <==> a in db && a.parentId == Some(parent.id)
    ensures IsFilterOf(r, db, HasParent(Some(parent.id)))
  {
    Filter(db, HasParent(Some(parent.id)))
  }

  /** `parentId || null`: an absent or empty-string argument becomes `null`. */
  function OrNull(parentId: Option<string>): (r: Option<string>)
    ensures r.None? <==> parentId.None? || parentId == Some("")
    ensures r.Some? ==> r == parentId
  {
    if parentId == Some("") then None else parentId
  }

  /** `Query.assets`: the children of `parentId`, or the roots when it is absent or empty. */
  function Assets(db: seq<Asset>, parentId: Option<string>): (r: seq<Asset>)
    ensures IsFilterOf(r, db, HasParent(OrNull(parentId)))
    ensures parentId.None? || parentId == Some("") ==>
              forall a :: a in r <==> a in db && a.parentId.None?
    ensures parentId.Some? && parentId.value != "" ==>
              forall a :: a in r <==> a in db && a.parentId == parentId
  {
    Filter(db, HasParent(OrNull(parentId)))
  }

  /** The computed `children` field agrees with `assets(parent.id)` for any non-empty id. */
  lemma ChildrenAreAssets(db: seq<Asset>, parent: Asset)
    requires parent.id != ""
    ensures Children(db, parent) == Assets(db, Some(parent.id))
  {
  }

  // ---------------------------------------------------------------------------
  // Search

  /** The filter test `asset.name.toLowerCase().includes(lowerQ)`. */
  function NameMatches(lowerQ: string): Asset -> bool
  {
    (a: Asset) => Contains(Lower(a.name), lowerQ)
  }

  /**
   * `Query.searchAssets`: an absent or empty query finds nothing; otherwise the
   * assets whose name contains the query, ignoring letter case, in table order.
   */
  function SearchAssets(db: seq<Asset>, query: Option<string>): (r: seq<Asset>)
    ensures query.None? || query == Some("") ==> r == []
    ensures query.Some? && query.value != "" ==>
              IsFilterOf(r, db, NameMatches(Lower(query.value))) &&
              forall a :: a in r <==> a in db && exists i :: OccursAt(Lower(a.name), Lower(query.value), i)
  {
    if query.None? || query.value == "" then []
    else
      var lowerQ := Lower(query.value);
      Filter(db, NameMatches(lowerQ))
  }

  /** Queries that differ only in letter case find the same assets. */
  lemma SearchIgnoresCase(db: seq<Asset>, q1: string, q2: string)
    requires Lower(q1) == Lower(q2)
    ensures SearchAssets(db, Some(q1)) == SearchAssets(db, Some(q2))
    ensures SearchAssets(db, Some(q1)) == SearchAssets(db, Some(Lower(q1)))
  {
    LowerIdempotent(q1);
  }

  // ---------------------------------------------------------------------------
  // Lookup by id

  /** `Query.getAsset` (`db.find`): an asset with that id, if there is one. */
  function GetAsset(db: seq<Asset>, id: string): (r: Option<Asset>)
    ensures r.None? <==> forall i :: 0 <= i < |db| ==> db[i].id != id
    ensures r.Some? ==> r.value in db && r.value.id == id
  {
    if db == [] then None
    else if db[0].id == id then Some(db[0])
    else
      assert forall i :: 0 < i < |db| ==> db[i] == db[1..][i - 1];
      GetAsset(db[1..], id)
  }

  /** The asset `getAsset` finds is the FIRST one in table order with that id. */
  lemma {:induction false} GetAssetIsFirst(db: seq<Asset>, id: string)
    ensures GetAsset(db, id).Some? ==>
              exists i :: 0 <= i < |db| && db[i] == GetAsset(db, id).value &&
                          forall j :: 0 <= j < i ==> db[j].id != id
  {
    if db != [] && db[0].id != id && GetAsset(db, id).Some? {
      GetAssetIsFirst(db[1..], id);
      var r := GetAsset(db, id).value;
      var i :| 0 <= i < |db[1..]| && db[1..][i] == r && forall j :: 0 <= j < i ==> db[1..][j].id != id;
      assert db[i + 1] == r;
      forall j | 0 <= j < i + 1 ensures db[j].id != id {
        if j > 0 { assert db[j] == db[1..][j - 1]; }
      }
    } else if db != [] && db[0].id == id {
      assert db[0] == GetAsset(db, id).value;
    }
  }

  /** Ids are unique in the table. */
  ghost predicate UniqueIds(db: seq<Asset>)
  {
    forall i, j :: 0 <= i < j < |db| ==> db[i].id != db[j].id
  }

  /** On a table with unique ids, `getAsset` finds an asset exactly when it has that id. */
  lemma GetAssetUnique(db: seq<Asset>, id: string, a: Asset)
    requires UniqueIds(db)
    ensures GetAsset(db, id) == Some(a) <==> a in db && a.id == id
  {
    if a in db && a.id == id {
      var r := GetAsset(db, id);
      GetAssetIsFirst(db, id);
      var k :| 0 <= k < |db| && db[k] == a;
      var i :| 0 <= i < |db| && db[i] == r.value && forall j :: 0 <= j < i ==> db[j].id != id;
      assert i == k;
    }
  }

  // ---------------------------------------------------------------------------
  // Lookup by id set

  /** The filter test `ids.includes(asset.id)`. */
  function IdIn(ids: seq<string>): Asset -> bool
  {
    (a: Asset) => a.id in ids
  }

  /** `Query.getAssetsByIds`: the assets whose id is listed, in table order. */
  function GetAssetsByIds(db: seq<Asset>, ids: seq<string>): (r: seq<Asset>)
    ensures IsFilterOf(r, db, IdIn(ids))
    ensures forall a :: a in r <==> a in db && a.id in ids
    ensures ids == [] ==> r == []
  {
    Filter(db, IdIn(ids))
  }

  /** Only the SET of requested ids matters: order and repetitions in `ids` do not. */
  lemma {:induction false} GetAssetsByIdsSetOnly(db: seq<Asset>, ids1: seq<string>, ids2: seq<string>)
    requires forall x :: x in ids1 <==> x in ids2
    ensures GetAssetsByIds(db, ids1) == GetAssetsByIds(db, ids2)
  {
    FilterAgree(db, IdIn(ids1), IdIn(ids2));
  }

  // ---------------------------------------------------------------------------
  // Breadcrumb path

  /** The asset the walk steps to from `a`: `db.find(x => x.id === a.parentId)`. */
  function Parent(db: seq<Asset>, a: Asset): (r: Option<Asset>)
    ensures r.Some? ==> r.value in db && a.parentId == Some(r.value.id)
  {
    if a.parentId.None? then None else GetAsset(db, a.parentId.value)
  }

  /** The parent walk from `a` stops after visiting at most `n` assets. */
  ghost predicate WalkEnds(db: seq<Asset>, a: Asset, n: nat)
    decreases n
  {
    n > 0 && (Parent(db, a).None? || WalkEnds(db, Parent(db, a).value, n - 1))
  }

  /**
   * The `parentId` links have no cycle: from every asset, the parent walk stops
   * before it has visited more assets than the table holds.
   */
  ghost predicate Acyclic(db: seq<Asset>)
  {
    forall a :: a in db ==> WalkEnds(db, a, |db|)
  }

  /** The ancestors of `a` and `a` itself, root first. */
  ghost function Chain(db: seq<Asset>, a: Asset, n: nat): (r: seq<Asset>)
    requires WalkEnds(db, a, n)
    ensures 1 <= |r| <= n
    ensures r[|r| - 1] == a
    decreases n
  {
    match Parent(db, a)
    case None => [a]
    case Some(p) => Chain(db, p, n - 1) + [a]
  }

  /**
   * A chain starts at an asset without a parent in the table, and each of its
   * elements is the parent of the next one.
   */
  lemma {:induction false} ChainLinks(db: seq<Asset>, a: Asset, n: nat)
    requires WalkEnds(db, a, n)
    ensures var c := Chain(db, a, n);
            && Parent(db, c[0]).None?
            && forall k :: 0 <= k < |c| - 1 ==> Parent(db, c[k + 1]) == Some(c[k]) && c[k] in db
    decreases n
  {
    match Parent(db, a)
    case None =>
    case Some(p) =>
      var c' := Chain(db, p, n - 1);
      ChainLinks(db, p, n - 1);
      assert Chain(db, a, n) == c' + [a];
  }

  /**
   * The walk `getAssetPath(id)` makes stops: the id is unknown, or the walk from
   * the asset found reaches a root within as many steps as the table has assets
   * (`WalkWithinTable` shows that a walk that stops at all stops within that
   * bound). A cycle elsewhere in the table does not matter.
   */
  ghost predicate PathEnds(db: seq<Asset>, id: string)
  {
    GetAsset(db, id).Some? ==> WalkEnds(db, GetAsset(db, id).value, |db|)
  }

  /** What `getAssetPath(id)` returns. */
  ghost function Path(db: seq<Asset>, id: string): seq<Asset>
    requires PathEnds(db, id)
  {
    match GetAsset(db, id)
    case None => []
    case Some(a) => Chain(db, a, |db|)
  }

  /** The chain does not depend on how much room the walk was given. */
  lemma {:induction false} ChainFuel(db: seq<Asset>, a: Asset, n: nat, m: nat)
    requires WalkEnds(db, a, n) && WalkEnds(db, a, m)
    ensures Chain(db, a, n) == Chain(db, a, m)
    decreases n
  {
    if Parent(db, a).Some? {
      ChainFuel(db, Parent(db, a).value, n - 1, m - 1);
    }
  }

  /** The chain of the `k`-th element of a chain has `k + 1` elements. */
  lemma {:induction false} ChainPosition(db: seq<Asset>, a: Asset, n: nat, k: nat)
    requires WalkEnds(db, a, n)
    requires k < |Chain(db, a, n)|
    ensures var c := Chain(db, a, n);
            var f := n - (|c| - 1 - k);
            f >= 0 && WalkEnds(db, c[k], f) && |Chain(db, c[k], f)| == k + 1
    decreases n
  {
    var c := Chain(db, a, n);
    match Parent(db, a)
    case None =>
    case Some(p) =>
      var c' := Chain(db, p, n - 1);
      assert c == c' + [a];
      if k < |c'| {
        ChainPosition(db, p, n - 1, k);
        assert c[k] == c'[k];
      }
  }

  /** No element occurs twice. */
  ghost predicate NoRepeats<T>(s: seq<T>)
  {
    forall i, j :: 0 <= i < j < |s| ==> s[i] != s[j]
  }

  /** A chain never visits the same asset twice. */
  lemma ChainNoRepeats(db: seq<Asset>, a: Asset, n: nat)
    requires WalkEnds(db, a, n)
    ensures NoRepeats(Chain(db, a, n))
  {
    var c := Chain(db, a, n);
    forall i, j | 0 <= i < j < |c| ensures c[i] != c[j] {
      if c[i] == c[j] {
        ChainPosition(db, a, n, i);
        ChainPosition(db, a, n, j);
        ChainFuel(db, c[i], n - (|c| - 1 - i), n - (|c| - 1 - j));
        assert false;
      }
    }
  }

  /**
   * The breadcrumb path: empty for an unknown id; otherwise it ends at the first
   * asset with that id, each element is the parent of the next, and the first
   * element has no parent in the table; it holds only assets of the table, never
   * repeats one, and is no longer than the table.
   */
  lemma PathShape(db: seq<Asset>, id: string)
    requires PathEnds(db, id)
    ensures var p := Path(db, id);
            && (p == [] <==> forall i :: 0 <= i < |db| ==> db[i].id != id)
            && (p != [] ==> Some(p[|p| - 1]) == GetAsset(db, id) && p[|p| - 1].id == id)
            && (p != [] ==> Parent(db, p[0]).None?)
            && (forall k :: 0 <= k < |p| - 1 ==> p[k + 1].parentId == Some(p[k].id) && Parent(db, p[k + 1]) == Some(p[k]))
            && (forall k :: 0 <= k < |p| ==> p[k] in db)
            && (forall i, j :: 0 <= i < j < |p| ==> p[i] != p[j])
            && |p| <= |db|
  {
    match GetAsset(db, id)
    case None =>
    case Some(a) =>
      assert Path(db, id) == Chain(db, a, |db|);
      ChainLinks(db, a, |db|);
      ChainNoRepeats(db, a, |db|);
  }

  /** One step of the walk: putting `a` in front of the path leaves its ancestors still to visit. */
  lemma ChainStep(db: seq<Asset>, a: Asset, n: nat, path: seq<Asset>)
    requires WalkEnds(db, a, n)
    ensures Parent(db, a).Some? ==>
              && WalkEnds(db, Parent(db, a).value, n - 1)
              && Chain(db, a, n) + path == Chain(db, Parent(db, a).value, n - 1) + ([a] + path)
    ensures Parent(db, a).None? ==> Chain(db, a, n) + path == [a] + path
  {
  }

  /**
   * `Query.getAssetPath`: walks from the asset with id `id` to its root,
   * putting each asset in front of the path. The walk has no depth bound; it
   * stops only when it reaches an asset whose parent is not found.
   */
  method GetAssetPath(db: seq<Asset>, id: string) returns (path: seq<Asset>)
    requires PathEnds(db, id)
    ensures path == Path(db, id)
    ensures path == [] <==> forall i :: 0 <= i < |db| ==> db[i].id != id
    ensures path != [] ==> path[|path| - 1].id == id && Parent(db, path[0]).None?
    ensures forall k :: 0 <= k < |path| - 1 ==> path[k + 1].parentId == Some(path[k].id)
    ensures forall i, j :: 0 <= i < j < |path| ==> path[i] != path[j]
  {
    path := [];
    var current := GetAsset(db, id);
    ghost var room: nat := |db|;
    while current.Some?
      invariant current.Some? ==> WalkEnds(db, current.value, room)
      invariant current.Some? ==> Path(db, id) == Chain(db, current.value, room) + path
      invariant current.None? ==> Path(db, id) == path
      decreases room
    {
      ChainStep(db, current.value, room, path);
      path := [current.value] + path;
      current := Parent(db, current.value);
      room := room - 1;
    }
    PathShape(db, id);
  }

  /** A chain holds distinct assets of the table. */
  lemma ChainInTable(db: seq<Asset>, a: Asset, n: nat)
    requires a in db && WalkEnds(db, a, n)
    ensures var c := Chain(db, a, n); forall x :: x in c ==> x in db
  {
    var c := Chain(db, a, n);
    ChainLinks(db, a, n);
    forall x | x in c ensures x in db {
      var k :| 0 <= k < |c| && c[k] == x;
    }
  }

  /** A sequence of distinct elements has as many distinct elements as it is long. */
  lemma {:induction false} DistinctCard<T>(s: seq<T>)
    requires NoRepeats(s)
    ensures |set x | x in s| == |s|
  {
    if s != [] {
      var init := s[..|s| - 1];
      DistinctCard(init);
      assert (set x | x in s) == (set x | x in init) + {s[|s| - 1]};
    }
  }

  /** A sequence has no more distinct elements than it is long. */
  lemma {:induction false} SeqCard<T>(s: seq<T>)
    ensures |set x | x in s| <= |s|
  {
    if s != [] {
      var init := s[..|s| - 1];
      SeqCard(init);
      assert (set x | x in s) == (set x | x in init) + {s[|s| - 1]};
    }
  }

  /** The walk ends within as many steps as its chain is long. */
  lemma {:induction false} WalkEndsAtLength(db: seq<Asset>, a: Asset, n: nat)
    requires WalkEnds(db, a, n)
    ensures WalkEnds(db, a, |Chain(db, a, n)|)
    decreases n
  {
    match Parent(db, a)
    case None =>
    case Some(p) =>
      WalkEndsAtLength(db, p, n - 1);
      assert Chain(db, a, n) == Chain(db, p, n - 1) + [a];
  }

  /**
   * A walk from an asset of the table that stops at all stops within as many
   * steps as the table has assets: it never visits an asset twice.
   */
  lemma WalkWithinTable(db: seq<Asset>, a: Asset, n: nat)
    requires a in db && WalkEnds(db, a, n)
    ensures WalkEnds(db, a, |db|)
  {
    var c := Chain(db, a, n);
    ChainInTable(db, a, n);
    ChainNoRepeats(db, a, n);
    DistinctCard(c);
    SeqCard(db);
    var inChain, inTable := set x | x in c, set x | x in db;
    assert inTable == inChain + (inTable - inChain);
    WalkEndsAtLength(db, a, n);
    WalkEndsMonotone(db, a, |c|, |db|);
  }

  /** An acyclic table lets the walk from any id stop. */
  lemma AcyclicPathEnds(db: seq<Asset>, id: string)
    requires Acyclic(db)
    ensures PathEnds(db, id)
  {
  }

  /**
   * A table with a cycle (`a` and `b` are each other's parent) beside a root
   * `c`: the table is not acyclic, yet the walk from `c` stops and its path
   * is `c` alone.
   */
  lemma PathBesideCycle(db: seq<Asset>)
    requires db == [Asset("a", "A", "Unit", Some("b")), Asset("b", "B", "Unit", Some("a")), Asset("c", "C", "Site", None)]
    ensures !Acyclic(db)
    ensures PathEnds(db, "c") && Path(db, "c") == [db[2]]
  {
    assert Parent(db, db[0]) == Some(db[1]);
    assert Parent(db, db[1]) == Some(db[0]);
    assert !WalkEnds(db, db[0], 1);
    assert !WalkEnds(db, db[1], 2);
    assert !WalkEnds(db, db[0], 3);
    assert db[0] in db;
    assert GetAsset(db, "c") == Some(db[2]);
  }

  // ---------------------------------------------------------------------------
  // The built-in table

  /**
   * A table is acyclic when every asset can be given a level, computed from its
   * id, that is below the table's size and strictly above the level of the id
   * its `parentId` names.
   */
  ghost predicate LevelsDecrease(db: seq<Asset>, level: string -> nat)
  {
    forall i :: 0 <= i < |db| ==> LevelBelowParent(db[i], level, |db|)
  }

  ghost predicate LevelBelowParent(a: Asset, level: string -> nat, size: nat)
  {
    level(a.id) < size && (a.parentId.Some? ==> level(a.parentId.value) < level(a.id))
  }

  lemma {:induction false} WalkEndsByLevel(db: seq<Asset>, level: string -> nat, a: Asset)
    requires LevelsDecrease(db, level)
    requires LevelBelowParent(a, level, |db|)
    ensures WalkEnds(db, a, level(a.id) + 1)
    decreases level(a.id)
  {
    if Parent(db, a).Some? {
      var p := Parent(db, a).value;
      var j :| 0 <= j < |db| && db[j] == p;
      WalkEndsByLevel(db, level, p);
      WalkEndsMonotone(db, p, level(p.id) + 1, level(a.id));
    }
  }

  lemma {:induction false} WalkEndsMonotone(db: seq<Asset>, a: Asset, m: nat, n: nat)
    requires WalkEnds(db, a, m) && m <= n
    ensures WalkEnds(db, a, n)
    decreases m
  {
    if Parent(db, a).Some? {
      WalkEndsMonotone(db, Parent(db, a).value, m - 1, n - 1);
    }
  }

  lemma AcyclicByLevel(db: seq<Asset>, level: string -> nat)
    requires LevelsDecrease(db, level)
    ensures Acyclic(db)
  {
    forall a | a in db ensures WalkEnds(db, a, |db|) {
      var i :| 0 <= i < |db| && db[i] == a;
      WalkEndsByLevel(db, level, a);
      WalkEndsMonotone(db, a, level(a.id) + 1, |db|);
    }
  }

  /**
   * The depth of an asset of the built-in table, read off its id: `plant-`,
   * `train-`, `unit-` and `cont-` by their first letter, and `site-` apart from
   * `sig-` by length.
   */
  function IdLevel(id: string): nat
  {
    if id == [] then 5
    else if id[0] == 'p' then 1
    else if id[0] == 't' then 2
    else if id[0] == 'u' then 3
    else if id[0] == 'c' then 4
    else if |id| == 6 then 0
    else 5
  }

  lemma DbLevels(lo: nat, hi: nat)
    requires lo <= hi <= |Db| && hi - lo <= 5
    ensures forall i :: lo <= i < hi ==> LevelBelowParent(Db[i], IdLevel, |Db|)
  {
  }

  /** The built-in table is a forest: every parent walk in it ends. */
  lemma DbAcyclic()
    ensures Acyclic(Db)
  {
    DbLevels(0, 5);
    DbLevels(5, 10);
    DbLevels(10, 15);
    AcyclicByLevel(Db, IdLevel);
  }

  /** `getAsset` finds the `k`-th asset when no earlier asset has its id. */
  lemma GetAssetAt(db: seq<Asset>, k: nat)
    requires k < |db| && forall j :: 0 <= j < k ==> db[j].id != db[k].id
    ensures GetAsset(db, db[k].id) == Some(db[k])
  {
    GetAssetIsFirst(db, db[k].id);
  }

  /**
   * The links of the built-in table that the walk from `sig-1` follows, and
   * that no earlier asset carries any of the ids it visits.
   */
  lemma Sig1Links(db: seq<Asset>)
    requires db == Db
    ensures |db| == 15 && db[11].id == "sig-1" && db[0].parentId.None?
    ensures db[2].parentId == Some(db[0].id) && db[5].parentId == Some(db[2].id) && db[7].parentId == Some(db[5].id)
    ensures db[9].parentId == Some(db[7].id) && db[11].parentId == Some(db[9].id)
    ensures forall j :: 0 <= j < 11 ==> db[j].id != db[11].id && (j < 9 ==> db[j].id != db[9].id)
    ensures forall j :: 0 <= j < 7 ==> db[j].id != db[7].id && (j < 5 ==> db[j].id != db[5].id) && (j < 2 ==> db[j].id != db[2].id)
  {
  }

  /** The parent steps of the walk from `sig-1`, on any table with the links `Sig1Links` lists. */
  lemma Sig1Parents(db: seq<Asset>)
    requires |db| == 15 && db[11].id == "sig-1" && db[0].parentId.None?
    requires db[2].parentId == Some(db[0].id) && db[5].parentId == Some(db[2].id) && db[7].parentId == Some(db[5].id)
    requires db[9].parentId == Some(db[7].id) && db[11].parentId == Some(db[9].id)
    requires forall j :: 0 <= j < 11 ==> db[j].id != db[11].id && (j < 9 ==> db[j].id != db[9].id)
    requires forall j :: 0 <= j < 7 ==> db[j].id != db[7].id && (j < 5 ==> db[j].id != db[5].id) && (j < 2 ==> db[j].id != db[2].id)
    ensures GetAsset(db, "sig-1") == Some(db[11]) && Parent(db, db[0]).None?
    ensures Parent(db, db[2]) == Some(db[0]) && Parent(db, db[5]) == Some(db[2]) && Parent(db, db[7]) == Some(db[5])
    ensures Parent(db, db[9]) == Some(db[7]) && Parent(db, db[11]) == Some(db[9])
  {
    GetAssetAt(db, 0);
    GetAssetAt(db, 2);
    GetAssetAt(db, 5);
    GetAssetAt(db, 7);
    GetAssetAt(db, 9);
    GetAssetAt(db, 11);
  }

  /** Following those steps from `sig-1` visits six assets before it reaches a root. */
  lemma Sig1Walk(db: seq<Asset>, n: nat)
    requires |db| > 11 && WalkEnds(db, db[11], n)
    requires Parent(db, db[0]).None?
    requires Parent(db, db[2]) == Some(db[0]) && Parent(db, db[5]) == Some(db[2]) && Parent(db, db[7]) == Some(db[5])
    requires Parent(db, db[9]) == Some(db[7]) && Parent(db, db[11]) == Some(db[9])
    ensures Chain(db, db[11], n) == [db[0], db[2], db[5], db[7], db[9], db[11]]
  {
    assert WalkEnds(db, db[9], n - 1);
    assert WalkEnds(db, db[7], n - 2);
    assert WalkEnds(db, db[5], n - 3);
    assert WalkEnds(db, db[2], n - 4);
    assert WalkEnds(db, db[0], n - 5);
    assert Chain(db, db[0], n - 5) == [db[0]];
    assert Chain(db, db[2], n - 4) == [db[0], db[2]];
    assert Chain(db, db[5], n - 3) == [db[0], db[2], db[5]];
    assert Chain(db, db[7], n - 2) == [db[0], db[2], db[5], db[7]];
    assert Chain(db, db[9], n - 1) == [db[0], db[2], db[5], db[7], db[9]];
  }

  /** The path of `sig-1`, on any acyclic table with those steps. */
  lemma Sig1Chain(db: seq<Asset>)
    requires Acyclic(db) && |db| > 11
    requires GetAsset(db, "sig-1") == Some(db[11]) && Parent(db, db[0]).None?
    requires Parent(db, db[2]) == Some(db[0]) && Parent(db, db[5]) == Some(db[2]) && Parent(db, db[7]) == Some(db[5])
    requires Parent(db, db[9]) == Some(db[7]) && Parent(db, db[11]) == Some(db[9])
    ensures Path(db, "sig-1") == [db[0], db[2], db[5], db[7], db[9], db[11]]
  {
    assert db[11] in db;
    Sig1Walk(db, |db|);
  }

  /**
   * On the built-in table the breadcrumb path of `sig-1` is the full chain
   * site-1, plant-1, train-1, unit-1, cont-1, sig-1: six entries, root
   * included, since the walk has no depth bound.
   */
  lemma Sig1Path(db: seq<Asset>)
    requires db == Db
    ensures Acyclic(db)
    ensures Path(db, "sig-1") == [db[0], db[2], db[5], db[7], db[9], db[11]]
    ensures |Path(db, "sig-1")| == 6 && Path(db, "sig-1")[0].id == "site-1"
  {
    DbAcyclic();
    Sig1Links(db);
    Sig1Parents(db);
    Sig1Chain(db);
  }
}
