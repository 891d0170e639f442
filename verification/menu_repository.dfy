/** The menu resolver (StudentCoreWebApi/Repository/MenuRepository.cs).
    GetMenuByUserAsync is a chain of queries followed by the recursive
    BuildMenuTree; it is modelled by functions over the tables. Creating a
    menu and linking it to permissions change the store and are methods of
    `MenuRepository`. */
module Menus {
  import opened Common
  import opened Entities
  import opened Dtos
  import opened Store

  // ---------------------------------------------------------------------
  // Visible menus

  /** The permission ids granted to any of `roleIds`. The source's
      Distinct() only removes repeats, which the membership tests made with
      this list do not see. */
  function PermissionIdsOf(rps: seq<RolePermission>, roleIds: seq<Guid>): (ids: seq<Guid>)
    ensures forall p :: p in ids <==> exists rp :: rp in rps && rp.roleId in roleIds && rp.permissionId == p
  {
    if rps == [] then []
    else
      assert rps == [rps[0]] + rps[1..];
      (if rps[0].roleId in roleIds then [rps[0].permissionId] else []) + PermissionIdsOf(rps[1..], roleIds)
  }

  /** The menu ids linked to any of `permissionIds`. */
  function MenuIdsOf(mps: seq<MenuPermission>, permissionIds: seq<Guid>): (ids: seq<Guid>)
    ensures forall g :: g in ids <==> exists mp :: mp in mps && mp.permissionId in permissionIds && mp.menuId == g
  {
    if mps == [] then []
    else
      assert mps == [mps[0]] + mps[1..];
      (if mps[0].permissionId in permissionIds then [mps[0].menuId] else []) + MenuIdsOf(mps[1..], permissionIds)
  }

  /** Some role of the user is granted some permission linked to the menu. */
  ghost predicate MenuVisibleTo(t: Tables, userId: Guid, menuId: Guid)
  {
    exists ur, rp, mp ::
      && ur in t.usersRoles && rp in t.rolePermissions && mp in t.menuPermissions
      && ur.userId == userId && rp.roleId == ur.roleId
      && mp.permissionId == rp.permissionId && mp.menuId == menuId
  }

  function IdIn(ids: seq<Guid>): Menu -> bool
  {
    (m: Menu) => m.id in ids
  }

  /** `allMenus`: the Menus rows visible to the user, in table order. */
  function VisibleMenus(t: Tables, userId: Guid): (vs: seq<Menu>)
    ensures forall m :: m in vs <==> m in t.menus && MenuVisibleTo(t, userId, m.id)
    ensures multiset(vs) <= multiset(t.menus)
  {
    var roleIds := RoleIdsOf(t.usersRoles, userId);
    var menuIds := MenuIdsOf(t.menuPermissions, PermissionIdsOf(t.rolePermissions, roleIds));
    FilterSubMultiset(t.menus, IdIn(menuIds));
    assert forall g :: g in menuIds <==> MenuVisibleTo(t, userId, g);
    Filter(t.menus, IdIn(menuIds))
  }

  // ---------------------------------------------------------------------
  // Ordering by Order: a stable sort in which a null Order comes first

  predicate OrderLe(a: Option<int>, b: Option<int>)
  {
    a.None? || (b.Some? && a.value <= b.value)
  }

  ghost predicate SortedByOrder(ms: seq<Menu>)
  {
    forall i, j :: 0 <= i < j < |ms| ==> OrderLe(ms[i].order, ms[j].order)
  }

  /** Puts `m` in front of the first entry whose Order is not below its own. */
  function InsertByOrder(m: Menu, s: seq<Menu>): (r: seq<Menu>)
    ensures multiset(r) == multiset(s) + multiset{m}
    ensures SortedByOrder(s) ==> SortedByOrder(r)
  {
    if s == [] then [m]
    else if OrderLe(m.order, s[0].order) then
      InsertInFront(m, s);
      [m] + s
    else
      var rest := InsertByOrder(m, s[1..]);
      assert s == [s[0]] + s[1..];
      InsertBehind(m, s, rest);
      [s[0]] + rest
  }

  /** A sorted list stays sorted when an entry whose Order is not above
      the head's is put in front. */
  lemma InsertInFront(m: Menu, s: seq<Menu>)
    requires s != [] && OrderLe(m.order, s[0].order)
    ensures SortedByOrder(s) ==> SortedByOrder([m] + s)
  {
    if SortedByOrder(s) {
      var r := [m] + s;
      forall i, j | 0 <= i < j < |r| ensures OrderLe(r[i].order, r[j].order) {
        assert r[j] == s[j - 1];
        if i > 0 {
          assert r[i] == s[i - 1];
        } else if j > 1 {
          assert OrderLe(s[0].order, s[j - 1].order);
        }
      }
    }
  }

  /** A sorted list stays sorted when its tail is replaced by a sorted
      rearrangement of the tail and an entry that may follow the head. */
  lemma InsertBehind(m: Menu, s: seq<Menu>, rest: seq<Menu>)
    requires s != [] && !OrderLe(m.order, s[0].order)
    requires multiset(rest) == multiset(s[1..]) + multiset{m}
    requires SortedByOrder(s[1..]) ==> SortedByOrder(rest)
    ensures SortedByOrder(s) ==> SortedByOrder([s[0]] + rest)
  {
    if SortedByOrder(s) {
      assert SortedByOrder(s[1..]) by {
        forall i, j | 0 <= i < j < |s[1..]| ensures OrderLe(s[1..][i].order, s[1..][j].order) {
          assert s[1..][i] == s[i + 1] && s[1..][j] == s[j + 1];
        }
      }
      forall x | x in rest ensures OrderLe(s[0].order, x.order) {
        assert x in multiset(rest);
        if x != m {
          assert x in multiset(s[1..]);
          var k :| 0 <= k < |s[1..]| && s[1..][k] == x;
          assert s[k + 1] == x;
        }
      }
      var r := [s[0]] + rest;
      forall i, j | 0 <= i < j < |r| ensures OrderLe(r[i].order, r[j].order) {
        assert r[j] == rest[j - 1] && rest[j - 1] in rest;
        if i > 0 {
          assert r[i] == rest[i - 1];
        }
      }
    }
  }

  /** OrderBy(m => m.Order) over in-memory menus. */
  function SortByOrder(ms: seq<Menu>): (r: seq<Menu>)
    ensures SortedByOrder(r)
    ensures multiset(r) == multiset(ms)
  {
    if ms == [] then []
    else
      assert ms == [ms[0]] + ms[1..];
      InsertByOrder(ms[0], SortByOrder(ms[1..]))
  }

  function HasOrder(k: Option<int>): Menu -> bool
  {
    (m: Menu) => m.order == k
  }

  /** The entries of one Order value in a one-element list. */
  function Ties(m: Menu, k: Option<int>): seq<Menu>
  {
    if m.order == k then [m] else []
  }

  /** Picking out one Order value from a list with a given head. */
  lemma FilterCons(x: Menu, s: seq<Menu>, k: Option<int>)
    ensures Filter([x] + s, HasOrder(k)) == Ties(x, k) + Filter(s, HasOrder(k))
  {
    var xs := [x] + s;
    assert xs[0] == x && xs[1..] == s;
  }

  /** Inserting `m` after an entry with a smaller Order commutes with
      picking out the entries of one Order value. */
  lemma PassTie(m: Menu, x: Menu, rest: seq<Menu>, tail: seq<Menu>, k: Option<int>)
    requires !OrderLe(m.order, x.order)
    requires Filter(rest, HasOrder(k)) == Ties(m, k) + tail
    ensures Filter([x] + rest, HasOrder(k)) == Ties(m, k) + (Ties(x, k) + tail)
  {
    FilterCons(x, rest, k);
    assert Ties(m, k) == [] || Ties(x, k) == [];
    SwapEmpty(Ties(x, k), Ties(m, k), tail);
  }

  lemma SwapEmpty(a: seq<Menu>, b: seq<Menu>, tail: seq<Menu>)
    requires a == [] || b == []
    ensures a + (b + tail) == b + (a + tail)
  {
    if a == [] {
      assert a + (b + tail) == b + tail == b + (a + tail);
    } else {
      assert a + (b + tail) == a + tail == b + (a + tail);
    }
  }

  lemma {:induction false} InsertKeepsTies(m: Menu, s: seq<Menu>, k: Option<int>)
    ensures Filter(InsertByOrder(m, s), HasOrder(k)) == Ties(m, k) + Filter(s, HasOrder(k))
  {
    if s == [] {
      FilterCons(m, [], k);
      assert InsertByOrder(m, s) == [m] + [];
    } else if OrderLe(m.order, s[0].order) {
      assert InsertByOrder(m, s) == [m] + s;
      FilterCons(m, s, k);
    } else {
      var rest := InsertByOrder(m, s[1..]);
      var tail := Filter(s[1..], HasOrder(k));
      assert InsertByOrder(m, s) == [s[0]] + rest;
      InsertKeepsTies(m, s[1..], k);
      PassTie(m, s[0], rest, tail, k);
      assert s == [s[0]] + s[1..];
      FilterCons(s[0], s[1..], k);
    }
  }

  /** The sort is stable: the menus sharing one Order value keep their
      relative order. */
  lemma {:induction false} SortByOrderIsStable(ms: seq<Menu>, k: Option<int>)
    ensures Filter(SortByOrder(ms), HasOrder(k)) == Filter(ms, HasOrder(k))
  {
    if ms != [] {
      var sorted := SortByOrder(ms[1..]);
      assert SortByOrder(ms) == InsertByOrder(ms[0], sorted);
      SortByOrderIsStable(ms[1..], k);
      InsertKeepsTies(ms[0], sorted, k);
      assert ms == [ms[0]] + ms[1..];
      FilterCons(ms[0], ms[1..], k);
    }
  }

  function WithParent(parent: Option<Guid>): Menu -> bool
  {
    (m: Menu) => m.parentMenuId == parent
  }

  /** One level of the tree: the menus of `all` whose ParentMenuId is
      `parent` (null for the top level), ordered by Order. */
  function Level(all: seq<Menu>, parent: Option<Guid>): seq<Menu>
  {
    SortByOrder(Filter(all, WithParent(parent)))
  }

  lemma LevelMembers(all: seq<Menu>, parent: Option<Guid>)
    ensures forall c :: c in Level(all, parent) <==> c in all && c.parentMenuId == parent
  {
    var f := Filter(all, WithParent(parent));
    var r := SortByOrder(f);
    assert forall c :: c in r <==> c in multiset(r);
    assert forall c :: c in f <==> c in multiset(f);
  }

  /** A level holds exactly the menus naming `parent`, sorted by Order,
      each as often as in `all`; menus of one Order keep their order. */
  lemma LevelFacts(all: seq<Menu>, parent: Option<Guid>)
    ensures forall c :: c in Level(all, parent) <==> c in all && c.parentMenuId == parent
    ensures SortedByOrder(Level(all, parent))
    ensures multiset(Level(all, parent)) <= multiset(all)
    ensures forall k :: Filter(Level(all, parent), HasOrder(k)) == Filter(Filter(all, WithParent(parent)), HasOrder(k))
  {
    var f := Filter(all, WithParent(parent));
    var r := SortByOrder(f);
    FilterSubMultiset(all, WithParent(parent));
    assert forall c :: c in r <==> c in multiset(r);
    assert forall c :: c in f <==> c in multiset(f);
    forall k ensures Filter(r, HasOrder(k)) == Filter(f, HasOrder(k)) {
      SortByOrderIsStable(f, k);
    }
  }


  // ---------------------------------------------------------------------
  // Parent chains

  /** Each entry of `q` is a menu of `all` whose parent is the entry before it. */
  ghost predicate Linked(all: seq<Menu>, q: seq<Menu>)
  {
    && (forall i :: 0 <= i < |q| ==> q[i] in all)
    && (forall i :: 0 < i < |q| ==> q[i].parentMenuId == Some(q[i - 1].id))
  }

  /** `q` runs from a top-level menu of `all` down parent links. */
  ghost predicate RootedChain(all: seq<Menu>, q: seq<Menu>)
  {
    |q| > 0 && q[0].parentMenuId.None? && Linked(all, q)
  }

  lemma SameIdSameMenu(all: seq<Menu>, a: Menu, b: Menu)
    requires UniqueMenuIds(all) && a in all && b in all && a.id == b.id
    ensures a == b
  {
    var i :| 0 <= i < |all| && all[i] == a;
    var j :| 0 <= j < |all| && all[j] == b;
  }

  lemma LinkedPrefix(all: seq<Menu>, q: seq<Menu>, n: nat)
    requires Linked(all, q) && n <= |q|
    ensures Linked(all, q[..n])
  {
    assert forall i :: 0 <= i < n ==> q[..n][i] == q[i];
  }

  /** With unique keys, a menu is reached from the top level by one chain
      at most: the chain is the menu's ancestry read downwards. */
  lemma {:induction false} RootedChainUnique(all: seq<Menu>, c1: seq<Menu>, c2: seq<Menu>)
    requires UniqueMenuIds(all) && RootedChain(all, c1) && RootedChain(all, c2)
    requires c1[|c1| - 1] == c2[|c2| - 1]
    ensures c1 == c2
    decreases |c1|
  {
    var n1, n2 := |c1|, |c2|;
    if n1 == 1 {
      assert n2 == 1;
    } else {
      assert c1[n1 - 1].parentMenuId == Some(c1[n1 - 2].id);
      assert n2 > 1;
      assert c2[n2 - 1].parentMenuId == Some(c2[n2 - 2].id);
      SameIdSameMenu(all, c1[n1 - 2], c2[n2 - 2]);
      LinkedPrefix(all, c1, n1 - 1);
      LinkedPrefix(all, c2, n2 - 1);
      RootedChainUnique(all, c1[..n1 - 1], c2[..n2 - 1]);
      assert c1 == c1[..n1 - 1] + [c1[n1 - 1]];
      assert c2 == c2[..n2 - 1] + [c2[n2 - 1]];
    }
  }

  /** No menu occurs twice on a chain, so a chain is never longer than the
      menu list it runs through. */
  lemma ChainBound(all: seq<Menu>, q: seq<Menu>)
    requires UniqueMenuIds(all) && RootedChain(all, q)
    ensures |q| <= |all|
  {
    forall i, j | 0 <= i < j < |q|
      ensures q[i] != q[j]
    {
      if q[i] == q[j] {
        LinkedPrefix(all, q, i + 1);
        LinkedPrefix(all, q, j + 1);
        RootedChainUnique(all, q[..i + 1], q[..j + 1]);
      }
    }
    DistinctBound(q, all);
  }

  lemma {:induction false} DistinctBound(q: seq<Menu>, all: seq<Menu>)
    requires forall i :: 0 <= i < |q| ==> q[i] in all
    requires forall i, j :: 0 <= i < j < |q| ==> q[i] != q[j]
    ensures |q| <= |all|
  {
    if q != [] {
      var n := |q| - 1;
      var k :| 0 <= k < |all| && all[k] == q[n];
      var all' := all[..k] + all[k + 1..];
      forall i | 0 <= i < n ensures q[i] in all' {
        var j :| 0 <= j < |all| && all[j] == q[i];
        if j < k {
          assert all'[j] == all[j];
        } else {
          assert j != k && all'[j - 1] == all[j];
        }
      }
      DistinctBound(q[..n], all');
    }
  }

  /** A chain to the head of `q` extends along `q`. */
  lemma PathExtends(all: seq<Menu>, path: seq<Menu>, q: seq<Menu>)
    requires |q| > 0 && RootedChain(all, path + [q[0]]) && Linked(all, q)
    ensures RootedChain(all, path + q)
  {
    var c, c0 := path + q, path + [q[0]];
    forall i | 0 <= i < |c| ensures c[i] in all {
      if i < |path| {
        assert c[i] == c0[i];
      } else {
        assert c[i] == q[i - |path|];
      }
    }
    forall i | 0 < i < |c| ensures c[i].parentMenuId == Some(c[i - 1].id) {
      if i <= |path| {
        assert c[i] == c0[i] && c[i - 1] == c0[i - 1];
      } else {
        assert c[i] == q[i - |path|] && c[i - 1] == q[i - 1 - |path|];
      }
    }
    assert c[0] == c0[0];
  }

  /** The ParentMenuId of the menus one level below `path`: null below the
      empty path, the last menu's id otherwise. */
  function ParentOf(path: seq<Menu>): (p: Option<Guid>)
    ensures p.None? <==> path == []
  {
    if path == [] then None else Some(path[|path| - 1].id)
  }

  /** `path` is empty or a chain from the top level. */
  ghost predicate PathOk(all: seq<Menu>, path: seq<Menu>)
  {
    path == [] || RootedChain(all, path)
  }

  /** Every menu of `level` is a menu of `all` one level below `path`. */
  ghost predicate Below(all: seq<Menu>, level: seq<Menu>, path: seq<Menu>)
  {
    forall m :: m in level ==> m in all && m.parentMenuId == ParentOf(path)
  }

  /** A menu one level below a path extends it to a chain. */
  lemma Extend(all: seq<Menu>, path: seq<Menu>, m: Menu)
    requires PathOk(all, path) && m in all && m.parentMenuId == ParentOf(path)
    ensures RootedChain(all, path + [m])
  {
    var c := path + [m];
    assert c[|path|] == m;
    assert forall i :: 0 <= i < |path| ==> c[i] == path[i];
  }

  /** The level below the last menu of a chain lies below that chain. */
  lemma ChildrenBelow(all: seq<Menu>, path: seq<Menu>, m: Menu)
    ensures ParentOf(path + [m]) == Some(m.id)
    ensures Below(all, Level(all, Some(m.id)), path + [m])
  {
    assert (path + [m])[|path + [m]| - 1] == m;
    LevelMembers(all, Some(m.id));
  }

  lemma HeadTail(s: seq<Menu>)
    requires s != []
    ensures s == [s[0]] + s[1..]
  {
  }

  lemma BelowTail(all: seq<Menu>, level: seq<Menu>, path: seq<Menu>)
    requires level != [] && Below(all, level, path)
    ensures Below(all, level[1..], path)
  {
    assert forall l :: l in level[1..] ==> l in level;
  }

  // ---------------------------------------------------------------------
  // The tree

  /** A menu with its sub-menus, before projection to MenuDTO. */
  datatype MenuNode = MenuNode(menu: Menu, subMenus: seq<MenuNode>)

  function MenusOf(forest: seq<MenuNode>): (ms: seq<Menu>)
    ensures |ms| == |forest| && forall i :: 0 <= i < |forest| ==> ms[i] == forest[i].menu
  {
    seq(|forest|, i requires 0 <= i < |forest| => forest[i].menu)
  }

  /** Every node's sub-menus are the level of `all` below it. */
  ghost predicate ChildrenAreLevels(forest: seq<MenuNode>, all: seq<Menu>)
    decreases forest
  {
    forall i :: 0 <= i < |forest| ==>
      && MenusOf(forest[i].subMenus) == Level(all, Some(forest[i].menu.id))
      && ChildrenAreLevels(forest[i].subMenus, all)
  }

  /** BuildMenuTree: one node per menu of `level`, in order, whose
      sub-menus are built from the menus of `all` naming it as parent.
      `path` is the chain from the top level down to the parent of `level`;
      it bounds the recursion, since a chain is no longer than `all`. */
  function BuildForest(level: seq<Menu>, all: seq<Menu>, path: seq<Menu>): (r: seq<MenuNode>)
    requires UniqueMenuIds(all) && PathOk(all, path) && Below(all, level, path)
    ensures MenusOf(r) == level
    decreases |all| - |path|, |level|
  {
    if level == [] then []
    else
      var m := level[0];
      Extend(all, path, m);
      ChainBound(all, path + [m]);
      ChildrenBelow(all, path, m);
      BelowTail(all, level, path);
      var sub := BuildForest(Level(all, Some(m.id)), all, path + [m]);
      var rest := BuildForest(level[1..], all, path);
      MenusOfCons(MenuNode(m, sub), rest);
      HeadTail(level);
      [MenuNode(m, sub)] + rest
  }

  lemma MenusOfCons(n: MenuNode, rest: seq<MenuNode>)
    ensures MenusOf([n] + rest) == [n.menu] + MenusOf(rest)
  {
    assert forall i :: 0 < i < |rest| + 1 ==> ([n] + rest)[i] == rest[i - 1];
  }

  /** The preconditions of BuildForest, and what one step of it consumes. */
  lemma ForestStep(level: seq<Menu>, all: seq<Menu>, path: seq<Menu>)
    requires UniqueMenuIds(all) && PathOk(all, path) && Below(all, level, path) && level != []
    ensures |path| < |all|
    ensures level[0] in all && RootedChain(all, path + [level[0]])
    ensures ParentOf(path + [level[0]]) == Some(level[0].id)
    ensures Below(all, Level(all, Some(level[0].id)), path + [level[0]])
    ensures Below(all, level[1..], path)
    ensures BuildForest(level, all, path) ==
      [MenuNode(level[0], BuildForest(Level(all, Some(level[0].id)), all, path + [level[0]]))]
      + BuildForest(level[1..], all, path)
  {
    Extend(all, path, level[0]);
    ChainBound(all, path + [level[0]]);
    ChildrenBelow(all, path, level[0]);
    BelowTail(all, level, path);
  }

  /** Every node BuildMenuTree emits has as sub-menus exactly the level of
      `all` below it. */
  lemma {:induction false} ForestChildren(level: seq<Menu>, all: seq<Menu>, path: seq<Menu>)
    requires UniqueMenuIds(all) && PathOk(all, path) && Below(all, level, path)
    ensures ChildrenAreLevels(BuildForest(level, all, path), all)
    decreases |all| - |path|, |level|
  {
    if level != [] {
      var m := level[0];
      ForestStep(level, all, path);
      var children := Level(all, Some(m.id));
      var sub := BuildForest(children, all, path + [m]);
      var rest := BuildForest(level[1..], all, path);
      ForestChildren(children, all, path + [m]);
      ForestChildren(level[1..], all, path);
      var r := [MenuNode(m, sub)] + rest;
      forall i | 0 <= i < |r|
        ensures MenusOf(r[i].subMenus) == Level(all, Some(r[i].menu.id))
        ensures ChildrenAreLevels(r[i].subMenus, all)
      {
        if i > 0 {
          assert r[i] == rest[i - 1];
        }
      }
    }
  }

  /** The menus of a forest, each node before its sub-menus. */
  function Flatten(forest: seq<MenuNode>): (ms: seq<Menu>)
    decreases forest
  {
    if forest == [] then []
    else [forest[0].menu] + Flatten(forest[0].subMenus) + Flatten(forest[1..])
  }

  /** `x` is reached from `l` by following parent links downwards in `all`. */
  ghost predicate Descends(all: seq<Menu>, l: Menu, x: Menu)
  {
    exists q :: |q| > 0 && q[0] == l && q[|q| - 1] == x && Linked(all, q)
  }

  lemma FlattenCons(n: MenuNode, rest: seq<MenuNode>)
    ensures Flatten([n] + rest) == [n.menu] + Flatten(n.subMenus) + Flatten(rest)
  {
    assert ([n] + rest)[0] == n && ([n] + rest)[1..] == rest;
  }

  lemma DescendsSelf(all: seq<Menu>, m: Menu)
    requires m in all
    ensures Descends(all, m, m)
  {
    assert Linked(all, [m]);
  }

  lemma LinkedCons(all: seq<Menu>, m: Menu, q: seq<Menu>)
    requires m in all && Linked(all, q) && |q| > 0 && q[0].parentMenuId == Some(m.id)
    ensures Linked(all, [m] + q)
  {
    var q' := [m] + q;
    assert forall i :: 0 < i < |q'| ==> q'[i] == q[i - 1];
  }

  lemma LinkedTail(all: seq<Menu>, q: seq<Menu>)
    requires Linked(all, q) && |q| > 0
    ensures Linked(all, q[1..])
  {
    assert forall i :: 0 <= i < |q| - 1 ==> q[1..][i] == q[i + 1];
  }

  lemma DescendsThroughChild(all: seq<Menu>, m: Menu, c: Menu, x: Menu)
    requires m in all && c.parentMenuId == Some(m.id) && Descends(all, c, x)
    ensures Descends(all, m, x)
  {
    var q: seq<Menu> :| |q| > 0 && q[0] == c && q[|q| - 1] == x && Linked(all, q);
    LinkedCons(all, m, q);
    assert ([m] + q)[|[m] + q| - 1] == x;
  }

  /** Every menu of the forest built from `level` is reached from a menu
      of `level` along parent links in `all`. */
  lemma {:induction false} FlattenSound(level: seq<Menu>, all: seq<Menu>, path: seq<Menu>, x: Menu)
    requires UniqueMenuIds(all) && PathOk(all, path) && Below(all, level, path)
    requires x in Flatten(BuildForest(level, all, path))
    ensures exists l :: l in level && Descends(all, l, x)
    decreases |all| - |path|, |level|
  {
    var m := level[0];
    ForestStep(level, all, path);
    var children := Level(all, Some(m.id));
    var sub := BuildForest(children, all, path + [m]);
    var rest := BuildForest(level[1..], all, path);
    FlattenCons(MenuNode(m, sub), rest);
    if x == m {
      DescendsSelf(all, m);
    } else if x in Flatten(sub) {
      FlattenSound(children, all, path + [m], x);
      var c :| c in children && Descends(all, c, x);
      DescendsThroughChild(all, m, c, x);
    } else {
      FlattenSound(level[1..], all, path, x);
      var l :| l in level[1..] && Descends(all, l, x);
      assert l in level;
    }
  }

  /** Every menu reached from a menu of `level` along parent links in `all`
      occurs in the forest built from `level`. */
  lemma {:induction false} FlattenComplete(level: seq<Menu>, all: seq<Menu>, path: seq<Menu>, l: Menu, x: Menu)
    requires UniqueMenuIds(all) && PathOk(all, path) && Below(all, level, path)
    requires l in level && Descends(all, l, x)
    ensures x in Flatten(BuildForest(level, all, path))
    decreases |all| - |path|, |level|
  {
    var m := level[0];
    ForestStep(level, all, path);
    var children := Level(all, Some(m.id));
    var sub := BuildForest(children, all, path + [m]);
    var rest := BuildForest(level[1..], all, path);
    FlattenCons(MenuNode(m, sub), rest);
    var q: seq<Menu> :| |q| > 0 && q[0] == l && q[|q| - 1] == x && Linked(all, q);
    if l == m && |q| > 1 {
      LinkedTail(all, q);
      LevelMembers(all, Some(m.id));
      assert q[1] in all && q[1].parentMenuId == Some(m.id);
      assert q[1..][|q[1..]| - 1] == x;
      FlattenComplete(children, all, path + [m], q[1], x);
    } else if l != m {
      HeadTail(level);
      FlattenComplete(level[1..], all, path, l, x);
    }
  }

  lemma FlattenIff(level: seq<Menu>, all: seq<Menu>, path: seq<Menu>, x: Menu)
    requires UniqueMenuIds(all) && PathOk(all, path) && Below(all, level, path)
    ensures x in Flatten(BuildForest(level, all, path)) <==> exists l :: l in level && Descends(all, l, x)
  {
    if x in Flatten(BuildForest(level, all, path)) {
      FlattenSound(level, all, path, x);
    }
    if exists l :: l in level && Descends(all, l, x) {
      var l :| l in level && Descends(all, l, x);
      FlattenComplete(level, all, path, l, x);
    }
  }

  /** A chain to `l` continues down to every menu below `l`. */
  lemma DescentChain(all: seq<Menu>, path: seq<Menu>, l: Menu, x: Menu) returns (c: seq<Menu>)
    requires RootedChain(all, path + [l]) && Descends(all, l, x)
    ensures RootedChain(all, c) && c[|c| - 1] == x && |c| > |path|
    ensures c[..|path| + 1] == path + [l]
  {
    var q: seq<Menu> :| |q| > 0 && q[0] == l && q[|q| - 1] == x && Linked(all, q);
    PathExtends(all, path, q);
    c := path + q;
    assert c[..|path| + 1] == path + [l];
  }

  /** Two menus of one level that both lead to `x` are the same menu. */
  lemma SameLevelSame(all: seq<Menu>, path: seq<Menu>, l1: Menu, l2: Menu, x: Menu)
    requires UniqueMenuIds(all)
    requires RootedChain(all, path + [l1]) && Descends(all, l1, x)
    requires RootedChain(all, path + [l2]) && Descends(all, l2, x)
    ensures l1 == l2
  {
    var c1 := DescentChain(all, path, l1, x);
    var c2 := DescentChain(all, path, l2, x);
    RootedChainUnique(all, c1, c2);
    assert c1[..|path| + 1][|path|] == l1 && c2[..|path| + 1][|path|] == l2;
  }

  /** A menu does not lie below itself. */
  lemma NotBelowItself(all: seq<Menu>, path: seq<Menu>, m: Menu, c: Menu, x: Menu)
    requires UniqueMenuIds(all) && RootedChain(all, path + [m])
    requires c in all && c.parentMenuId == Some(m.id) && Descends(all, c, x)
    ensures x != m
  {
    assert ParentOf(path + [m]) == Some(m.id) by {
      assert (path + [m])[|path + [m]| - 1] == m;
    }
    Extend(all, path + [m], c);
    var below := DescentChain(all, path + [m], c, x);
    if x == m {
      RootedChainUnique(all, below, path + [m]);
    }
  }

  /** A level drawn from a keyed menu list holds no menu twice. */
  lemma LevelRepeatFree(all: seq<Menu>, parent: Option<Guid>)
    requires UniqueMenuIds(all)
    ensures forall y :: multiset(Level(all, parent))[y] <= 1
  {
    LevelFacts(all, parent);
    UniqueIdsNoRepeats(all);
  }

  /** The menus below the head `m` of a level are strictly below it. */
  lemma UnderHead(all: seq<Menu>, path: seq<Menu>, m: Menu, x: Menu)
    requires UniqueMenuIds(all) && RootedChain(all, path + [m]) && m in all
    requires Below(all, Level(all, Some(m.id)), path + [m])
    requires ParentOf(path + [m]) == Some(m.id)
    ensures x in Flatten(BuildForest(Level(all, Some(m.id)), all, path + [m])) ==>
      x != m && Descends(all, m, x)
  {
    var children := Level(all, Some(m.id));
    if x in Flatten(BuildForest(children, all, path + [m])) {
      FlattenSound(children, all, path + [m], x);
      var c :| c in children && Descends(all, c, x);
      DescendsThroughChild(all, m, c, x);
      NotBelowItself(all, path, m, c, x);
    }
  }

  /** What lies below the head of a repeat-free level is not in the forest
      of the rest of the level. */
  lemma NotInRest(level: seq<Menu>, all: seq<Menu>, path: seq<Menu>, x: Menu)
    requires UniqueMenuIds(all) && PathOk(all, path) && Below(all, level, path) && level != []
    requires forall y :: multiset(level)[y] <= 1
    requires Descends(all, level[0], x)
    ensures Below(all, level[1..], path)
    ensures x !in Flatten(BuildForest(level[1..], all, path))
  {
    var m := level[0];
    BelowTail(all, level, path);
    HeadNotInTail(level);
    if x in Flatten(BuildForest(level[1..], all, path)) {
      FlattenSound(level[1..], all, path, x);
      var l :| l in level[1..] && Descends(all, l, x);
      Extend(all, path, m);
      Extend(all, path, l);
      SameLevelSame(all, path, m, l, x);
    }
  }

  lemma HeadNotInTail(level: seq<Menu>)
    requires level != [] && forall y :: multiset(level)[y] <= 1
    ensures level[0] !in level[1..]
  {
    HeadTail(level);
    assert multiset(level)[level[0]] == 1 + multiset(level[1..])[level[0]];
  }

  lemma RestRepeatFree(level: seq<Menu>)
    requires level != [] && forall y :: multiset(level)[y] <= 1
    ensures forall y :: multiset(level[1..])[y] <= 1
  {
    HeadTail(level);
    assert multiset(level) == multiset([level[0]]) + multiset(level[1..]);
    forall y ensures multiset(level[1..])[y] <= 1 {
      assert multiset(level[1..])[y] <= multiset(level)[y];
    }
  }

  lemma FlattenCount(n: MenuNode, rest: seq<MenuNode>, x: Menu)
    ensures multiset(Flatten([n] + rest))[x]
      == (if x == n.menu then 1 else 0) + multiset(Flatten(n.subMenus))[x] + multiset(Flatten(rest))[x]
  {
    FlattenCons(n, rest);
  }

  /** A menu in the head's sub-forest is not the head, and neither the
      head nor anything below it is in the forest of the rest of the level. */
  lemma HeadExcludes(level: seq<Menu>, all: seq<Menu>, path: seq<Menu>, x: Menu)
    requires UniqueMenuIds(all) && PathOk(all, path) && Below(all, level, path) && level != []
    requires forall y :: multiset(level)[y] <= 1
    requires level[0] in all && RootedChain(all, path + [level[0]])
    requires ParentOf(path + [level[0]]) == Some(level[0].id)
    requires Below(all, Level(all, Some(level[0].id)), path + [level[0]])
    requires Below(all, level[1..], path)
    ensures x in Flatten(BuildForest(Level(all, Some(level[0].id)), all, path + [level[0]])) ==>
      x != level[0] && x !in Flatten(BuildForest(level[1..], all, path))
    ensures x == level[0] ==> x !in Flatten(BuildForest(level[1..], all, path))
  {
    var m := level[0];
    UnderHead(all, path, m, x);
    if x == m || x in Flatten(BuildForest(Level(all, Some(m.id)), all, path + [m])) {
      if x == m {
        DescendsSelf(all, m);
      }
      NotInRest(level, all, path, x);
    }
  }

  /** No menu occurs twice in the forest built from a repeat-free level. */
  lemma {:induction false} FlattenOnce(level: seq<Menu>, all: seq<Menu>, path: seq<Menu>, x: Menu)
    requires UniqueMenuIds(all) && PathOk(all, path) && Below(all, level, path)
    requires forall y :: multiset(level)[y] <= 1
    ensures multiset(Flatten(BuildForest(level, all, path)))[x] <= 1
    decreases |all| - |path|, |level|
  {
    if level != [] {
      var m := level[0];
      ForestStep(level, all, path);
      var children := Level(all, Some(m.id));
      var sub := BuildForest(children, all, path + [m]);
      var rest := BuildForest(level[1..], all, path);
      FlattenCount(MenuNode(m, sub), rest, x);
      LevelRepeatFree(all, Some(m.id));
      FlattenOnce(children, all, path + [m], x);
      RestRepeatFree(level);
      FlattenOnce(level[1..], all, path, x);
      HeadExcludes(level, all, path, x);
    }
  }

  lemma {:induction false} UniqueIdsNoRepeats(ms: seq<Menu>)
    requires UniqueMenuIds(ms)
    ensures forall y :: multiset(ms)[y] <= 1
  {
    if ms != [] {
      UniqueTail(ms);
      UniqueIdsNoRepeats(ms[1..]);
      assert ms == [ms[0]] + ms[1..];
      assert ms[0] !in ms[1..] by {
        forall k | 0 <= k < |ms[1..]| ensures ms[1..][k] != ms[0] {
          assert ms[1..][k] == ms[k + 1];
        }
      }
    }
  }

  lemma UniqueTail(ms: seq<Menu>)
    requires UniqueMenuIds(ms) && ms != []
    ensures UniqueMenuIds(ms[1..])
    ensures forall y :: y in ms[1..] ==> y.id != ms[0].id
  {
    forall i, j | 0 <= i < |ms[1..]| && 0 <= j < |ms[1..]| && ms[1..][i].id == ms[1..][j].id
      ensures i == j
    {
      assert ms[1..][i] == ms[i + 1] && ms[1..][j] == ms[j + 1];
    }
    forall y | y in ms[1..] ensures y.id != ms[0].id {
      var k :| 0 <= k < |ms[1..]| && ms[1..][k] == y;
      assert ms[1..][k] == ms[k + 1];
    }
  }

  lemma {:induction false} FilterKeepsUniqueIds(ms: seq<Menu>, p: Menu -> bool)
    requires UniqueMenuIds(ms)
    ensures UniqueMenuIds(Filter(ms, p))
  {
    if ms != [] {
      UniqueTail(ms);
      FilterKeepsUniqueIds(ms[1..], p);
      var rest := Filter(ms[1..], p);
      if p(ms[0]) {
        var r := [ms[0]] + rest;
        assert Filter(ms, p) == r;
        forall i, j | 0 <= i < |r| && 0 <= j < |r| && r[i].id == r[j].id ensures i == j {
          if i > 0 {
            assert r[i] == rest[i - 1] && r[i] in rest;
          }
          if j > 0 {
            assert r[j] == rest[j - 1] && r[j] in rest;
          }
        }
      } else {
        assert Filter(ms, p) == rest;
      }
    }
  }

  // ---------------------------------------------------------------------
  // GetMenuByUserAsync

  /** The tree GetMenuByUserAsync builds, before projection: its top level is
      the top level of the visible menus, and below every node lies the
      level of visible menus naming it as parent. The store keys menus by
      id, which is what bounds the recursion. */
  function MenuTree(t: Tables, userId: Guid): (r: seq<MenuNode>)
    requires UniqueMenuIds(t.menus)
    ensures MenusOf(r) == Level(VisibleMenus(t, userId), None)
    ensures ChildrenAreLevels(r, VisibleMenus(t, userId))
  {
    var vs := VisibleMenus(t, userId);
    VisibleKeysUnique(t, userId);
    TopLevelBelow(vs);
    ForestChildren(Level(vs, None), vs, []);
    BuildForest(Level(vs, None), vs, [])
  }

  lemma VisibleKeysUnique(t: Tables, userId: Guid)
    requires UniqueMenuIds(t.menus)
    ensures UniqueMenuIds(VisibleMenus(t, userId))
  {
    var roleIds := RoleIdsOf(t.usersRoles, userId);
    var menuIds := MenuIdsOf(t.menuPermissions, PermissionIdsOf(t.rolePermissions, roleIds));
    FilterKeepsUniqueIds(t.menus, IdIn(menuIds));
  }

  lemma TopLevelBelow(vs: seq<Menu>)
    ensures PathOk(vs, []) && Below(vs, Level(vs, None), [])
  {
    LevelMembers(vs, None);
  }

  /** A rooted chain ends at a menu reached from a top-level menu. */
  lemma RootedReached(vs: seq<Menu>, q: seq<Menu>)
    requires RootedChain(vs, q)
    ensures q[0] in Level(vs, None) && Descends(vs, q[0], q[|q| - 1])
  {
    LevelMembers(vs, None);
  }

  /** A menu reached from a top-level menu ends a rooted chain. */
  lemma ReachedRooted(vs: seq<Menu>, l: Menu, x: Menu)
    requires l in Level(vs, None) && Descends(vs, l, x)
    ensures exists q :: RootedChain(vs, q) && q[|q| - 1] == x
  {
    LevelMembers(vs, None);
    var q: seq<Menu> :| |q| > 0 && q[0] == l && q[|q| - 1] == x && Linked(vs, q);
    assert RootedChain(vs, q);
  }

  /** A visible menu appears in the tree exactly when a chain of visible
      menus leads to it from a top-level menu: every ancestor must be
      visible, and the topmost must have a null parent. */
  lemma MenuAppearsIff(t: Tables, userId: Guid, x: Menu)
    requires UniqueMenuIds(t.menus)
    ensures x in Flatten(MenuTree(t, userId)) <==>
      exists q :: RootedChain(VisibleMenus(t, userId), q) && q[|q| - 1] == x
  {
    var vs := VisibleMenus(t, userId);
    VisibleKeysUnique(t, userId);
    TopLevelBelow(vs);
    TreeIff(vs, x);
  }

  lemma TreeIff(vs: seq<Menu>, x: Menu)
    requires UniqueMenuIds(vs) && PathOk(vs, []) && Below(vs, Level(vs, None), [])
    ensures x in Flatten(BuildForest(Level(vs, None), vs, [])) <==>
      exists q :: RootedChain(vs, q) && q[|q| - 1] == x
  {
    var roots := Level(vs, None);
    FlattenIff(roots, vs, [], x);
    if x in Flatten(BuildForest(roots, vs, [])) {
      var l :| l in roots && Descends(vs, l, x);
      ReachedRooted(vs, l, x);
    }
    if exists q :: RootedChain(vs, q) && q[|q| - 1] == x {
      var q: seq<Menu> :| RootedChain(vs, q) && q[|q| - 1] == x;
      RootedReached(vs, q);
    }
  }

  /** A menu appears in the tree at most once. */
  lemma MenuAppearsOnce(t: Tables, userId: Guid, x: Menu)
    requires UniqueMenuIds(t.menus)
    ensures multiset(Flatten(MenuTree(t, userId)))[x] <= 1
  {
    var vs := VisibleMenus(t, userId);
    VisibleKeysUnique(t, userId);
    TopLevelBelow(vs);
    LevelRepeatFree(vs, None);
    FlattenOnce(Level(vs, None), vs, [], x);
  }

  /** A visible menu whose parent is not visible is dropped rather than
      moved to the top level. */
  lemma OrphanDropped(t: Tables, userId: Guid, x: Menu, parentId: Guid)
    requires UniqueMenuIds(t.menus)
    requires x.parentMenuId == Some(parentId)
    requires forall m :: m in VisibleMenus(t, userId) ==> m.id != parentId
    ensures x !in Flatten(MenuTree(t, userId))
  {
    MenuAppearsIff(t, userId, x);
    var vs := VisibleMenus(t, userId);
    forall q | RootedChain(vs, q) && q[|q| - 1] == x
      ensures false
    {
      ParentOnChain(vs, q);
    }
  }

  /** On a chain, the parent of a menu with a parent is the entry before it. */
  lemma ParentOnChain(vs: seq<Menu>, q: seq<Menu>)
    requires RootedChain(vs, q) && q[|q| - 1].parentMenuId.Some?
    ensures |q| > 1 && q[|q| - 2] in vs && q[|q| - 1].parentMenuId == Some(q[|q| - 2].id)
  {
  }

  /** The MenuDTO projection: only Title, Icon, Path and SubMenus are
      copied; Id stays Guid.Empty and Order and ParentMenuId stay null. */
  function ToDtos(forest: seq<MenuNode>): (r: seq<MenuDto>)
    ensures |r| == |forest|
    ensures forall i :: 0 <= i < |forest| ==>
      r[i] == MenuDto(EmptyGuid, forest[i].menu.title, forest[i].menu.icon, forest[i].menu.path,
                      None, None, ToDtos(forest[i].subMenus))
    decreases forest
  {
    if forest == [] then []
    else
      var n := forest[0];
      var r := [MenuDto(EmptyGuid, n.menu.title, n.menu.icon, n.menu.path, None, None, ToDtos(n.subMenus))]
               + ToDtos(forest[1..]);
      assert forall i :: 1 <= i < |forest| ==> forest[i] == forest[1..][i - 1];
      r
  }

  /** GetMenuByUserAsync: one DTO per visible top-level menu, in Order
      order, carrying that menu's title, icon and path. */
  function GetMenuByUser(t: Tables, userId: Guid): (r: seq<MenuDto>)
    requires UniqueMenuIds(t.menus)
    ensures |r| == |Level(VisibleMenus(t, userId), None)|
    ensures forall i :: 0 <= i < |r| ==>
      var m := Level(VisibleMenus(t, userId), None)[i];
      r[i].title == m.title && r[i].icon == m.icon && r[i].path == m.path
  {
    ToDtos(MenuTree(t, userId))
  }

  lemma NoMemberEmpty(s: seq<Menu>)
    requires forall m :: m !in s
    ensures s == []
  {
    forall m ensures multiset(s)[m] == 0 {
      assert m !in s;
    }
    assert multiset(s) == multiset{};
  }

  /** A user whose roles reach no menu gets an empty list rather than an
      error. */
  lemma NoVisibleMenusNoTree(t: Tables, userId: Guid)
    requires UniqueMenuIds(t.menus)
    requires forall m :: m in t.menus ==> !MenuVisibleTo(t, userId, m.id)
    ensures GetMenuByUser(t, userId) == []
  {
    var vs := VisibleMenus(t, userId);
    NoMemberEmpty(vs);
    LevelMembers(vs, None);
    assert Level(vs, None) == [];
  }

  /** A user holding no role gets an empty list. */
  lemma NoRolesNoMenus(t: Tables, userId: Guid)
    requires UniqueMenuIds(t.menus)
    requires forall ur :: ur in t.usersRoles ==> ur.userId != userId
    ensures GetMenuByUser(t, userId) == []
  {
    NoVisibleMenusNoTree(t, userId);
  }

  // ---------------------------------------------------------------------
  // CreateMenuAsync and AssignPermissionToMenuAsync

  /** Matches the MenuPermissions rows linking `menuId` to `permissionId`. */
  function PairOf(menuId: Guid, permissionId: Guid): MenuPermission -> bool
  {
    (mp: MenuPermission) => mp.menuId == menuId && mp.permissionId == permissionId
  }

  /** The permission ids the committed table does not yet link to `menuId`. */
  function Unpaired(committed: seq<MenuPermission>, menuId: Guid): Guid -> bool
  {
    (p: Guid) => FirstIndex(committed, PairOf(menuId, p)).None?
  }

  /** The entries of `permissionIds` for which AssignPermissionToMenuAsync
      adds a row: those not linked to the menu when the call began. The
      existence test reads the saved table, so an id listed twice and not
      yet linked is added twice. */
  function NewPairings(committed: seq<MenuPermission>, menuId: Guid, permissionIds: seq<Guid>): (r: seq<Guid>)
    ensures |r| <= |permissionIds|
    ensures forall p :: p in r <==>
      p in permissionIds && forall k :: 0 <= k < |committed| ==> !PairOf(menuId, p)(committed[k])
  {
    FilterLength(permissionIds, Unpaired(committed, menuId));
    Filter(permissionIds, Unpaired(committed, menuId))
  }

  lemma {:induction false} FilterLength<T(!new)>(s: seq<T>, p: T -> bool)
    ensures |Filter(s, p)| <= |s|
  {
    if s != [] {
      FilterLength(s[1..], p);
    }
  }

  /** One more listed id extends the pairings by that id exactly when it
      is not yet linked. */
  lemma NewPairingsSnoc(committed: seq<MenuPermission>, menuId: Guid, permissionIds: seq<Guid>, i: nat)
    requires i < |permissionIds|
    ensures NewPairings(committed, menuId, permissionIds[..i + 1])
      == NewPairings(committed, menuId, permissionIds[..i])
         + (if FirstIndex(committed, PairOf(menuId, permissionIds[i])).None? then [permissionIds[i]] else [])
  {
    var p := permissionIds[i];
    assert permissionIds[..i + 1] == permissionIds[..i] + [p];
    FilterAppend(permissionIds[..i], [p], Unpaired(committed, menuId));
    assert [p][1..] == [];
  }

  /** The foreign key on MenuPermissions.PermissionId: every id in
      `pairings` is the key of a saved Permissions row. */
  predicate PairingsSaved(permissions: seq<Permission>, pairings: seq<Guid>)
  {
    forall j :: 0 <= j < |pairings| ==> exists k :: 0 <= k < |permissions| && permissions[k].id == pairings[j]
  }

  /** Listing only saved permissions never breaks the foreign key. */
  lemma KnownPermissionsSave(permissions: seq<Permission>, committed: seq<MenuPermission>, menuId: Guid, permissionIds: seq<Guid>)
    requires forall j :: 0 <= j < |permissionIds| ==> exists k :: 0 <= k < |permissions| && permissions[k].id == permissionIds[j]
    ensures PairingsSaved(permissions, NewPairings(committed, menuId, permissionIds))
  {
    var added := NewPairings(committed, menuId, permissionIds);
    forall j | 0 <= j < |added|
      ensures exists k :: 0 <= k < |permissions| && permissions[k].id == added[j]
    {
      assert added[j] in permissionIds;
      var i :| 0 <= i < |permissionIds| && permissionIds[i] == added[j];
    }
  }

  /** An unlinked id that names no saved permission breaks the foreign
      key, so the whole call saves nothing. */
  lemma UnknownPermissionBreaksSave(permissions: seq<Permission>, committed: seq<MenuPermission>, menuId: Guid, permissionIds: seq<Guid>, p: Guid)
    requires p in permissionIds && forall k :: 0 <= k < |committed| ==> !PairOf(menuId, p)(committed[k])
    requires forall k :: 0 <= k < |permissions| ==> permissions[k].id != p
    ensures !PairingsSaved(permissions, NewPairings(committed, menuId, permissionIds))
  {
    var added := NewPairings(committed, menuId, permissionIds);
    assert p in added;
    var j :| 0 <= j < |added| && added[j] == p;
  }

  /** `row` links `menuId` to `permissionId` under a key at or above `bound`. */
  ghost predicate PairRow(row: MenuPermission, menuId: Guid, permissionId: Guid, bound: Guid)
  {
    row.menuId == menuId && row.permissionId == permissionId && bound <= row.id
  }

  /** `after` is the MenuPermissions table of `t` followed by one row per
      entry of `permissionIds`, in order, each linking that permission to
      `menuId` under a key no row of `t` uses. */
  ghost predicate AppendsPairings(t: Tables, after: seq<MenuPermission>, menuId: Guid, permissionIds: seq<Guid>)
  {
    var n := |t.menuPermissions|;
    && |after| == n + |permissionIds|
    && after[..n] == t.menuPermissions
    && forall k :: 0 <= k < |permissionIds| ==>
         && after[n + k].menuId == menuId
         && after[n + k].permissionId == permissionIds[k]
         && t.IdUnused(after[n + k].id)
  }

  /** `added` holds one PairRow per entry of `permissionIds`, in order. */
  ghost predicate PairRows(added: seq<MenuPermission>, menuId: Guid, permissionIds: seq<Guid>, bound: Guid)
  {
    |added| == |permissionIds| && forall k :: 0 <= k < |added| ==> PairRow(added[k], menuId, permissionIds[k], bound)
  }

  lemma AppendedPairingsAreFresh(t: Tables, bound: Guid, added: seq<MenuPermission>, menuId: Guid, permissionIds: seq<Guid>)
    requires t.KeysBelow(bound) && PairRows(added, menuId, permissionIds, bound)
    ensures AppendsPairings(t, t.menuPermissions + added, menuId, permissionIds)
  {
    var after := t.menuPermissions + added;
    var n := |t.menuPermissions|;
    assert after[..n] == t.menuPermissions;
    forall k | 0 <= k < |permissionIds|
      ensures after[n + k] == added[k] && t.IdUnused(added[k].id)
    {
      assert PairRow(added[k], menuId, permissionIds[k], bound);
      AboveBoundUnused(t, bound, added[k].id);
    }
  }

  /** After a successful call every listed permission is linked to the
      menu: either it already was, or a row for it was appended. */
  lemma EveryListedPermissionLinked(t: Tables, after: seq<MenuPermission>, menuId: Guid, permissionIds: seq<Guid>, p: Guid)
    requires AppendsPairings(t, after, menuId, NewPairings(t.menuPermissions, menuId, permissionIds))
    requires p in permissionIds
    ensures exists k :: 0 <= k < |after| && PairOf(menuId, p)(after[k])
  {
    var n := |t.menuPermissions|;
    var added := NewPairings(t.menuPermissions, menuId, permissionIds);
    var found := FirstIndex(t.menuPermissions, PairOf(menuId, p));
    if found.Some? {
      assert after[..n][found.value] == after[found.value];
    } else {
      var k :| 0 <= k < |added| && added[k] == p;
      assert PairOf(menuId, p)(after[n + k]);
    }
  }

  /** Listing only permissions already linked to the menu adds nothing. */
  lemma AlreadyLinkedAddsNothing(committed: seq<MenuPermission>, menuId: Guid, permissionIds: seq<Guid>)
    requires forall p :: p in permissionIds ==> exists k :: 0 <= k < |committed| && PairOf(menuId, p)(committed[k])
    ensures NewPairings(committed, menuId, permissionIds) == []
  {
    FilterNone(permissionIds, Unpaired(committed, menuId));
  }

  /** With no link to the menu saved yet, every listed id is added, repeats
      included. */
  lemma {:induction false} UnlinkedMenuAddsAll(committed: seq<MenuPermission>, menuId: Guid, permissionIds: seq<Guid>)
    requires forall k :: 0 <= k < |committed| ==> committed[k].menuId != menuId
    ensures NewPairings(committed, menuId, permissionIds) == permissionIds
  {
    if permissionIds != [] {
      UnlinkedMenuAddsAll(committed, menuId, permissionIds[1..]);
      assert Unpaired(committed, menuId)(permissionIds[0]);
    }
  }

  /** The foreign key on Menus.ParentMenuId: a menu with a parent names
      the key of a row of `menus`. */
  predicate ParentSaved(menus: seq<Menu>, m: Menu)
  {
    m.parentMenuId.None? || exists k :: 0 <= k < |menus| && menus[k].id == m.parentMenuId.value
  }

  /** A new menu's parent is saved with it iff it is top-level, names
      itself, or names a menu already saved. */
  lemma ParentSavedAppend(menus: seq<Menu>, m: Menu)
    ensures ParentSaved(menus + [m], m) <==>
      || m.parentMenuId.None? || m.parentMenuId == Some(m.id)
      || exists k :: 0 <= k < |menus| && menus[k].id == m.parentMenuId.value
  {
    if m.parentMenuId.Some? {
      var all := menus + [m];
      if exists k :: 0 <= k < |all| && all[k].id == m.parentMenuId.value {
        var k :| 0 <= k < |all| && all[k].id == m.parentMenuId.value;
        if k < |menus| {
          assert menus[k] == all[k];
        }
      }
      if exists k :: 0 <= k < |menus| && menus[k].id == m.parentMenuId.value {
        var k :| 0 <= k < |menus| && menus[k].id == m.parentMenuId.value;
        assert all[k] == menus[k];
      }
      assert all[|menus|] == m;
    }
  }

  class MenuRepository {
    const db: IdentityStore

    constructor (db: IdentityStore)
      ensures this.db == db
    {
      this.db := db;
    }

    /** CreateMenuAsync: builds one Menus row under a fresh key, copying
        the DTO's title, icon, path, order and parent (the DTO's own id and
        sub-menus are ignored). Saving it reports true, unless the parent
        key names no saved menu: then the save throws DbUpdateException and
        nothing is stored. */
    method CreateMenu(menuDto: MenuDto) returns (r: Outcome<bool>)
      requires db.Valid()
      modifies db
      ensures db.Valid()
      ensures exists m: Menu ::
        && old(db.Snapshot()).IdUnused(m.id) && m.id != EmptyGuid
        && m == Menu(m.id, menuDto.title, menuDto.icon, menuDto.path, menuDto.order, menuDto.parentMenuId)
        && if ParentSaved(old(db.menus) + [m], m) then
             r == Returned(true) && db.Snapshot() == old(db.Snapshot()).(menus := old(db.menus) + [m])
           else
             r == Threw(DbUpdateException) && db.Snapshot() == old(db.Snapshot())
    {
      var id := db.NewGuid();
      var menu := Menu(id, menuDto.title, menuDto.icon, menuDto.path, menuDto.order, menuDto.parentMenuId);
      ParentSavedAppend(db.menus, menu);
      if menu.parentMenuId.Some? && menu.parentMenuId.value != id
         && FirstIndex(db.menus, MenuKeyed(menu.parentMenuId.value)).None? {
        return Threw(DbUpdateException);
      }
      db.InsertMenu(menu);
      r := Returned(true);
    }

    /** AssignPermissionToMenuAsync: throws ArgumentException("Menu not
        found.") without change when no menu has the key; otherwise adds
        one row per listed permission id the saved table does not yet link
        to the menu, in list order, and saves them together: if one of them
        names no saved permission the save throws DbUpdateException and
        none is stored. */
    method AssignPermissionToMenu(menuId: Guid, permissionIds: seq<Guid>) returns (r: Outcome<()>)
      requires db.Valid()
      modifies db
      ensures db.Valid()
      ensures FirstIndex(old(db.menus), MenuKeyed(menuId)).None? ==>
        r == Threw(ArgumentException("Menu not found.")) && db.Snapshot() == old(db.Snapshot())
      ensures FirstIndex(old(db.menus), MenuKeyed(menuId)).Some?
              && !PairingsSaved(old(db.permissions), NewPairings(old(db.menuPermissions), menuId, permissionIds)) ==>
        r == Threw(DbUpdateException) && db.Snapshot() == old(db.Snapshot())
      ensures FirstIndex(old(db.menus), MenuKeyed(menuId)).Some?
              && PairingsSaved(old(db.permissions), NewPairings(old(db.menuPermissions), menuId, permissionIds)) ==>
        && r == Returned(())
        && db.Snapshot() == old(db.Snapshot()).(menuPermissions := db.menuPermissions)
        && AppendsPairings(old(db.Snapshot()), db.menuPermissions, menuId,
                           NewPairings(old(db.menuPermissions), menuId, permissionIds))
    {
      var menu := FirstIndex(db.menus, MenuKeyed(menuId));
      if menu.None? {
        return Threw(ArgumentException("Menu not found."));
      }
      var n := |db.menuPermissions|;
      var pairings := NewPairings(db.menuPermissions, menuId, permissionIds);
      AddPairings(menuId, permissionIds);
      if !PairingsSaved(db.permissions, pairings) {
        db.TruncateMenuPermissions(n);
        return Threw(DbUpdateException);
      }
      r := Returned(());
    }

    /** The loop of AssignPermissionToMenuAsync: appends exactly the new
        pairings, each under a fresh key. */
    method AddPairings(menuId: Guid, permissionIds: seq<Guid>)
      requires db.Valid()
      modifies db
      ensures db.Valid()
      ensures db.Snapshot() == old(db.Snapshot()).(menuPermissions := db.menuPermissions)
      ensures AppendsPairings(old(db.Snapshot()), db.menuPermissions, menuId,
                              NewPairings(old(db.menuPermissions), menuId, permissionIds))
    {
      ghost var t := db.Snapshot();
      ghost var added := PairLoop(menuId, permissionIds);
      AppendedPairingsAreFresh(t, old(db.nextGuid), added, menuId, NewPairings(t.menuPermissions, menuId, permissionIds));
    }

    /** The iterations themselves. Each existence test reads `committed`,
        the table as saved before the loop; the rows the loop adds are
        saved together after it. */
    method PairLoop(menuId: Guid, permissionIds: seq<Guid>) returns (ghost added: seq<MenuPermission>)
      requires db.Valid()
      modifies db
      ensures db.Valid()
      ensures db.Snapshot() == old(db.Snapshot()).(menuPermissions := old(db.menuPermissions) + added)
      ensures PairRows(added, menuId, NewPairings(old(db.menuPermissions), menuId, permissionIds), old(db.nextGuid))
    {
      ghost var t := db.Snapshot();
      var committed := db.menuPermissions;
      var i := 0;
      added := [];
      while i < |permissionIds|
        invariant 0 <= i <= |permissionIds|
        invariant db.Valid() && old(db.nextGuid) <= db.nextGuid
        invariant db.Snapshot() == t.(menuPermissions := committed + added)
        invariant PairRows(added, menuId, NewPairings(committed, menuId, permissionIds[..i]), old(db.nextGuid))
      {
        added := PairStep(menuId, permissionIds, i, committed, t, added, old(db.nextGuid));
        i := i + 1;
      }
      assert permissionIds[..i] == permissionIds;
    }

    /** One iteration: the pairing for `permissionIds[i]` is added when the
        saved table does not link it yet. */
    method PairStep(menuId: Guid, permissionIds: seq<Guid>, i: nat, committed: seq<MenuPermission>,
                    ghost t: Tables, ghost added: seq<MenuPermission>, ghost bound: Guid)
      returns (ghost added': seq<MenuPermission>)
      requires i < |permissionIds| && db.Valid() && bound <= db.nextGuid
      requires db.Snapshot() == t.(menuPermissions := committed + added)
      requires PairRows(added, menuId, NewPairings(committed, menuId, permissionIds[..i]), bound)
      modifies db
      ensures db.Valid() && old(db.nextGuid) <= db.nextGuid
      ensures db.Snapshot() == t.(menuPermissions := committed + added')
      ensures PairRows(added', menuId, NewPairings(committed, menuId, permissionIds[..i + 1]), bound)
    {
      NewPairingsSnoc(committed, menuId, permissionIds, i);
      added' := added;
      if FirstIndex(committed, PairOf(menuId, permissionIds[i])).None? {
        var row := AddPairing(menuId, permissionIds[i], t, committed, added,
                              NewPairings(committed, menuId, permissionIds[..i]), bound);
        added' := added + [row];
      }
    }

    /** One iteration that adds a row: a MenuPermissions row linking
        `permissionId` to `menuId` under a fresh key. */
    method AddPairing(menuId: Guid, permissionId: Guid, ghost t: Tables, ghost committed: seq<MenuPermission>,
                      ghost added: seq<MenuPermission>, ghost targets: seq<Guid>, ghost bound: Guid)
      returns (row: MenuPermission)
      requires db.Valid() && bound <= db.nextGuid
      requires db.Snapshot() == t.(menuPermissions := committed + added)
      requires PairRows(added, menuId, targets, bound)
      modifies db
      ensures db.Valid() && old(db.nextGuid) <= db.nextGuid
      ensures db.Snapshot() == t.(menuPermissions := committed + (added + [row]))
      ensures PairRows(added + [row], menuId, targets + [permissionId], bound)
    {
      var id := db.NewGuid();
      row := MenuPermission(id, menuId, permissionId);
      db.InsertMenuPermission(row);
      assert committed + added + [row] == committed + (added + [row]);
      assert forall k :: 0 <= k < |added| ==> (added + [row])[k] == added[k];
    }
  }
}
