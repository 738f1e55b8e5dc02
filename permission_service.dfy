/** The two permission queries that feed authorisation: the permission
    identifiers a user's roles grant through menus, and the (url, method)
    pairs they grant through APIs. Both are a three-table join restricted
    to one user, grouped, ordered and filtered; here the tables are
    sequences of rows and each join is a nested recursion over them. */
module PermissionService {
  import opened Common
  import opened StringOrder

  datatype MenuType = Catalog | Menu | Button

  datatype UserRole = UserRole(userId: int, roleId: int)
  datatype RoleMenu = RoleMenu(roleId: int, menuId: int)
  datatype MenuRow = MenuRow(id: int, menuType: MenuType, permission: Option<string>)
  datatype RoleApi = RoleApi(roleId: int, apisId: int)
  datatype ApiRow = ApiRow(id: int, url: string, httpMethod: string)

  /** `UrlAccessControlVo`. */
  datatype UrlAccessControl = UrlAccessControl(url: string, httpMethod: string)

  // ---------------------------------------------------------------------
  // Identifiers granted through menus
  // ---------------------------------------------------------------------

  /** A user reaches identifier `p`: a role of theirs is linked to a menu
      that is not a catalog entry and carries `p`. */
  ghost predicate GrantsPermission(userId: int, p: string, userRoles: seq<UserRole>,
                                   roleMenus: seq<RoleMenu>, menus: seq<MenuRow>)
  {
    exists ur, rm, m :: ur in userRoles && rm in roleMenus && m in menus
      && ur.userId == userId && ur.roleId == rm.roleId && rm.menuId == m.id
      && m.menuType != Catalog && m.permission == Some(p)
  }

  /** The identifiers of the non-catalog menus with id `menuId`. */
  function MenuPermissions(menuId: int, menus: seq<MenuRow>): (r: seq<string>)
    ensures forall p :: p in r <==>
      exists m :: m in menus && m.id == menuId && m.menuType != Catalog && m.permission == Some(p)
  {
    if menus == [] then []
    else
      var m := menus[0];
      var rest := MenuPermissions(menuId, menus[1..]);
      assert forall x :: x in menus <==> x == m || x in menus[1..];
      if m.id == menuId && m.menuType != Catalog && m.permission.Some? then [m.permission.value] + rest
      else rest
  }

  /** The identifiers reached from role `roleId` through its menu links. */
  function RolePermissions(roleId: int, roleMenus: seq<RoleMenu>, menus: seq<MenuRow>): (r: seq<string>)
    ensures forall p :: p in r <==>
      exists rm :: rm in roleMenus && rm.roleId == roleId && p in MenuPermissions(rm.menuId, menus)
  {
    if roleMenus == [] then []
    else
      var rm := roleMenus[0];
      var rest := RolePermissions(roleId, roleMenus[1..], menus);
      assert forall x :: x in roleMenus <==> x == rm || x in roleMenus[1..];
      if rm.roleId == roleId then MenuPermissions(rm.menuId, menus) + rest else rest
  }

  /** The joined rows of the first query, one identifier per (role link,
      menu link, menu) triple, duplicates included. */
  function JoinedPermissions(userId: int, userRoles: seq<UserRole>, roleMenus: seq<RoleMenu>,
                             menus: seq<MenuRow>): (r: seq<string>)
    ensures forall p :: p in r <==> GrantsPermission(userId, p, userRoles, roleMenus, menus)
  {
    if userRoles == [] then []
    else
      var ur := userRoles[0];
      var rest := JoinedPermissions(userId, userRoles[1..], roleMenus, menus);
      assert forall x :: x in userRoles <==> x == ur || x in userRoles[1..];
      var r := if ur.userId == userId then RolePermissions(ur.roleId, roleMenus, menus) + rest else rest;
      assert forall p :: GrantsPermission(userId, p, userRoles, roleMenus, menus) ==> p in r by {
        forall p | GrantsPermission(userId, p, userRoles, roleMenus, menus) ensures p in r {
          var u, rm, m :| u in userRoles && rm in roleMenus && m in menus
            && u.userId == userId && u.roleId == rm.roleId && rm.menuId == m.id
            && m.menuType != Catalog && m.permission == Some(p);
          if u != ur {
            assert GrantsPermission(userId, p, userRoles[1..], roleMenus, menus);
          } else {
            assert p in MenuPermissions(rm.menuId, menus);
          }
        }
      }
      r
  }

  /** Keeps the strings that are not empty, in order. */
  function NonEmpty(s: seq<string>): (r: seq<string>)
    ensures forall x :: x in r <==> x in s && x != ""
    ensures Ascending(s) ==> Ascending(r)
  {
    if s == [] then []
    else
      var rest := NonEmpty(s[1..]);
      assert forall x :: x in s <==> x == s[0] || x in s[1..];
      if s[0] == "" then rest
      else
        var r := [s[0]] + rest;
        assert Ascending(s) ==> Ascending(r) by {
          if Ascending(s) {
            assert Ascending(s[1..]);
            forall i, j | 0 <= i < j < |r| ensures Less(r[i], r[j]) {
              if i == 0 {
                assert r[j] in s[1..];
              }
            }
          }
        }
        r
  }

  /** `GetPermissionIdentifierAsync`: grouped by identifier, ordered by it,
      and with empty strings dropped afterwards. */
  function PermissionIdentifiers(userId: int, userRoles: seq<UserRole>, roleMenus: seq<RoleMenu>,
                                 menus: seq<MenuRow>): (r: seq<string>)
    ensures forall p :: p in r <==> p != "" && GrantsPermission(userId, p, userRoles, roleMenus, menus)
    ensures Ascending(r)
    ensures Distinct(r)
  {
    var grouped := SortDistinctBy(JoinedPermissions(userId, userRoles, roleMenus, menus), (x: string) => x);
    SortedDistinctIsAscending(grouped);
    var r := NonEmpty(grouped);
    forall i, j | 0 <= i < j < |r| ensures r[i] != r[j] {
      LessIrreflexive(r[i]);
    }
    r
  }

  /** A menu that is a catalog entry grants nothing, whatever it carries. */
  lemma {:induction false} CatalogMenusGrantNothing(menuId: int, menus: seq<MenuRow>, p: string)
    requires forall m :: m in menus && m.id == menuId ==> m.menuType == Catalog
    ensures p !in MenuPermissions(menuId, menus)
  {
  }

  /** Only the user's own role links matter: the rows of other users can
      be removed without changing the answer. */
  lemma OtherUsersIrrelevant(userId: int, userRoles: seq<UserRole>, other: UserRole,
                             roleMenus: seq<RoleMenu>, menus: seq<MenuRow>)
    requires other.userId != userId
    ensures PermissionIdentifiers(userId, userRoles + [other], roleMenus, menus)
         == PermissionIdentifiers(userId, userRoles, roleMenus, menus)
  {
    var a := PermissionIdentifiers(userId, userRoles + [other], roleMenus, menus);
    var b := PermissionIdentifiers(userId, userRoles, roleMenus, menus);
    forall p ensures p in a <==> p in b {
      if GrantsPermission(userId, p, userRoles + [other], roleMenus, menus) {
        var u, rm, m :| u in userRoles + [other] && rm in roleMenus && m in menus
          && u.userId == userId && u.roleId == rm.roleId && rm.menuId == m.id
          && m.menuType != Catalog && m.permission == Some(p);
        assert u in userRoles;
      }
      if GrantsPermission(userId, p, userRoles, roleMenus, menus) {
        var u, rm, m :| u in userRoles && rm in roleMenus && m in menus
          && u.userId == userId && u.roleId == rm.roleId && rm.menuId == m.id
          && m.menuType != Catalog && m.permission == Some(p);
        assert u in userRoles + [other];
      }
    }
    AscendingUnique(a, b);
  }

  /** Two strictly ascending lists with the same elements are equal. */
  lemma {:induction false} AscendingUnique(a: seq<string>, b: seq<string>)
    requires Ascending(a) && Ascending(b)
    requires forall x :: x in a <==> x in b
    ensures a == b
    decreases |a| + |b|
  {
    SameMembersSameEmptiness(a, b);
    if a != [] && b != [] {
      if a[0] != b[0] {
        assert a[0] in b && b[0] in a;
        var i :| 0 <= i < |b| && b[i] == a[0];
        var j :| 0 <= j < |a| && a[j] == b[0];
        assert i > 0 && j > 0;
        assert Less(b[0], a[0]) && Less(a[0], b[0]);
        LessAsymmetric(b[0], a[0]);
      } else {
        forall x ensures x in a[1..] <==> x in b[1..] {
          AscendingHeadNotInTail(a);
          AscendingHeadNotInTail(b);
          assert x in a <==> x == a[0] || x in a[1..];
          assert x in b <==> x == b[0] || x in b[1..];
        }
        AscendingUnique(a[1..], b[1..]);
        assert a == [a[0]] + a[1..] && b == [b[0]] + b[1..];
      }
    }
  }

  lemma SameMembersSameEmptiness<T>(a: seq<T>, b: seq<T>)
    requires forall x :: x in a <==> x in b
    ensures a == [] <==> b == []
  {
    if a != [] {
      assert a[0] in b;
    }
    if b != [] {
      assert b[0] in a;
    }
  }

  lemma AscendingHeadNotInTail(s: seq<string>)
    requires Ascending(s) && s != []
    ensures s[0] !in s[1..]
  {
    if s[0] in s[1..] {
      var k :| 0 <= k < |s[1..]| && s[1..][k] == s[0];
      assert Less(s[0], s[k + 1]);
      LessIrreflexive(s[0]);
    }
  }

  // ---------------------------------------------------------------------
  // URLs granted through APIs
  // ---------------------------------------------------------------------

  /** A user reaches the (url, method) pair `e`: a role of theirs is linked
      to an API with that url and method. */
  ghost predicate GrantsUrl(userId: int, e: UrlAccessControl, userRoles: seq<UserRole>,
                            roleApis: seq<RoleApi>, apis: seq<ApiRow>)
  {
    exists ur, ra, a :: ur in userRoles && ra in roleApis && a in apis
      && ur.userId == userId && ur.roleId == ra.roleId && ra.apisId == a.id
      && e == UrlAccessControl(a.url, a.httpMethod)
  }

  function ApiEntries(apisId: int, apis: seq<ApiRow>): (r: seq<UrlAccessControl>)
    ensures forall e :: e in r <==> exists a :: a in apis && a.id == apisId && e == UrlAccessControl(a.url, a.httpMethod)
  {
    if apis == [] then []
    else
      var rest := ApiEntries(apisId, apis[1..]);
      assert forall x :: x in apis <==> x == apis[0] || x in apis[1..];
      if apis[0].id == apisId then [UrlAccessControl(apis[0].url, apis[0].httpMethod)] + rest else rest
  }

  function RoleEntries(roleId: int, roleApis: seq<RoleApi>, apis: seq<ApiRow>): (r: seq<UrlAccessControl>)
    ensures forall e :: e in r <==>
      exists ra :: ra in roleApis && ra.roleId == roleId && e in ApiEntries(ra.apisId, apis)
  {
    if roleApis == [] then []
    else
      var ra := roleApis[0];
      var rest := RoleEntries(roleId, roleApis[1..], apis);
      assert forall x :: x in roleApis <==> x == ra || x in roleApis[1..];
      if ra.roleId == roleId then ApiEntries(ra.apisId, apis) + rest else rest
  }

  /** The joined rows of the second query, duplicates included. */
  function JoinedEntries(userId: int, userRoles: seq<UserRole>, roleApis: seq<RoleApi>,
                         apis: seq<ApiRow>): (r: seq<UrlAccessControl>)
    ensures forall e :: e in r <==> GrantsUrl(userId, e, userRoles, roleApis, apis)
  {
    if userRoles == [] then []
    else
      var ur := userRoles[0];
      var rest := JoinedEntries(userId, userRoles[1..], roleApis, apis);
      assert forall x :: x in userRoles <==> x == ur || x in userRoles[1..];
      var r := if ur.userId == userId then RoleEntries(ur.roleId, roleApis, apis) + rest else rest;
      assert forall e :: GrantsUrl(userId, e, userRoles, roleApis, apis) ==> e in r by {
        forall e | GrantsUrl(userId, e, userRoles, roleApis, apis) ensures e in r {
          var u, ra, a :| u in userRoles && ra in roleApis && a in apis
            && u.userId == userId && u.roleId == ra.roleId && ra.apisId == a.id
            && e == UrlAccessControl(a.url, a.httpMethod);
          if u != ur {
            assert GrantsUrl(userId, e, userRoles[1..], roleApis, apis);
          } else {
            assert e in ApiEntries(ra.apisId, apis);
          }
        }
      }
      r
  }

  /** `GetUrlAccessControlAsync`: grouped by (url, method) and ordered by
      url alone. The final null filter removes nothing, since every entry
      is a freshly built value. */
  function UrlAccessControls(userId: int, userRoles: seq<UserRole>, roleApis: seq<RoleApi>,
                             apis: seq<ApiRow>): (r: seq<UrlAccessControl>)
    ensures forall e :: e in r <==> GrantsUrl(userId, e, userRoles, roleApis, apis)
    ensures Distinct(r)
    ensures forall i, j :: 0 <= i < j < |r| ==> !Less(r[j].url, r[i].url)
  {
    var key := (e: UrlAccessControl) => e.url;
    var r := SortDistinctBy(JoinedEntries(userId, userRoles, roleApis, apis), key);
    assert forall i, j :: 0 <= i < j < |r| ==> !Less(key(r[j]), key(r[i]));
    r
  }
}
