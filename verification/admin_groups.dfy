/** The project admin tool's permission and group screens
    (`Allura/allura/ext/admin/admin_main.py`): the trove-category limits,
    the permission index and the per-role permission table, and the edits
    to the ACL and to group membership together with the guards meant to
    keep the Admin group in charge. */
module AdminGroups {
  import opened Wrappers
  import opened RepoDocs
  import opened ProjectMounts
  import Text

  /** What a JSON or redirecting handler answers: a new state, an error
      message returned to the page, or an exception. */
  datatype Reply<+T> = Done(value: T) | Refused(message: string) | Raises(exception: string)

  // ---------------------------------------------------------------------
  // _add_trove

  /** How many categories of one kind a project may have, if limited. */
  function TroveLimit(kind: string): Option<nat> {
    if kind in ["license", "audience", "developmentstatus", "language"] then Some(6)
    else if kind == "topic" then Some(3)
    else None
  }

  /** `_add_trove`: the project's categories of this kind afterwards and
      the error message, if any. `trove` is the category the submitted id
      names, if there is one. */
  function AddTrove(kind: string, current: seq<Id>, trove: Option<Id>): (r: (seq<Id>, Option<string>))
    ensures r.1.Some? ==> r.0 == current
    ensures r.1.None? <==>
      ((TroveLimit(kind).None? || |current| < TroveLimit(kind).value) && (trove.None? || trove.value !in current))
    ensures r.0 != current ==> trove.Some? && r.0 == current + [trove.value]
    ensures r.1.None? && trove.Some? ==> trove.value in r.0
  {
    var limit := TroveLimit(kind);
    if limit.Some? && |current| >= limit.value then
      (current, Some("You may not have more than " + (if limit.value == 6 then "6" else "3") + " of this category."))
    else if trove.None? then (current, None)
    else if trove.value !in current then (current + [trove.value], None)
    else (current, Some("This category has already been assigned to the project."))
  }

  /** A project that keeps to the limit stays within it, and a category is
      never listed twice. */
  lemma AddTroveKeeps(kind: string, current: seq<Id>, trove: Option<Id>)
    requires TroveLimit(kind).Some? ==> |current| <= TroveLimit(kind).value
    requires forall i, j | 0 <= i < j < |current| :: current[i] != current[j]
    ensures var r := AddTrove(kind, current, trove).0;
      && (TroveLimit(kind).Some? ==> |r| <= TroveLimit(kind).value)
      && (forall i, j | 0 <= i < j < |r| :: r[i] != r[j])
  {
    var r := AddTrove(kind, current, trove).0;
    if r != current {
      forall i, j | 0 <= i < j < |r| ensures r[i] != r[j] {
        if j == |current| {
          assert r[i] == current[i];
        }
      }
    }
  }

  // ---------------------------------------------------------------------
  // _index_permissions

  /** A permission table: each permission with its role ids. A key keeps
      the position it was first inserted at. */
  type Table = seq<(string, seq<Id>)>

  function Lookup(t: Table, k: string): Option<seq<Id>> {
    if |t| == 0 then None else if t[0].0 == k then Some(t[0].1) else Lookup(t[1..], k)
  }

  /** `table[k] = v`. */
  function Put(t: Table, k: string, v: seq<Id>): (r: Table)
    ensures forall j :: Lookup(r, j) == if j == k then Some(v) else Lookup(t, j)
    ensures DistinctKeys(t) ==> DistinctKeys(r)
  {
    if |t| == 0 then [(k, v)]
    else if t[0].0 == k then
      assert ([(k, v)] + t[1..])[1..] == t[1..];
      [(k, v)] + t[1..]
    else
      var rest := Put(t[1..], k, v);
      assert ([t[0]] + rest)[1..] == rest;
      assert DistinctKeys(t) ==> forall i | 0 <= i < |rest| :: rest[i].0 != t[0].0 by {
        if DistinctKeys(t) {
          forall i | 0 <= i < |rest| ensures rest[i].0 != t[0].0 {
            KeyFound(rest, i);
            if rest[i].0 != k {
              KeyIndex(t[1..], rest[i].0);
              var j :| 0 <= j < |t[1..]| && t[1..][j].0 == rest[i].0;
              assert t[j + 1].0 == rest[i].0;
            }
          }
        }
      }
      [t[0]] + rest
  }

  predicate DistinctKeys(t: Table) {
    forall i, j | 0 <= i < j < |t| :: t[i].0 != t[j].0
  }

  lemma {:induction false} KeyFound(t: Table, i: int)
    requires 0 <= i < |t|
    ensures Lookup(t, t[i].0).Some?
    ensures DistinctKeys(t) ==> Lookup(t, t[i].0) == Some(t[i].1)
  {
    if i > 0 && t[0].0 != t[i].0 {
      KeyFound(t[1..], i - 1);
    }
  }

  lemma {:induction false} KeyIndex(t: Table, k: string)
    requires Lookup(t, k).Some?
    ensures exists i | 0 <= i < |t| :: t[i] == (k, Lookup(t, k).value)
  {
    if t[0].0 != k {
      KeyIndex(t[1..], k);
      var i :| 0 <= i < |t[1..]| && t[1..][i] == (k, Lookup(t, k).value);
      assert t[i + 1] == t[1..][i];
    }
  }

  /** `dict((p, []) for p in project.permissions)`. */
  function Fresh(perms: seq<string>): (r: Table)
    ensures forall k :: Lookup(r, k) == if k in perms then Some([]) else None
    ensures DistinctKeys(r)
  {
    if |perms| == 0 then []
    else
      var init := perms[..|perms| - 1];
      assert forall k :: k in perms <==> k in init || k == perms[|perms| - 1];
      Put(Fresh(init), perms[|perms| - 1], [])
  }

  /** The role ids the ACL allows permission `k`, in ACL order. */
  function Granted(acl: seq<Ace>, k: string): seq<Id> {
    if |acl| == 0 then []
    else
      var a := acl[|acl| - 1];
      Granted(acl[..|acl| - 1], k) + (if a.access == Allow && a.permission == k then [a.roleId] else [])
  }

  lemma {:induction false} GrantedMember(acl: seq<Ace>, k: string, rid: Id)
    ensures rid in Granted(acl, k) <==> Ace(Allow, rid, k) in acl
  {
    if |acl| > 0 {
      var init := acl[..|acl| - 1];
      GrantedMember(init, k, rid);
      assert acl == init + [acl[|acl| - 1]];
    }
  }

  /** `_index_permissions`: every permission of the project with the role
      ids its allow entries name; an allow entry for a permission the
      project does not declare raises `KeyError`. */
  function IndexPermissions(perms: seq<string>, acl: seq<Ace>): (r: Result<Table>)
    ensures r.Ok? <==> forall a | a in acl :: a.access == Allow ==> a.permission in perms
    ensures r.Ok? ==> DistinctKeys(r.value)
    ensures r.Ok? ==> forall k :: Lookup(r.value, k) == if k in perms then Some(Granted(acl, k)) else None
    ensures r.Err? ==> exists i | 0 <= i < |acl| ::
      && acl[i].access == Allow && acl[i].permission !in perms
      && r.reason == "KeyError: " + acl[i].permission
  {
    if |acl| == 0 then Ok(Fresh(perms))
    else
      var a := acl[|acl| - 1];
      var init := acl[..|acl| - 1];
      assert forall x :: x in acl <==> x in init || x == a;
      match IndexPermissions(perms, init)
      case Err(e) =>
        assert forall i | 0 <= i < |init| :: init[i] == acl[i];
        Err(e)
      case Ok(t) =>
        assert forall k :: Granted(acl, k) == Granted(init, k) + (if a.access == Allow && a.permission == k then [a.roleId] else []);
        if a.access != Allow then
          assert forall k :: Granted(acl, k) == Granted(init, k) by {
            forall k ensures Granted(acl, k) == Granted(init, k) {
              assert Granted(init, k) + [] == Granted(init, k);
            }
          }
          Ok(t)
        else match Lookup(t, a.permission)
          case None => Err("KeyError: " + a.permission)
          case Some(v) =>
            assert a.permission in perms && v == Granted(init, a.permission);
            var t' := Put(t, a.permission, v + [a.roleId]);
            assert forall k :: Lookup(t', k) == if k in perms then Some(Granted(acl, k)) else None by {
              forall k ensures Lookup(t', k) == if k in perms then Some(Granted(acl, k)) else None {
                if k != a.permission {
                  assert Granted(acl, k) == Granted(init, k) + [];
                  assert Granted(init, k) + [] == Granted(init, k);
                }
              }
            }
            Ok(t')
  }

  // ---------------------------------------------------------------------
  // _map_group_permissions

  /** A role as `child_roles()` lists it. */
  datatype Named = Named(id: Id, name: string)

  /** A row of the groups page: the role and the roles it includes. */
  datatype Role = Role(id: Id, name: string, children: seq<Named>)

  datatype Has = Yes | Inherit(from: string) | No

  /** One cell of the table: the permission and whether the role has it. */
  datatype PermInfo = PermInfo(name: string, has: Has)

  /** The first child role among the granted ones. */
  function FirstGranted(cs: seq<Named>, ids: seq<Id>): (r: Option<Named>)
    ensures r.None? <==> forall c | c in cs :: c.id !in ids
    ensures r.Some? ==> exists k | 0 <= k < |cs| ::
      cs[k] == r.value && r.value.id in ids && forall j | 0 <= j < k :: cs[j].id !in ids
  {
    if |cs| == 0 then None
    else if cs[0].id in ids then Some(cs[0])
    else
      var r := FirstGranted(cs[1..], ids);
      assert forall c :: c in cs <==> c == cs[0] || c in cs[1..];
      assert r.Some? ==> exists k | 0 <= k < |cs| ::
        cs[k] == r.value && r.value.id in ids && forall j | 0 <= j < k :: cs[j].id !in ids by {
        if r.Some? {
          var k :| 0 <= k < |cs[1..]| && cs[1..][k] == r.value && r.value.id in ids && forall j | 0 <= j < k :: cs[1..][j].id !in ids;
          assert cs[k + 1] == r.value;
        }
      }
      r
  }

  /** Whether `role` has the permission granted to `ids`, and through
      which role: its own grant first, then the first child role's, then
      the anonymous role's, then the authenticated role's, the last not
      counting for the anonymous role itself. */
  function PermissionFor(role: Role, ids: seq<Id>, auth: Id, anon: Id): (r: Has)
    ensures r == Yes <==> role.id in ids
    ensures r != No <==>
      (|| role.id in ids
       || (exists c | c in role.children :: c.id in ids)
       || anon in ids
       || (auth in ids && role.id != anon))
    ensures r.Inherit? && (exists c | c in role.children :: c.id in ids) ==>
      exists c | c in role.children :: c.id in ids && r.from == c.name
    ensures (r.Inherit? && forall c | c in role.children :: c.id !in ids) ==>
      r.from == (if anon in ids then "Anonymous" else "Authenticated")
  {
    if role.id in ids then Yes
    else match FirstGranted(role.children, ids)
      case Some(c) => Inherit(c.name)
      case None =>
        if anon in ids then Inherit("Anonymous")
        else if auth in ids && role.id != anon then Inherit("Authenticated")
        else No
  }

  /** One role's row of cells, in table order. */
  function RowFor(role: Role, t: Table, auth: Id, anon: Id): (r: seq<PermInfo>)
    ensures |r| == |t|
    ensures forall p | 0 <= p < |t| :: r[p].name == t[p].0 && r[p].has == PermissionFor(role, t[p].1, auth, anon)
  {
    seq(|t|, p requires 0 <= p < |t| => PermInfo(t[p].0, PermissionFor(role, t[p].1, auth, anon)))
  }

  /** The rows of `roles`, a later role with the same id replacing an
      earlier one. */
  function Rows(roles: seq<Role>, t: Table, auth: Id, anon: Id): (r: map<Id, seq<PermInfo>>)
    ensures forall k :: k in r <==> exists x | x in roles :: x.id == k
    ensures forall i | 0 <= i < |roles| && LastWithId(roles, i) :: r[roles[i].id] == RowFor(roles[i], t, auth, anon)
  {
    if |roles| == 0 then map[]
    else
      var init := roles[..|roles| - 1];
      var last := roles[|roles| - 1];
      assert forall x :: x in roles <==> x in init || x == last;
      LastWithIdInit(roles);
      Rows(init, t, auth, anon)[last.id := RowFor(last, t, auth, anon)]
  }

  /** No later role shares the id of role `i`. */
  predicate LastWithId(roles: seq<Role>, i: int)
    requires 0 <= i < |roles|
  {
    forall j | i < j < |roles| :: roles[j].id != roles[i].id
  }

  lemma LastWithIdInit(roles: seq<Role>)
    requires |roles| > 0
    ensures forall i | 0 <= i < |roles| - 1 && LastWithId(roles, i) ::
      LastWithId(roles[..|roles| - 1], i) && roles[i].id != roles[|roles| - 1].id
  {
  }

  /** `_map_group_permissions`: the table for the named roles followed by
      the authenticated and the anonymous role. */
  function MapGroupPermissions(roles: seq<Role>, auth: Role, anon: Role, t: Table): (r: map<Id, seq<PermInfo>>)
    ensures forall k :: k in r <==> k == auth.id || k == anon.id || exists x | x in roles :: x.id == k
    ensures anon.id in r && r[anon.id] == RowFor(anon, t, auth.id, anon.id)
  {
    var all := roles + [auth, anon];
    assert forall x :: x in all <==> x in roles || x == auth || x == anon;
    assert all[|all| - 1] == anon;
    Rows(all, t, auth.id, anon.id)
  }

  /** The anonymous role inherits nothing from the authenticated role: a
      permission granted to authenticated users only reads "no" on its row. */
  lemma AnonymousNotAuthenticated(anon: Role, ids: seq<Id>, auth: Id)
    requires anon.id !in ids && auth in ids
    requires forall c | c in anon.children :: c.id !in ids
    ensures PermissionFor(anon, ids, auth, anon.id) == No
    ensures forall role: Role | role.id != anon.id :: PermissionFor(role, ids, auth, anon.id) != No
  {
  }

  // ---------------------------------------------------------------------
  // PermissionsController.update

  /** One row of the permissions form: the permission, the role ids left
      checked and the role ids added. */
  datatype Card = Card(perm: string, ids: seq<Id>, newIds: seq<Id>)

  /** The role ids a row sets, with the Admin group put back into `admin`. */
  function CardIds(c: Card, adminGroup: Id): (r: seq<Id>)
    ensures c.perm == "admin" ==> adminGroup in r
    ensures forall x :: x in r <==> x in c.ids || x in c.newIds || (c.perm == "admin" && x == adminGroup)
  {
    if c.perm == "admin" && adminGroup !in c.ids + c.newIds then c.ids + [adminGroup] + c.newIds
    else c.ids + c.newIds
  }

  /** The table after the form's rows, in order. */
  function ApplyCards(t: Table, card: seq<Card>, adminGroup: Id): (r: Table)
    ensures DistinctKeys(t) ==> DistinctKeys(r)
    ensures forall k | (forall c | c in card :: c.perm != k) :: Lookup(r, k) == Lookup(t, k)
    ensures forall i | 0 <= i < |card| && LastCard(card, i) :: Lookup(r, card[i].perm) == Some(CardIds(card[i], adminGroup))
  {
    if |card| == 0 then t
    else
      var init := card[..|card| - 1];
      var c := card[|card| - 1];
      assert forall x :: x in card <==> x in init || x == c;
      LastCardInit(card);
      Put(ApplyCards(t, init, adminGroup), c.perm, CardIds(c, adminGroup))
  }

  /** No later row names the permission of row `i`. */
  predicate LastCard(card: seq<Card>, i: int)
    requires 0 <= i < |card|
  {
    forall j | i < j < |card| :: card[j].perm != card[i].perm
  }

  lemma LastCardInit(card: seq<Card>)
    requires |card| > 0
    ensures forall i | 0 <= i < |card| - 1 && LastCard(card, i) ::
      LastCard(card[..|card| - 1], i) && card[i].perm != card[|card| - 1].perm
  {
  }

  /** Whether some row of the table names the entry's permission and role. */
  predicate Grants(t: Table, a: Ace) {
    a.access == Allow && exists i | 0 <= i < |t| :: t[i].0 == a.permission && a.roleId in t[i].1
  }

  lemma GrantsCons(t: Table, a: Ace)
    requires |t| > 0
    ensures Grants(t, a) <==> (a.access == Allow && a.permission == t[0].0 && a.roleId in t[0].1) || Grants(t[1..], a)
  {
    if Grants(t, a) {
      var i :| 0 <= i < |t| && t[i].0 == a.permission && a.roleId in t[i].1;
      if i > 0 {
        assert t[1..][i - 1] == t[i];
      }
    }
    if Grants(t[1..], a) {
      var i :| 0 <= i < |t[1..]| && t[1..][i].0 == a.permission && a.roleId in t[1..][i].1;
      assert t[i + 1] == t[1..][i];
    }
  }

  /** The ACL rebuilt from a table: an allow entry per permission and role id. */
  function AclOf(t: Table): (r: seq<Ace>)
    ensures forall a :: a in r <==> Grants(t, a)
  {
    if |t| == 0 then []
    else
      var (p, ids) := t[0];
      var head := seq(|ids|, i requires 0 <= i < |ids| => Ace(Allow, ids[i], p));
      assert forall a: Ace :: a in head <==> a.access == Allow && a.permission == p && a.roleId in ids by {
        forall a: Ace ensures a in head <==> a.access == Allow && a.permission == p && a.roleId in ids {
          if a.access == Allow && a.permission == p && a.roleId in ids {
            var i :| 0 <= i < |ids| && ids[i] == a.roleId;
            assert head[i] == a;
          }
        }
      }
      assert forall a: Ace :: Grants(t, a) <==> (a.access == Allow && a.permission == p && a.roleId in ids) || Grants(t[1..], a) by {
        forall a: Ace ensures Grants(t, a) <==> (a.access == Allow && a.permission == p && a.roleId in ids) || Grants(t[1..], a) {
          GrantsCons(t, a);
        }
      }
      head + AclOf(t[1..])
  }

  /** With distinct keys the ACL grants exactly what the table's lookup says. */
  lemma AclOfLookup(t: Table, rid: Id, p: string)
    requires DistinctKeys(t)
    ensures Ace(Allow, rid, p) in AclOf(t) <==> Lookup(t, p).Some? && rid in Lookup(t, p).value
  {
    if Ace(Allow, rid, p) in AclOf(t) {
      var i :| 0 <= i < |t| && t[i].0 == p && rid in t[i].1;
      KeyFound(t, i);
    }
    if Lookup(t, p).Some? {
      KeyIndex(t, p);
    }
  }

  /** `PermissionsController.update`: the ACL rebuilt from the indexed
      permissions with the form's rows applied; deny entries are dropped. */
  function PermissionsUpdate(perms: seq<string>, acl: seq<Ace>, card: seq<Card>, adminGroup: Id): (r: Result<seq<Ace>>)
    ensures r.Ok? <==> forall a | a in acl :: a.access == Allow ==> a.permission in perms
    ensures r.Ok? ==> forall a | a in r.value :: a.access == Allow
  {
    match IndexPermissions(perms, acl)
    case Err(e) => Err(e)
    case Ok(t) => Ok(AclOf(ApplyCards(t, card, adminGroup)))
  }

  /** A form that submits the `admin` row always leaves the Admin group
      holding `admin`. */
  lemma PermissionsUpdateKeepsAdmin(perms: seq<string>, acl: seq<Ace>, card: seq<Card>, adminGroup: Id)
    requires PermissionsUpdate(perms, acl, card, adminGroup).Ok?
    requires exists c | c in card :: c.perm == "admin"
    ensures Ace(Allow, adminGroup, "admin") in PermissionsUpdate(perms, acl, card, adminGroup).value
  {
    var t := IndexPermissions(perms, acl).value;
    LastAdmin(card);
    var i :| 0 <= i < |card| && card[i].perm == "admin" && LastCard(card, i);
    var u := ApplyCards(t, card, adminGroup);
    AclOfLookup(u, adminGroup, "admin");
  }

  lemma LastAdmin(card: seq<Card>)
    requires exists c | c in card :: c.perm == "admin"
    ensures exists i | 0 <= i < |card| :: card[i].perm == "admin" && LastCard(card, i)
  {
    var i :| 0 <= i < |card| && card[i].perm == "admin";
    while exists j | i < j < |card| :: card[j].perm == "admin"
      invariant 0 <= i < |card| && card[i].perm == "admin"
      decreases |card| - i
    {
      var j :| i < j < |card| && card[j].perm == "admin";
      i := j;
    }
  }

  /** A permission the form does not mention keeps exactly the roles the
      old ACL allowed. */
  lemma PermissionsUpdateFrame(perms: seq<string>, acl: seq<Ace>, card: seq<Card>, adminGroup: Id, p: string, rid: Id)
    requires PermissionsUpdate(perms, acl, card, adminGroup).Ok?
    requires p in perms && forall c | c in card :: c.perm != p
    ensures Ace(Allow, rid, p) in PermissionsUpdate(perms, acl, card, adminGroup).value <==> Ace(Allow, rid, p) in acl
  {
    var t := IndexPermissions(perms, acl).value;
    AclOfLookup(ApplyCards(t, card, adminGroup), rid, p);
    GrantedMember(acl, p, rid);
  }

  // ---------------------------------------------------------------------
  // change_perm

  /** `change_perm`: `allow == "true"` appends an allow entry; otherwise
      the first equal allow entry is removed, except that `admin` is never
      revoked from the Admin group, and `list.remove` raises `ValueError`
      when there is none. */
  function ChangePerm(acl: seq<Ace>, roleId: Id, perm: string, allow: string, adminGroup: Id): (r: Reply<seq<Ace>>)
    ensures allow == "true" ==> r.Done? && |r.value| == |acl| + 1 && r.value[..|acl|] == acl && r.value[|acl|] == Ace(Allow, roleId, perm)
    ensures allow != "true" ==> (r.Refused? <==> roleId == adminGroup && perm == "admin")
    ensures allow != "true" ==> (r.Raises? <==> !(roleId == adminGroup && perm == "admin") && Ace(Allow, roleId, perm) !in acl)
    ensures allow != "true" && r.Done? ==> multiset(r.value) == multiset(acl) - multiset{Ace(Allow, roleId, perm)}
  {
    if allow == "true" then Done(acl + [Ace(Allow, roleId, perm)])
    else if adminGroup == roleId && perm == "admin" then
      Refused("You cannot remove the admin permission from the admin group.")
    else if Ace(Allow, roleId, perm) !in acl then Raises("ValueError: list.remove(x): x not in list")
    else Done(RemoveAce(acl, Ace(Allow, roleId, perm)))
  }

  /** No `change_perm` call takes `admin` away from the Admin group. */
  lemma ChangePermKeepsAdmin(acl: seq<Ace>, roleId: Id, perm: string, allow: string, adminGroup: Id)
    requires Ace(Allow, adminGroup, "admin") in acl
    requires ChangePerm(acl, roleId, perm, allow, adminGroup).Done?
    ensures Ace(Allow, adminGroup, "admin") in ChangePerm(acl, roleId, perm, allow, adminGroup).value
  {
    var r := ChangePerm(acl, roleId, perm, allow, adminGroup).value;
    var a := Ace(Allow, adminGroup, "admin");
    if allow == "true" {
      assert r == acl + [Ace(Allow, roleId, perm)];
    } else {
      assert multiset(acl)[a] > 0;
      assert multiset(r)[a] == multiset(acl)[a];
    }
  }

  /** Granting and then revoking a permission restores the ACL up to
      order. */
  lemma GrantThenRevoke(acl: seq<Ace>, roleId: Id, perm: string, adminGroup: Id)
    requires !(roleId == adminGroup && perm == "admin")
    ensures var g := ChangePerm(acl, roleId, perm, "true", adminGroup).value;
      var r := ChangePerm(g, roleId, perm, "false", adminGroup);
      r.Done? && multiset(r.value) == multiset(acl)
  {
    var g := ChangePerm(acl, roleId, perm, "true", adminGroup).value;
    assert g == acl + [Ace(Allow, roleId, perm)];
    assert Ace(Allow, roleId, perm) in g;
  }

  // ---------------------------------------------------------------------
  // Group membership

  /** A user as the group screens see one: the id (`None` for the
      anonymous user) and the role ids of the user's project role. */
  datatype User = User(id: Option<Id>, roles: seq<Id>)

  /** Users by user name. */
  type Users = map<string, User>

  /** The names of the users holding group `g`. */
  function Members(users: Users, g: Id): (r: set<string>)
    ensures forall n :: n in r <==> n in users && g in users[n].roles
  {
    set n | n in users && g in users[n].roles
  }

  /** `add_user`: the checks in source order, then the group appended to
      the user's roles. `groups` maps the project's group ids to names. */
  function AddUser(users: Users, groups: map<Id, string>, roleId: Id, username: string): (r: Reply<Users>)
    ensures !r.Raises?
    ensures r.Done? <==>
      (&& username != "" && username != "*anonymous" && roleId in groups
       && Text.Strip(username) in users && roleId !in users[Text.Strip(username)].roles)
    ensures r.Done? ==> Members(r.value, roleId) == Members(users, roleId) + {Text.Strip(username)}
    ensures r.Done? ==> r.value.Keys == users.Keys && forall n | n in users && n != Text.Strip(username) :: r.value[n] == users[n]
  {
    var name := Text.Strip(username);
    if username == "" || username == "*anonymous" then Refused("You must choose a user to add.")
    else if roleId !in groups then Refused("Could not find group with id " + roleId)
    else if name !in users then Refused("User " + username + " not found")
    else if roleId in users[name].roles then Refused(username + " is already in the group " + groups[roleId] + ".")
    else Done(users[name := users[name].(roles := users[name].roles + [roleId])])
  }

  /** `list.remove`: drops the first equal element. */
  function RemoveId(s: seq<Id>, x: Id): (r: seq<Id>)
    requires x in s
    ensures multiset(r) == multiset(s) - multiset{x}
  {
    if s[0] == x then
      assert s == [x] + s[1..];
      s[1..]
    else
      assert s == [s[0]] + s[1..];
      [s[0]] + RemoveId(s[1..], x)
  }

  /** `remove_user` as written: `group.name` is read before the check for
      a missing group, so an unknown group id raises `AttributeError` and
      the "Could not find group" answer is never given. */
  function RemoveUser(users: Users, groups: map<Id, string>, roleId: Id, username: string): (r: Reply<Users>)
    ensures r.Raises? <==> roleId !in groups
    ensures roleId in groups && groups[roleId] == "Admin" && |Members(users, roleId)| == 1 ==> r.Refused?
    ensures r.Done? <==>
      (&& roleId in groups && !(groups[roleId] == "Admin" && |Members(users, roleId)| == 1)
       && Text.Strip(username) in users && roleId in users[Text.Strip(username)].roles)
    ensures r.Done? ==> Text.Strip(username) in users && roleId in users[Text.Strip(username)].roles
    ensures r.Done? ==>
      (Text.Strip(username) in Members(r.value, roleId) <==> multiset(users[Text.Strip(username)].roles)[roleId] > 1)
    ensures r.Done? ==> r.value.Keys == users.Keys && forall n | n in users && n != Text.Strip(username) :: r.value[n] == users[n]
    ensures r.Done? ==>
      multiset(r.value[Text.Strip(username)].roles) == multiset(users[Text.Strip(username)].roles) - multiset{roleId}
  {
    var name := Text.Strip(username);
    if roleId !in groups then Raises("AttributeError: 'NoneType' object has no attribute 'name'")
    else if groups[roleId] == "Admin" && |Members(users, roleId)| == 1 then
      Refused("You must have at least one user with the Admin role.")
    else if name !in users then Refused("User " + username + " not found")
    else if roleId !in users[name].roles then Refused(username + " is not in the group " + groups[roleId] + ".")
    else
      var rest := RemoveId(users[name].roles, roleId);
      assert roleId in rest <==> multiset(rest)[roleId] > 0;
      Done(users[name := users[name].(roles := rest)])
  }

  /** `remove_user` never leaves a non-empty Admin group empty. */
  lemma RemoveUserKeepsAdmin(users: Users, groups: map<Id, string>, roleId: Id, username: string)
    requires roleId in groups && groups[roleId] == "Admin" && |Members(users, roleId)| >= 1
    requires RemoveUser(users, groups, roleId, username).Done?
    ensures |Members(RemoveUser(users, groups, roleId, username).value, roleId)| >= 1
  {
    var r := RemoveUser(users, groups, roleId, username).value;
    var name := Text.Strip(username);
    var before := Members(users, roleId);
    assert |before| >= 2 && name in before;
    assert |before - {name}| == |before| - 1;
    var m :| m in before - {name};
    assert m in Members(r, roleId);
  }

  // ---------------------------------------------------------------------
  // GroupsController.update

  /** Whether one of the `new` user names resolves to user `n` with an id. */
  predicate Added(users: Users, newUsers: seq<string>, n: string) {
    n in users && users[n].id.Some? && exists s | s in newUsers :: Text.Strip(s) == n
  }

  /** The new-user loop: each listed name is resolved (an unknown one
      redirects), the anonymous user is skipped, everyone else gets the
      group appended; the flag says whether anyone was added. */
  function AddNew(users: Users, g: Id, newUsers: seq<string>): (r: Result<(Users, bool)>)
    ensures r.Ok? <==> forall s | s in newUsers :: Text.Strip(s) in users
    ensures r.Ok? ==> r.value.0.Keys == users.Keys
  {
    if |newUsers| == 0 then Ok((users, false))
    else
      var init := newUsers[..|newUsers| - 1];
      var s := newUsers[|newUsers| - 1];
      var name := Text.Strip(s);
      assert forall x :: x in newUsers <==> x in init || x == s;
      match AddNew(users, g, init)
      case Err(e) => Err(e)
      case Ok((u, added)) =>
        if name !in u then Err("User " + s + " not found")
        else if u[name].id.None? then Ok((u, added))
        else Ok((u[name := u[name].(roles := u[name].roles + [g])], true))
  }

  /** After the loop a user holds the group iff they held it or were
      added, ids are unchanged, and the flag is set iff someone was added. */
  lemma {:induction false} AddNewMembers(users: Users, g: Id, newUsers: seq<string>)
    requires AddNew(users, g, newUsers).Ok?
    ensures var (u, added) := AddNew(users, g, newUsers).value;
      && (added <==> exists n :: Added(users, newUsers, n))
      && forall n | n in users ::
        && u[n].id == users[n].id
        && (g in u[n].roles <==> g in users[n].roles || Added(users, newUsers, n))
  {
    if |newUsers| > 0 {
      var init := newUsers[..|newUsers| - 1];
      var s := newUsers[|newUsers| - 1];
      var name := Text.Strip(s);
      assert forall x :: x in newUsers <==> x in init || x == s;
      assert forall n :: Added(users, newUsers, n) <==>
        Added(users, init, n) || (n == name && n in users && users[n].id.Some?);
      AddNewMembers(users, g, init);
      var (u0, a0) := AddNew(users, g, init).value;
      assert name in u0 && name in users && u0[name].id == users[name].id;
      if u0[name].id.None? {
        assert AddNew(users, g, newUsers).value == (u0, a0);
      } else {
        var u := u0[name := u0[name].(roles := u0[name].roles + [g])];
        assert AddNew(users, g, newUsers).value == (u, true);
        assert Added(users, newUsers, name);
        AddOneMember(users, u0, g, name, init, newUsers);
      }
    }
  }

  /** The step of the loop that appends the group to user `name`. */
  lemma AddOneMember(users: Users, u0: Users, g: Id, name: string, init: seq<string>, newUsers: seq<string>)
    requires name in u0 && name in users && users[name].id.Some?
    requires forall n :: Added(users, newUsers, n) <==> Added(users, init, n) || (n == name && n in users && users[n].id.Some?)
    requires forall n | n in users ::
        && n in u0 && u0[n].id == users[n].id
        && (g in u0[n].roles <==> g in users[n].roles || Added(users, init, n))
    ensures var u := u0[name := u0[name].(roles := u0[name].roles + [g])];
      forall n | n in users ::
        && u[n].id == users[n].id
        && (g in u[n].roles <==> g in users[n].roles || Added(users, newUsers, n))
  {
    var u := u0[name := u0[name].(roles := u0[name].roles + [g])];
    forall n | n in users
      ensures u[n].id == users[n].id
      ensures g in u[n].roles <==> g in users[n].roles || Added(users, newUsers, n)
    {
      if n == name {
        assert g in u[n].roles;
        assert Added(users, newUsers, n);
      } else {
        assert u[n] == u0[n];
      }
    }
  }

  /** Whether the removal loop drops user `n`: a member before the request,
      with a real id, that the form no longer lists. */
  predicate Dropped(before: Users, g: Id, keep: seq<string>, n: string) {
    n in before && g in before[n].roles && before[n].id.Some? && before[n].id.value != "" && before[n].id.value !in keep
  }

  /** `[rid for rid in roles if rid != g]`. */
  function Without(roles: seq<Id>, g: Id): (r: seq<Id>)
    ensures forall x :: x in r <==> x in roles && x != g
  {
    if |roles| == 0 then []
    else (if roles[0] == g then [] else [roles[0]]) + Without(roles[1..], g)
  }

  /** The removal loop: every member of `before` the form no longer lists
      loses the group in `u`. */
  function DropUnlisted(before: Users, u: Users, g: Id, value: seq<string>): (r: Users)
    ensures r.Keys == u.Keys
    ensures forall n | n in u :: r[n].id == u[n].id && (g in r[n].roles <==> g in u[n].roles && !Dropped(before, g, value, n))
  {
    map n | n in u :: if Dropped(before, g, value, n) then u[n].(roles := Without(u[n].roles, g)) else u[n]
  }

  /** Whether user `n` holds the group once the row is applied. */
  predicate Remains(users: Users, g: Id, value: seq<string>, newUsers: seq<string>, n: string)
    requires n in users
  {
    (g in users[n].roles || Added(users, newUsers, n)) && !Dropped(users, g, value, n)
  }

  /** One group row of `GroupsController.update` as written: new users
      first, then the guard against an empty Admin group, which only asks
      that the form lists some id or added someone, then every member the
      form no longer lists loses the group. */
  function GroupUpdate(users: Users, g: Id, groupName: string, value: seq<string>, newUsers: seq<string>): (r: Reply<Users>)
    ensures !r.Raises?
    ensures r.Refused? <==>
      (|| (exists s | s in newUsers :: Text.Strip(s) !in users)
       || (groupName == "Admin" && |value| == 0 && forall n :: !Added(users, newUsers, n)))
    ensures r.Done? ==> r.value.Keys == users.Keys
    ensures r.Done? ==> forall n | n in users :: (g in r.value[n].roles <==> Remains(users, g, value, newUsers, n))
  {
    match AddNew(users, g, newUsers)
    case Err(e) => Refused(e)
    case Ok((u, added)) =>
      AddNewMembers(users, g, newUsers);
      if groupName == "Admin" && !(|value| > 0 || added) then
        Refused("You must have at least one user with the Admin role.")
      else
        Done(DropUnlisted(users, u, g, value))
  }

  /** The guard passes a form that lists only an empty id: the Admin
      group's last member is then removed. */
  lemma GroupUpdateEmptiesAdmin()
    ensures var users := map["admin1" := User(Some("u1"), ["g"])];
      var r := GroupUpdate(users, "g", "Admin", [""], []);
      r.Done? && Members(r.value, "g") == {}
  {
    var users := map["admin1" := User(Some("u1"), ["g"])];
    assert Dropped(users, "g", [""], "admin1");
    var r := GroupUpdate(users, "g", "Admin", [""], []);
    assert r.Done?;
    assert forall n | n in r.value :: n == "admin1";
  }

  /** The corrected guard: refuse whenever no user would hold the Admin
      group afterwards. */
  function GroupUpdateFixed(users: Users, g: Id, groupName: string, value: seq<string>, newUsers: seq<string>): (r: Reply<Users>)
    ensures !r.Raises?
    ensures r.Refused? <==>
      (|| (exists s | s in newUsers :: Text.Strip(s) !in users)
       || (groupName == "Admin" && forall n | n in users :: !Remains(users, g, value, newUsers, n)))
    ensures r.Done? ==> r.value.Keys == users.Keys
    ensures r.Done? ==> forall n | n in users :: (g in r.value[n].roles <==> Remains(users, g, value, newUsers, n))
  {
    match AddNew(users, g, newUsers)
    case Err(e) => Refused(e)
    case Ok((u, added)) =>
      AddNewMembers(users, g, newUsers);
      if groupName == "Admin" && forall n | n in users :: !Remains(users, g, value, newUsers, n) then
        Refused("You must have at least one user with the Admin role.")
      else
        Done(DropUnlisted(users, u, g, value))
  }

  /** With the corrected guard the Admin group keeps a member. */
  lemma GroupUpdateFixedKeepsAdmin(users: Users, g: Id, value: seq<string>, newUsers: seq<string>)
    requires GroupUpdateFixed(users, g, "Admin", value, newUsers).Done?
    ensures Members(GroupUpdateFixed(users, g, "Admin", value, newUsers).value, g) != {}
  {
    var r := GroupUpdateFixed(users, g, "Admin", value, newUsers).value;
    var n :| n in users && Remains(users, g, value, newUsers, n);
    assert n in Members(r, g);
  }

  /** Where both guards pass, the corrected row does what the original does. */
  lemma GroupUpdateFixedAgrees(users: Users, g: Id, groupName: string, value: seq<string>, newUsers: seq<string>)
    requires GroupUpdate(users, g, groupName, value, newUsers).Done?
    requires GroupUpdateFixed(users, g, groupName, value, newUsers).Done?
    ensures GroupUpdateFixed(users, g, groupName, value, newUsers) == GroupUpdate(users, g, groupName, value, newUsers)
  {
  }

  /** The anonymous user is never added to a group. */
  lemma GroupUpdateSkipsAnonymous(users: Users, g: Id, groupName: string, value: seq<string>, newUsers: seq<string>, n: string)
    requires n in users && users[n].id.None? && g !in users[n].roles
    requires GroupUpdate(users, g, groupName, value, newUsers).Done?
    ensures g !in GroupUpdate(users, g, groupName, value, newUsers).value[n].roles
  {
  }
}
