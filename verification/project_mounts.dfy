/** A project's mounts and access (`Project`): the toolbar order of its
    tools and subprojects, the ordinal the next tool gets, the choice and
    checks of a tool's mount point on install, uninstall, the `private`
    flag held as an access-control entry, the roles granted a permission
    along the project's ancestry, and the subprojects found by shortname
    that deletion cascades to. Tool classes, the path pattern and the
    document store are inputs. */
module ProjectMounts {
  import opened Wrappers
  import opened RepoDocs
  import opened Text
  import Sorting

  datatype Access = Allow | Deny

  /** An access-control entry: `ACE.allow(role_id, permission)` and its deny twin. */
  datatype Ace = Ace(access: Access, roleId: Id, permission: string)

  /** An installed tool (an `AppConfig`): its tool name, the options that
      matter here, and its class's `hidden` flag. */
  datatype Tool = Tool(toolName: string, mountPoint: string, mountLabel: string, ordinal: Option<int>, hidden: bool)

  /** A direct subproject: shortname, ordinal, deleted flag. */
  datatype Sub = Sub(shortname: string, ordinal: int, deleted: bool)

  datatype Project = Project(subs: seq<Sub>, tools: seq<Tool>, acl: seq<Ace>, supportPage: string)

  datatype Entry = SubEntry(sub: Sub) | ToolEntry(tool: Tool)

  /** A row of `ordered_mounts`. */
  datatype Mount = Mount(ordinal: int, rank: int, entry: Entry)

  // ---------------------------------------------------------------------
  // ordered_mounts and next_mount_point

  /** `ac.options.get('ordinal', 0)`. */
  function ToolOrdinal(t: Tool): int {
    t.ordinal.GetOr(0)
  }

  /** A tool's row: rank 0 only for the tool mounted at `home`. */
  function ToolMount(t: Tool): Mount {
    Mount(ToolOrdinal(t), if t.mountPoint == "home" then 0 else 1, ToolEntry(t))
  }

  function SubMount(s: Sub): Mount {
    Mount(s.ordinal, 1, SubEntry(s))
  }

  /** The rows of the subprojects not deleted (`direct_subprojects`). */
  function SubMounts(subs: seq<Sub>): seq<Mount> {
    if |subs| == 0 then []
    else (if subs[0].deleted then [] else [SubMount(subs[0])]) + SubMounts(subs[1..])
  }

  /** The rows of the tools shown: all of them with `includeHidden`. */
  function ToolMounts(tools: seq<Tool>, includeHidden: bool): seq<Mount> {
    if |tools| == 0 then []
    else (if includeHidden || !tools[0].hidden then [ToolMount(tools[0])] else []) + ToolMounts(tools[1..], includeHidden)
  }

  /** The sort key `(ordinal, rank)`. */
  predicate MountLe(a: Mount, b: Mount) {
    a.ordinal < b.ordinal || (a.ordinal == b.ordinal && a.rank <= b.rank)
  }

  /** `ordered_mounts(include_hidden)`: subprojects, then tools, sorted
      by ordinal and rank. */
  function OrderedMounts(p: Project, includeHidden: bool): seq<Mount> {
    Sorting.SortBy(SubMounts(p.subs) + ToolMounts(p.tools, includeHidden), (a: Mount, b: Mount) => MountLe(a, b))
  }

  /** Whether a subproject or tool is listed. */
  predicate Listed(p: Project, includeHidden: bool, m: Mount) {
    (m.entry.SubEntry? && m == SubMount(m.entry.sub) && m.entry.sub in p.subs && !m.entry.sub.deleted)
    || (m.entry.ToolEntry? && m == ToolMount(m.entry.tool) && m.entry.tool in p.tools && (includeHidden || !m.entry.tool.hidden))
  }

  lemma MountOrder()
    ensures Sorting.TotalPreorder((a: Mount, b: Mount) => MountLe(a, b))
  {
  }

  lemma {:induction false} SubMountsListed(p: Project, includeHidden: bool, subs: seq<Sub>)
    requires forall s | s in subs :: s in p.subs
    ensures forall m :: m in SubMounts(subs) <==> m.entry.SubEntry? && m == SubMount(m.entry.sub) && m.entry.sub in subs && !m.entry.sub.deleted
  {
    if |subs| > 0 {
      SubMountsListed(p, includeHidden, subs[1..]);
      assert forall s :: s in subs <==> s == subs[0] || s in subs[1..];
    }
  }

  lemma {:induction false} ToolMountsListed(tools: seq<Tool>, includeHidden: bool)
    ensures forall m :: m in ToolMounts(tools, includeHidden) <==>
      m.entry.ToolEntry? && m == ToolMount(m.entry.tool) && m.entry.tool in tools && (includeHidden || !m.entry.tool.hidden)
  {
    if |tools| > 0 {
      ToolMountsListed(tools[1..], includeHidden);
      assert forall t :: t in tools <==> t == tools[0] || t in tools[1..];
    }
  }

  /** `ordered_mounts` lists exactly the live subprojects and the shown
      tools, in `(ordinal, rank)` order, with rank 0 only for `home`. */
  lemma OrderedMountsSpec(p: Project, includeHidden: bool)
    ensures var ms := OrderedMounts(p, includeHidden);
      && Sorting.SortedBy(ms, (a: Mount, b: Mount) => MountLe(a, b))
      && (forall m :: m in ms <==> Listed(p, includeHidden, m))
      && (forall m | m in ms :: m.rank == 0 <==> m.entry.ToolEntry? && m.entry.tool.mountPoint == "home")
  {
    var le := (a: Mount, b: Mount) => MountLe(a, b);
    var all := SubMounts(p.subs) + ToolMounts(p.tools, includeHidden);
    MountOrder();
    Sorting.SortSorted(all, le);
    SubMountsListed(p, includeHidden, p.subs);
    ToolMountsListed(p.tools, includeHidden);
    var ms := OrderedMounts(p, includeHidden);
    forall m
      ensures m in ms <==> m in all
    {
      assert m in ms <==> m in multiset(ms);
      assert m in all <==> m in multiset(all);
    }
  }

  /** `next_mount_point(include_hidden)`: one past the last ordinal in
      toolbar order, 0 when nothing is listed. */
  function NextMountPoint(p: Project, includeHidden: bool): int {
    var ms := OrderedMounts(p, includeHidden);
    if |ms| == 0 then 0 else ms[|ms| - 1].ordinal + 1
  }

  /** The next ordinal is above every listed ordinal and just above one of
      them; 0 when nothing is listed. */
  lemma NextMountPointSpec(p: Project, includeHidden: bool)
    ensures var r := NextMountPoint(p, includeHidden);
      && ((forall m :: !Listed(p, includeHidden, m)) ==> r == 0)
      && (forall m | Listed(p, includeHidden, m) :: m.ordinal < r)
      && ((exists m :: Listed(p, includeHidden, m)) ==> exists m | Listed(p, includeHidden, m) :: m.ordinal == r - 1)
  {
    OrderedMountsSpec(p, includeHidden);
    var ms := OrderedMounts(p, includeHidden);
    if |ms| > 0 {
      LastHighest(ms);
      assert ms[|ms| - 1] in ms;
    } else {
      forall m
        ensures !Listed(p, includeHidden, m)
      {
        assert m !in ms;
      }
    }
  }

  /** In `(ordinal, rank)` order the last row has the highest ordinal. */
  lemma LastHighest(ms: seq<Mount>)
    requires |ms| > 0 && Sorting.SortedBy(ms, (a: Mount, b: Mount) => MountLe(a, b))
    ensures forall m | m in ms :: m.ordinal <= ms[|ms| - 1].ordinal
  {
    forall i | 0 <= i < |ms| - 1
      ensures ms[i].ordinal <= ms[|ms| - 1].ordinal
    {
      assert MountLe(ms[i], ms[|ms| - 1]);
    }
  }

  // ---------------------------------------------------------------------
  // install_app

  /** What a tool's class supplies: entry-point name, default mount point
      and label, and whether it is hidden. */
  datatype ToolClass = ToolClass(name: string, defaultMountPoint: string, defaultLabel: string, hidden: bool)

  /** `app_instance(mount_point) is not None`. */
  predicate InUse(p: Project, mp: string) {
    exists t | t in p.tools :: t.mountPoint == mp
  }

  const Reserved: set<string> := {"feed", "index", "icon", "_nav.json"}

  /** The `k`-th name tried: `base`, then `base-0` to `base-9`. */
  function Candidate(base: string, k: nat): string
    requires k <= 10
  {
    if k == 0 then base else base + "-" + [('0' as int + k - 1) as char]
  }

  /** The loop over `range(10)`: the first free name among `base`,
      `base-0`, ..., `base-8`, else `base-9` unchecked. */
  function DefaultMountPoint(p: Project, base: string, k: nat): string
    requires k <= 10
    decreases 10 - k
  {
    if k == 10 || !InUse(p, Candidate(base, k)) then Candidate(base, k)
    else DefaultMountPoint(p, base, k + 1)
  }

  /** The default mount point is the first of the ten candidates that is
      free, or the eleventh when all ten are taken. */
  lemma {:induction false} DefaultMountPointSpec(p: Project, base: string, k: nat)
    requires k <= 10
    requires forall j | 0 <= j < k :: InUse(p, Candidate(base, j))
    ensures exists i | k <= i <= 10 ::
      (&& DefaultMountPoint(p, base, k) == Candidate(base, i)
       && (forall j | 0 <= j < i :: InUse(p, Candidate(base, j)))
       && (i < 10 ==> !InUse(p, Candidate(base, i))))
    decreases 10 - k
  {
    if k < 10 && InUse(p, Candidate(base, k)) {
      DefaultMountPointSpec(p, base, k + 1);
    } else {
      assert DefaultMountPoint(p, base, k) == Candidate(base, k);
    }
  }

  /** The mount point `install_app` checks: the one given, or the default. */
  function ChosenMountPoint(p: Project, app: ToolClass, mountPoint: string): string {
    if mountPoint == "" then DefaultMountPoint(p, app.defaultMountPoint, 0) else mountPoint
  }

  /** The `ToolError` for an unusable mount point, if any. */
  function MountPointError(p: Project, validPath: string -> bool, mp: string): Option<string> {
    if !validPath(mp) then Some("ToolError: Mount point \"" + mp + "\" is invalid")
    else if mp in Reserved then Some("ToolError: Mount point \"" + mp + "\" is reserved")
    else if InUse(p, mp) then Some("ToolError: Mount point \"" + mp + "\" is already in use")
    else None
  }

  /** The project with the new tool's config added. */
  function Installed(p: Project, app: ToolClass, mp: string, mountLabel: string, ordinal: int): Project {
    var shown := if mountLabel != "" then mountLabel else if app.defaultLabel != "" then app.defaultLabel else mp;
    p.(tools := p.tools + [Tool(app.name, mp, shown, Some(ordinal), app.hidden)])
  }

  /** `install_app` as written: without an ordinal it takes the last
      ordered mount's ordinal (hidden ones included) plus one, which raises
      `IndexError` when the project has no mounts at all. */
  function InstallAppAsWritten(p: Project, app: ToolClass, validPath: string -> bool,
                               mountPoint: string, mountLabel: string, ordinal: Option<int>): Result<Project>
  {
    var mp := ChosenMountPoint(p, app, mountPoint);
    match MountPointError(p, validPath, mp)
    case Some(e) => Err(e)
    case None =>
      var ms := OrderedMounts(p, true);
      if ordinal.None? && |ms| == 0 then Err("IndexError: list index out of range")
      else Ok(Installed(p, app, mp, mountLabel, if ordinal.Some? then ordinal.value else ms[|ms| - 1].ordinal + 1))
  }

  /** `install_app` with the missing ordinal taken from
      `next_mount_point(include_hidden=True)`, 0 for a project without
      mounts. */
  function InstallApp(p: Project, app: ToolClass, validPath: string -> bool,
                      mountPoint: string, mountLabel: string, ordinal: Option<int>): Result<Project>
  {
    var mp := ChosenMountPoint(p, app, mountPoint);
    match MountPointError(p, validPath, mp)
    case Some(e) => Err(e)
    case None => Ok(Installed(p, app, mp, mountLabel, ordinal.GetOr(NextMountPoint(p, true))))
  }

  /** No two tools share a mount point. */
  predicate UniqueMounts(p: Project) {
    forall i, j | 0 <= i < j < |p.tools| :: p.tools[i].mountPoint != p.tools[j].mountPoint
  }

  /** Installing succeeds exactly when the chosen mount point matches the
      path pattern, is not reserved and is free; it then adds one tool
      there, after the existing ones, labelled by the given label, the
      class's default or the mount point, at the given ordinal or above
      every mount; nothing else changes and mount points stay unique. */
  lemma InstallAppSpec(p: Project, app: ToolClass, validPath: string -> bool,
                       mountPoint: string, mountLabel: string, ordinal: Option<int>)
    ensures var r := InstallApp(p, app, validPath, mountPoint, mountLabel, ordinal);
      var mp := ChosenMountPoint(p, app, mountPoint);
      && (r.Ok? <==> validPath(mp) && mp !in Reserved && !InUse(p, mp))
      && (r.Ok? ==>
        && r.value.subs == p.subs && r.value.acl == p.acl && r.value.supportPage == p.supportPage
        && |r.value.tools| == |p.tools| + 1 && r.value.tools[..|p.tools|] == p.tools
        && var t := r.value.tools[|p.tools|];
        && t.mountPoint == mp && t.toolName == app.name && t.hidden == app.hidden
        && t.mountLabel == (if mountLabel != "" then mountLabel else if app.defaultLabel != "" then app.defaultLabel else mp)
        && (ordinal.Some? ==> t.ordinal == ordinal)
        && (ordinal.None? ==> t.ordinal.Some? && forall m | Listed(p, true, m) :: m.ordinal < t.ordinal.value)
        && (UniqueMounts(p) ==> UniqueMounts(r.value)))
  {
    NextMountPointSpec(p, true);
    var r := InstallApp(p, app, validPath, mountPoint, mountLabel, ordinal);
    if r.Ok? {
      var q := r.value;
      assert q.tools[..|p.tools|] == p.tools;
    }
  }

  /** With no mount point given, a free default is chosen whenever one of
      the ten candidates is free. */
  lemma InstallAppDefault(p: Project, app: ToolClass, validPath: string -> bool, mountLabel: string, ordinal: Option<int>)
    requires exists k | 0 <= k < 10 :: !InUse(p, Candidate(app.defaultMountPoint, k))
    ensures !InUse(p, ChosenMountPoint(p, app, ""))
  {
    DefaultMountPointSpec(p, app.defaultMountPoint, 0);
  }

  /** Wherever the source does not raise, the two versions agree: they
      differ only when no ordinal is given and the project has no mounts. */
  lemma InstallAppAgrees(p: Project, app: ToolClass, validPath: string -> bool,
                         mountPoint: string, mountLabel: string, ordinal: Option<int>)
    ensures var w := InstallAppAsWritten(p, app, validPath, mountPoint, mountLabel, ordinal);
      w.Ok? || w.reason != "IndexError: list index out of range" ==> w == InstallApp(p, app, validPath, mountPoint, mountLabel, ordinal)
    ensures (InstallAppAsWritten(p, app, validPath, mountPoint, mountLabel, ordinal).Err? &&
             InstallApp(p, app, validPath, mountPoint, mountLabel, ordinal).Ok?) ==>
      ordinal.None? && |OrderedMounts(p, true)| == 0
  {
  }

  /** A project with no tools and no subprojects: installing a tool
      without an ordinal raises as written and gets ordinal 0 corrected. */
  lemma InstallIntoEmpty()
    ensures var p := Project([], [], [], "");
      var app := ToolClass("wiki", "wiki", "Wiki", false);
      var valid := (s: string) => true;
      && InstallAppAsWritten(p, app, valid, "", "", None) == Err("IndexError: list index out of range")
      && InstallApp(p, app, valid, "", "", None) == Ok(Project([], [Tool("wiki", "wiki", "Wiki", Some(0), false)], [], ""))
  {
    var p := Project([], [], [], "");
    var app := ToolClass("wiki", "wiki", "Wiki", false);
    var valid := (s: string) => true;
    assert !InUse(p, "wiki");
    assert ChosenMountPoint(p, app, "") == "wiki";
    assert "wiki"[0] == 'w' && "feed"[0] == 'f' && "index"[0] == 'i' && "icon"[0] == 'i' && "_nav.json"[0] == '_';
    assert "wiki" !in Reserved;
    assert MountPointError(p, valid, "wiki") == None;
    assert SubMounts([]) + ToolMounts([], true) == [];
    assert OrderedMounts(p, true) == [];
    assert NextMountPoint(p, true) == 0;
    assert InstallAppAsWritten(p, app, valid, "", "", None) == Err("IndexError: list index out of range");
    var t := Tool("wiki", "wiki", "Wiki", Some(0), false);
    assert Installed(p, app, "wiki", "", 0) == Project([], [] + [t], [], "");
    assert [] + [t] == [t];
  }

  // ---------------------------------------------------------------------
  // uninstall_app

  /** The tools without the first one mounted at `mp`. */
  function RemoveFirst(tools: seq<Tool>, mp: string): (r: seq<Tool>)
    ensures |r| <= |tools|
  {
    if |tools| == 0 then []
    else if tools[0].mountPoint == mp then tools[1..]
    else [tools[0]] + RemoveFirst(tools[1..], mp)
  }

  /** `uninstall_app(mount_point)`: nothing when no tool is mounted there;
      otherwise the support page is cleared when it names that mount and
      the tool's config goes. */
  function UninstallApp(p: Project, mp: string): (r: Project)
    ensures !InUse(p, mp) ==> r == p
    ensures r.subs == p.subs && r.acl == p.acl
    ensures r.supportPage == if InUse(p, mp) && p.supportPage == mp then "" else p.supportPage
  {
    if !InUse(p, mp) then p
    else p.(supportPage := if p.supportPage == mp then "" else p.supportPage, tools := RemoveFirst(p.tools, mp))
  }

  lemma {:induction false} RemoveFirstAbsent(tools: seq<Tool>, t: Tool)
    requires forall u | u in tools :: u.mountPoint != t.mountPoint
    ensures RemoveFirst(tools + [t], t.mountPoint) == tools
  {
    if |tools| == 0 {
      assert tools + [t] == [t];
    } else {
      assert (tools + [t])[1..] == tools[1..] + [t];
      RemoveFirstAbsent(tools[1..], t);
    }
  }

  lemma {:induction false} RemoveFirstUnique(tools: seq<Tool>, mp: string)
    requires forall i, j | 0 <= i < j < |tools| :: tools[i].mountPoint != tools[j].mountPoint
    ensures forall u | u in RemoveFirst(tools, mp) :: u.mountPoint != mp
    ensures forall u | u in RemoveFirst(tools, mp) :: u in tools
  {
    if |tools| > 0 {
      RemoveFirstUnique(tools[1..], mp);
      if tools[0].mountPoint == mp {
        forall u | u in tools[1..]
          ensures u.mountPoint != mp
        {
          var j :| 0 <= j < |tools[1..]| && tools[1..][j] == u;
          assert tools[j + 1] == u;
        }
      }
    }
  }

  /** With unique mount points, the uninstalled mount point is free
      afterwards. */
  lemma UninstallFrees(p: Project, mp: string)
    requires UniqueMounts(p)
    ensures !InUse(UninstallApp(p, mp), mp)
  {
    RemoveFirstUnique(p.tools, mp);
  }

  /** Uninstalling what was just installed gives the project back, unless
      its support page named that mount point. */
  lemma UninstallAfterInstall(p: Project, app: ToolClass, validPath: string -> bool,
                              mountPoint: string, mountLabel: string, ordinal: Option<int>)
    requires InstallApp(p, app, validPath, mountPoint, mountLabel, ordinal).Ok?
    requires p.supportPage != ChosenMountPoint(p, app, mountPoint)
    ensures UninstallApp(InstallApp(p, app, validPath, mountPoint, mountLabel, ordinal).value,
                         ChosenMountPoint(p, app, mountPoint)) == p
  {
    var mp := ChosenMountPoint(p, app, mountPoint);
    var q := InstallApp(p, app, validPath, mountPoint, mountLabel, ordinal).value;
    var t := q.tools[|p.tools|];
    assert q.tools == p.tools + [t];
    assert t.mountPoint == mp;
    assert t in q.tools;
    RemoveFirstAbsent(p.tools, t);
  }

  // ---------------------------------------------------------------------
  // private

  /** `ACE.allow(role_anon._id, 'read')`. */
  function AnonRead(anon: Id): Ace {
    Ace(Allow, anon, "read")
  }

  /** `private`: anonymous users may not read. */
  predicate Private(p: Project, anon: Id) {
    AnonRead(anon) !in p.acl
  }

  /** `list.remove`: the first occurrence goes. */
  function RemoveAce(acl: seq<Ace>, a: Ace): (r: seq<Ace>)
    requires a in acl
    ensures multiset(r) == multiset(acl) - multiset{a}
  {
    if acl[0] == a then
      assert acl == [a] + acl[1..];
      acl[1..]
    else
      assert acl == [acl[0]] + acl[1..];
      [acl[0]] + RemoveAce(acl[1..], a)
  }

  /** Setting `private`: nothing when the value is already that; `True`
      removes the anonymous read entry, `False` appends it. */
  function SetPrivate(p: Project, anon: Id, val: bool): (r: Project)
    ensures r.subs == p.subs && r.tools == p.tools && r.supportPage == p.supportPage
  {
    if val == Private(p, anon) then p
    else if val then p.(acl := RemoveAce(p.acl, AnonRead(anon)))
    else p.(acl := p.acl + [AnonRead(anon)])
  }

  /** Reading back what was set: `False` always reads back; `True` reads
      back when the entry was not duplicated; setting the current value
      changes nothing; only the anonymous read entry is added or removed. */
  lemma PrivateRoundTrip(p: Project, anon: Id, val: bool)
    ensures val == Private(p, anon) ==> SetPrivate(p, anon, val) == p
    ensures !val ==> !Private(SetPrivate(p, anon, false), anon)
    ensures val && multiset(p.acl)[AnonRead(anon)] <= 1 ==> Private(SetPrivate(p, anon, true), anon)
    ensures var r := SetPrivate(p, anon, val);
      || r == p
      || multiset(r.acl) == multiset(p.acl) - multiset{AnonRead(anon)}
      || multiset(r.acl) == multiset(p.acl) + multiset{AnonRead(anon)}
  {
    var a := AnonRead(anon);
    var r := SetPrivate(p, anon, val);
    if val && !Private(p, anon) && multiset(p.acl)[a] <= 1 {
      assert multiset(r.acl)[a] == 0;
    }
    if !val && Private(p, anon) {
      assert a in p.acl + [a];
    }
  }

  // ---------------------------------------------------------------------
  // roleids_with_permission

  /** The roles an ACL allows `name`. */
  function AllowedRoles(acl: seq<Ace>, name: string): set<Id> {
    if |acl| == 0 then {}
    else (if acl[0].access == Allow && acl[0].permission == name then {acl[0].roleId} else {}) + AllowedRoles(acl[1..], name)
  }

  /** `roleids_with_permission(name)` over `parent_iter()`: the ACLs of the
      project and of each ancestor, nearest first. */
  function RoleIdsWithPermission(chain: seq<seq<Ace>>, name: string): set<Id> {
    if |chain| == 0 then {} else AllowedRoles(chain[0], name) + RoleIdsWithPermission(chain[1..], name)
  }

  lemma {:induction false} AllowedRolesMember(acl: seq<Ace>, name: string, x: Id)
    ensures x in AllowedRoles(acl, name) <==> Ace(Allow, x, name) in acl
  {
    if |acl| > 0 {
      AllowedRolesMember(acl[1..], name, x);
      assert Ace(Allow, x, name) in acl <==> acl[0] == Ace(Allow, x, name) || Ace(Allow, x, name) in acl[1..];
    }
  }

  /** A role has the permission exactly when some ACL on the way up allows
      it. */
  lemma {:induction false} RoleIdsMember(chain: seq<seq<Ace>>, name: string, x: Id)
    ensures x in RoleIdsWithPermission(chain, name) <==> exists i | 0 <= i < |chain| :: Ace(Allow, x, name) in chain[i]
  {
    if |chain| > 0 {
      RoleIdsMember(chain[1..], name, x);
      AllowedRolesMember(chain[0], name, x);
      if exists i | 0 <= i < |chain| :: Ace(Allow, x, name) in chain[i] {
        var i :| 0 <= i < |chain| && Ace(Allow, x, name) in chain[i];
        if i > 0 {
          assert chain[1..][i - 1] == chain[i];
        }
      }
      if exists i | 0 <= i < |chain[1..]| :: Ace(Allow, x, name) in chain[1..][i] {
        var i :| 0 <= i < |chain[1..]| && Ace(Allow, x, name) in chain[1..][i];
        assert chain[i + 1] == chain[1..][i];
      }
    }
  }

  // ---------------------------------------------------------------------
  // subprojects, delete_project and undelete_project

  /** A project document as the shortname query sees it. */
  datatype ProjectDoc = ProjectDoc(shortname: string, nbhd: Id, deleted: bool)

  /** Mongo's string order (UTF-8 bytes, which is code-point order). */
  function Le(): (string, string) -> bool {
    (a: string, b: string) => Sorting.StrLe(a, b)
  }

  /** The shortnames of a neighborhood's projects ordered after `s`: the
      query `shortname > s` sorted by shortname. */
  function After(db: seq<ProjectDoc>, nbhd: Id, s: string): seq<string> {
    if |db| == 0 then []
    else
      var d := db[0];
      (if d.nbhd == nbhd && Sorting.StrLe(s, d.shortname) && d.shortname != s then [d.shortname] else [])
        + After(db[1..], nbhd, s)
  }

  /** The leading names that start with `prefix`. */
  function TakePrefixed(names: seq<string>, prefix: string): (r: seq<string>)
    ensures forall n | n in r :: StartsWith(n, prefix) && n in names
  {
    if |names| == 0 || !StartsWith(names[0], prefix) then [] else [names[0]] + TakePrefixed(names[1..], prefix)
  }

  /** `subprojects` as written: walk the sorted query and stop at the
      first name without the `s/` prefix. A name that extends `s` with a
      character ordered before `/` (`-` or `.`) stops the walk before the
      subprojects. */
  function SubprojectsAsWritten(db: seq<ProjectDoc>, nbhd: Id, s: string): seq<string> {
    TakePrefixed(Sorting.SortBy(After(db, nbhd, s), Le()), s + "/")
  }

  /** Every project of the neighborhood whose shortname starts with `s/`,
      in shortname order: what `subprojects` is for. */
  function Subprojects(db: seq<ProjectDoc>, nbhd: Id, s: string): (r: seq<string>)
    ensures forall n :: n in r <==> exists d | d in db :: d.nbhd == nbhd && d.shortname == n && StartsWith(n, s + "/")
    ensures Sorting.SortedBy(r, Le())
  {
    Sorting.StrOrder();
    Sorting.SortSorted(Below(db, nbhd, s), Le());
    var r := Sorting.SortBy(Below(db, nbhd, s), Le());
    assert forall n :: n in r <==> n in Below(db, nbhd, s) by {
      forall n ensures n in r <==> n in Below(db, nbhd, s) {
        assert n in r <==> n in multiset(r);
        assert n in Below(db, nbhd, s) <==> n in multiset(Below(db, nbhd, s));
      }
    }
    r
  }

  /** The neighborhood's shortnames that start with `s/`. */
  function Below(db: seq<ProjectDoc>, nbhd: Id, s: string): (r: seq<string>)
    ensures forall n :: n in r <==> exists d | d in db :: d.nbhd == nbhd && d.shortname == n && StartsWith(n, s + "/")
  {
    if |db| == 0 then []
    else
      var rest := Below(db[1..], nbhd, s);
      assert forall d :: d in db <==> d == db[0] || d in db[1..];
      (if db[0].nbhd == nbhd && StartsWith(db[0].shortname, s + "/") then [db[0].shortname] else []) + rest
  }

  lemma {:induction false} StrLeCommon(c: string, x: string, y: string)
    requires Sorting.StrLe(x, y)
    ensures Sorting.StrLe(c + x, c + y)
  {
    if |c| > 0 {
      StrLeCommon(c[1..], x, y);
      assert (c + x)[1..] == c[1..] + x && (c + y)[1..] == c[1..] + y;
    } else {
      assert c + x == x && c + y == y;
    }
  }

  /** In the example below, the names in code-point order. */
  lemma ExampleOrder(a: string)
    ensures Sorting.StrLe(a, a + "-1") && Sorting.StrLe(a + "-1", a + "/sub")
    ensures Sorting.StrLe(a, a + "/sub") && a != a + "-1" && a != a + "/sub"
  {
    StrLeCommon(a, "", "-1");
    StrLeCommon(a, "", "/sub");
    StrLeCommon(a, "-1", "/sub");
    assert a + "" == a;
    assert |a + "-1"| != |a| && |a + "/sub"| != |a|;
  }

  /** Only a name that continues `a` with `/` has the prefix `a/`. */
  lemma ExamplePrefixes(a: string)
    ensures !StartsWith(a, a + "/") && !StartsWith(a + "-1", a + "/") && StartsWith(a + "/sub", a + "/")
  {
    assert (a + "-1")[|a|] == '-' && (a + "/")[|a|] == '/';
    assert (a + "/sub")[..|a + "/"|] == a + "/";
  }

  lemma ExampleAfter(nbhd: Id, a: string)
    ensures var db := [ProjectDoc(a, nbhd, false), ProjectDoc(a + "-1", nbhd, false), ProjectDoc(a + "/sub", nbhd, false)];
      After(db, nbhd, a) == [a + "-1", a + "/sub"] && Below(db, nbhd, a) == [a + "/sub"]
  {
    var b, c := a + "-1", a + "/sub";
    var db := [ProjectDoc(a, nbhd, false), ProjectDoc(b, nbhd, false), ProjectDoc(c, nbhd, false)];
    ExampleOrder(a);
    ExamplePrefixes(a);
    var db1 := [ProjectDoc(b, nbhd, false), ProjectDoc(c, nbhd, false)];
    var db2 := [ProjectDoc(c, nbhd, false)];
    assert db[1..] == db1 && db1[1..] == db2 && db2[1..] == [];
    assert After(db2, nbhd, a) == [c];
    assert After(db1, nbhd, a) == [b, c];
    assert After(db, nbhd, a) == [] + [b, c];
    assert Below(db2, nbhd, a) == [c];
    assert Below(db1, nbhd, a) == [c];
    assert Below(db, nbhd, a) == [] + [c];
  }

  /** The documents of a user project `u/test-user`, a sibling
      `u/test-user-1` and a subproject `u/test-user/sub`: the sibling sorts
      between the other two, so as written no subproject is found. */
  lemma SubprojectsSkipped(nbhd: Id)
    ensures var db := [ProjectDoc("u/test-user", nbhd, false), ProjectDoc("u/test-user-1", nbhd, false),
                       ProjectDoc("u/test-user/sub", nbhd, false)];
      && SubprojectsAsWritten(db, nbhd, "u/test-user") == []
      && Subprojects(db, nbhd, "u/test-user") == ["u/test-user/sub"]
  {
    var a := "u/test-user";
    var b, c := a + "-1", a + "/sub";
    assert b == "u/test-user-1" && c == "u/test-user/sub";
    var db := [ProjectDoc(a, nbhd, false), ProjectDoc(b, nbhd, false), ProjectDoc(c, nbhd, false)];
    ExampleOrder(a);
    ExamplePrefixes(a);
    ExampleAfter(nbhd, a);
    assert Sorting.SortBy([b, c], Le()) == [b, c] by {
      assert [b, c][1..] == [c];
      assert [c][1..] == [];
    }
    assert Sorting.SortBy([c], Le()) == [c] by {
      assert [c][1..] == [];
    }
  }

  /** The names `delete_project` and `undelete_project` reach from `s`:
      `s` itself and, recursively, everything under each subproject. */
  function Cascade(db: seq<ProjectDoc>, nbhd: Id, s: string): set<string>
    decreases MaxLen(db) + 1 - |s|
  {
    if |s| > MaxLen(db) then {s}
    else {s} + (set sp, n | sp in Subprojects(db, nbhd, s) && n in Cascade(db, nbhd, sp) :: n)
  }

  function MaxLen(db: seq<ProjectDoc>): (r: nat)
    ensures forall d | d in db :: |d.shortname| <= r
  {
    if |db| == 0 then 0
    else
      var m := MaxLen(db[1..]);
      assert forall d | d in db :: d == db[0] || d in db[1..];
      if |db[0].shortname| > m then |db[0].shortname| else m
  }

  /** A project's own document or one below it in its neighborhood. */
  predicate InSubtree(d: ProjectDoc, nbhd: Id, s: string) {
    d.nbhd == nbhd && (d.shortname == s || StartsWith(d.shortname, s + "/"))
  }

  lemma PrefixTrans(n: string, sp: string, s: string)
    requires StartsWith(n, sp + "/") && StartsWith(sp, s + "/")
    ensures StartsWith(n, s + "/")
  {
    assert n[..|s + "/"|] == (n[..|sp + "/"|])[..|s + "/"|];
  }

  /** The cascade reaches exactly `s` and the names below it: with the
      complete `subprojects` the recursion neither misses a descendant nor
      leaves the subtree. */
  lemma {:induction false} CascadeClosed(db: seq<ProjectDoc>, nbhd: Id, s: string)
    ensures forall n :: n in Cascade(db, nbhd, s) <==>
      (n == s || exists d | d in db :: d.nbhd == nbhd && d.shortname == n && StartsWith(n, s + "/"))
    decreases MaxLen(db) + 1 - |s|
  {
    var c := Cascade(db, nbhd, s);
    if |s| > MaxLen(db) {
      forall n ensures !(exists d | d in db :: d.nbhd == nbhd && d.shortname == n && StartsWith(n, s + "/")) {
        forall d | d in db ensures !StartsWith(d.shortname, s + "/") {
          assert |d.shortname| <= MaxLen(db);
        }
      }
    } else {
      var subs := Subprojects(db, nbhd, s);
      forall sp | sp in subs ensures sp in Cascade(db, nbhd, sp) {
        CascadeClosed(db, nbhd, sp);
      }
      forall n ensures n in c <==> (n == s || exists d | d in db :: d.nbhd == nbhd && d.shortname == n && StartsWith(n, s + "/")) {
        if n in c && n != s {
          var sp :| sp in subs && n in Cascade(db, nbhd, sp);
          CascadeClosed(db, nbhd, sp);
          if n != sp {
            var d :| d in db && d.nbhd == nbhd && d.shortname == n && StartsWith(n, sp + "/");
            PrefixTrans(n, sp, s);
          }
        }
        if n != s && exists d | d in db :: d.nbhd == nbhd && d.shortname == n && StartsWith(n, s + "/") {
          assert n in subs;
          assert n in Cascade(db, nbhd, n);
        }
      }
    }
  }

  /** `delete_project`: marks the project and, recursively, its subprojects
      deleted. */
  function DeleteProject(db: seq<ProjectDoc>, nbhd: Id, s: string): (r: seq<ProjectDoc>)
    ensures |r| == |db|
    ensures forall i | 0 <= i < |db| ::
      r[i].shortname == db[i].shortname && r[i].nbhd == db[i].nbhd
      && r[i].deleted == (db[i].deleted || InSubtree(db[i], nbhd, s))
  {
    var marks := Cascade(db, nbhd, s);
    CascadeClosed(db, nbhd, s);
    seq(|db|, i requires 0 <= i < |db| =>
      var d := db[i];
      if d.nbhd == nbhd && d.shortname in marks then d.(deleted := true) else d)
  }

  /** `undelete_project`: clears the mark on the project and, recursively,
      on its subprojects. */
  function UndeleteProject(db: seq<ProjectDoc>, nbhd: Id, s: string): (r: seq<ProjectDoc>)
    ensures |r| == |db|
    ensures forall i | 0 <= i < |db| ::
      r[i].shortname == db[i].shortname && r[i].nbhd == db[i].nbhd
      && r[i].deleted == (db[i].deleted && !InSubtree(db[i], nbhd, s))
  {
    var marks := Cascade(db, nbhd, s);
    CascadeClosed(db, nbhd, s);
    seq(|db|, i requires 0 <= i < |db| =>
      var d := db[i];
      if d.nbhd == nbhd && d.shortname in marks then d.(deleted := false) else d)
  }

  /** The names `delete_project` and `undelete_project` as written reach
      from `s`: the recursion runs over the written `subprojects` scan. */
  function CascadeAsWritten(db: seq<ProjectDoc>, nbhd: Id, s: string): set<string>
    decreases MaxLen(db) + 1 - |s|
  {
    if |s| > MaxLen(db) then {s}
    else {s} + (set sp, n | sp in SubprojectsAsWritten(db, nbhd, s) && n in CascadeAsWritten(db, nbhd, sp) :: n)
  }

  /** Every name the sorted query lists is a project of the neighborhood. */
  lemma {:induction false} AfterMember(db: seq<ProjectDoc>, nbhd: Id, s: string, n: string)
    requires n in After(db, nbhd, s)
    ensures exists d | d in db :: d.nbhd == nbhd && d.shortname == n
    decreases |db|
  {
    var d := db[0];
    if d.nbhd == nbhd && Sorting.StrLe(s, d.shortname) && d.shortname != s && n == d.shortname {
      assert d in db;
    } else {
      AfterMember(db[1..], nbhd, s, n);
      var e :| e in db[1..] && e.nbhd == nbhd && e.shortname == n;
      assert e in db;
    }
  }

  /** The written scan lists only true subprojects (it may miss some). */
  lemma SubprojectsAsWrittenSound(db: seq<ProjectDoc>, nbhd: Id, s: string)
    ensures forall n | n in SubprojectsAsWritten(db, nbhd, s) :: n in Subprojects(db, nbhd, s)
  {
    var sorted := Sorting.SortBy(After(db, nbhd, s), Le());
    forall n | n in SubprojectsAsWritten(db, nbhd, s) ensures n in Subprojects(db, nbhd, s) {
      assert n in sorted && StartsWith(n, s + "/");
      assert n in multiset(sorted);
      AfterMember(db, nbhd, s, n);
    }
  }

  /** The written cascade stays inside the subtree: it reaches `s` and
      only names below it. */
  lemma {:induction false} CascadeAsWrittenWithin(db: seq<ProjectDoc>, nbhd: Id, s: string)
    ensures s in CascadeAsWritten(db, nbhd, s)
    ensures forall n | n in CascadeAsWritten(db, nbhd, s) :: n in Cascade(db, nbhd, s)
    decreases MaxLen(db) + 1 - |s|
  {
    if |s| <= MaxLen(db) {
      SubprojectsAsWrittenSound(db, nbhd, s);
      forall n | n in CascadeAsWritten(db, nbhd, s) ensures n in Cascade(db, nbhd, s) {
        if n != s {
          var sp :| sp in SubprojectsAsWritten(db, nbhd, s) && n in CascadeAsWritten(db, nbhd, sp);
          CascadeAsWrittenWithin(db, nbhd, sp);
          assert sp in Subprojects(db, nbhd, s);
        }
      }
    }
  }

  /** `delete_project` as written: the project is marked deleted, only
      projects of its subtree are newly marked, and nothing else changes. */
  function DeleteProjectAsWritten(db: seq<ProjectDoc>, nbhd: Id, s: string): (r: seq<ProjectDoc>)
    ensures |r| == |db|
    ensures forall i | 0 <= i < |db| ::
      && r[i].shortname == db[i].shortname && r[i].nbhd == db[i].nbhd
      && (db[i].deleted ==> r[i].deleted)
      && (db[i].nbhd == nbhd && db[i].shortname == s ==> r[i].deleted)
      && (r[i].deleted && !db[i].deleted ==> InSubtree(db[i], nbhd, s))
  {
    var marks := CascadeAsWritten(db, nbhd, s);
    CascadeAsWrittenWithin(db, nbhd, s);
    CascadeClosed(db, nbhd, s);
    seq(|db|, i requires 0 <= i < |db| =>
      var d := db[i];
      if d.nbhd == nbhd && d.shortname in marks then d.(deleted := true) else d)
  }

  /** `undelete_project` as written: the project is unmarked, only
      projects of its subtree are unmarked, and nothing else changes. */
  function UndeleteProjectAsWritten(db: seq<ProjectDoc>, nbhd: Id, s: string): (r: seq<ProjectDoc>)
    ensures |r| == |db|
    ensures forall i | 0 <= i < |db| ::
      && r[i].shortname == db[i].shortname && r[i].nbhd == db[i].nbhd
      && (!db[i].deleted ==> !r[i].deleted)
      && (db[i].nbhd == nbhd && db[i].shortname == s ==> !r[i].deleted)
      && (db[i].deleted && !r[i].deleted ==> InSubtree(db[i], nbhd, s))
  {
    var marks := CascadeAsWritten(db, nbhd, s);
    CascadeAsWrittenWithin(db, nbhd, s);
    CascadeClosed(db, nbhd, s);
    seq(|db|, i requires 0 <= i < |db| =>
      var d := db[i];
      if d.nbhd == nbhd && d.shortname in marks then d.(deleted := false) else d)
  }

  /** As written, deleting `u/test-user` next to a sibling `u/test-user-1`
      leaves its subproject `u/test-user/sub` live; the corrected cascade
      deletes it. */
  lemma DeleteSkipsSubproject(nbhd: Id)
    ensures var db := [ProjectDoc("u/test-user", nbhd, false), ProjectDoc("u/test-user-1", nbhd, false),
                       ProjectDoc("u/test-user/sub", nbhd, false)];
      && !DeleteProjectAsWritten(db, nbhd, "u/test-user")[2].deleted
      && DeleteProject(db, nbhd, "u/test-user")[2].deleted
  {
    var db := [ProjectDoc("u/test-user", nbhd, false), ProjectDoc("u/test-user-1", nbhd, false),
               ProjectDoc("u/test-user/sub", nbhd, false)];
    SubprojectsSkipped(nbhd);
    assert |"u/test-user"| <= MaxLen(db) by {
      assert db[0] in db;
    }
    assert CascadeAsWritten(db, nbhd, "u/test-user") == {"u/test-user"};
    assert "u/test-user/sub" != "u/test-user";
    assert InSubtree(db[2], nbhd, "u/test-user") by {
      ExamplePrefixes("u/test-user");
      assert "u/test-user" + "/sub" == "u/test-user/sub";
    }
  }

  /** Undeleting what was deleted leaves every project of the subtree
      undeleted and every other project as it was. */
  lemma UndeleteAfterDelete(db: seq<ProjectDoc>, nbhd: Id, s: string)
    ensures var r := UndeleteProject(DeleteProject(db, nbhd, s), nbhd, s);
      forall i | 0 <= i < |db| :: r[i] == (if InSubtree(db[i], nbhd, s) then db[i].(deleted := false) else db[i])
  {
  }
}
