/** The local authentication provider and the project registration rules
    (`Allura/allura/lib/plugin.py`): user-name matching and user-project
    URLs, the salted password layout, the registration rate limit, the
    guards of `register_project`, `name_taken`, and the groups a
    neighborhood's project template sets up. */
module AuthRegistration {
  import opened Wrappers
  import opened RepoDocs
  import opened ProjectMounts
  import AdminGroups

  // ---------------------------------------------------------------------
  // by_username and project_url

  predicate Dash(c: char) {
    c == '-' || c == '_'
  }

  /** One position of the pattern `by_username` builds: after escaping,
      each `-` or `_` of the query becomes the class `[-_]`, every other
      character stands for itself. */
  predicate CharMatch(q: char, c: char) {
    q == c || (Dash(q) && Dash(c))
  }

  predicate SameShape(q: string, n: string)
    requires |q| <= |n|
  {
    forall i | 0 <= i < |q| :: CharMatch(q[i], n[i])
  }

  /** Whether `^pattern$` matches a stored name: position by position over
      the whole name, where `$` also accepts one final newline. */
  predicate NameMatches(q: string, n: string) {
    || (|n| == |q| && SameShape(q, n))
    || (|n| == |q| + 1 && n[|q|] == '\n' && SameShape(q, n))
  }

  /** `by_username`: the first stored user name the pattern matches. */
  function ByUsername(stored: seq<string>, q: string): (r: Option<string>)
    ensures r.None? <==> forall n | n in stored :: !NameMatches(q, n)
    ensures r.Some? ==> exists k | 0 <= k < |stored| ::
      stored[k] == r.value && NameMatches(q, r.value) && forall j | 0 <= j < k :: !NameMatches(q, stored[j])
  {
    if |stored| == 0 then None
    else if NameMatches(q, stored[0]) then Some(stored[0])
    else
      var r := ByUsername(stored[1..], q);
      assert forall n :: n in stored <==> n == stored[0] || n in stored[1..];
      assert r.Some? ==> exists k | 0 <= k < |stored| ::
        stored[k] == r.value && NameMatches(q, r.value) && forall j | 0 <= j < k :: !NameMatches(q, stored[j]) by {
        if r.Some? {
          var k :| 0 <= k < |stored[1..]| && stored[1..][k] == r.value && forall j | 0 <= j < k :: !NameMatches(q, stored[1..][j]);
          assert stored[k + 1] == r.value;
        }
      }
      r
  }

  /** `_` replaced by `-`. */
  function Canon(s: string): (r: string)
    ensures |r| == |s|
    ensures forall i | 0 <= i < |s| :: r[i] == (if s[i] == '_' then '-' else s[i])
  {
    if |s| == 0 then "" else [if s[0] == '_' then '-' else s[0]] + Canon(s[1..])
  }

  /** `project_url`: `/u/` + the user name with `_` as `-` + `/`. */
  function ProjectUrl(username: string): string {
    "/u/" + Canon(username) + "/"
  }

  /** Two user names get the same project URL exactly when either one,
      used as a `by_username` query, matches the whole other name. */
  lemma {:induction false} SameUrlIffMatch(a: string, b: string)
    ensures ProjectUrl(a) == ProjectUrl(b) <==> |a| == |b| && SameShape(a, b)
  {
    if ProjectUrl(a) == ProjectUrl(b) {
      assert Canon(a) == ProjectUrl(a)[3..|ProjectUrl(a)| - 1];
      assert Canon(b) == ProjectUrl(b)[3..|ProjectUrl(b)| - 1];
      forall i | 0 <= i < |a| ensures CharMatch(a[i], b[i]) {
        assert Canon(a)[i] == Canon(b)[i];
      }
    }
    if |a| == |b| && SameShape(a, b) {
      assert Canon(a) == Canon(b) by {
        forall i | 0 <= i < |a| ensures Canon(a)[i] == Canon(b)[i] {
          assert CharMatch(a[i], b[i]);
        }
      }
    }
  }

  /** A stored name is found by its own project URL's name, whatever
      other names the store holds before it only if they share that URL. */
  lemma ByUsernameFindsSelf(stored: seq<string>, n: string)
    requires n in stored
    ensures ByUsername(stored, n).Some?
    ensures |ByUsername(stored, n).value| == |n| ==> ProjectUrl(ByUsername(stored, n).value) == ProjectUrl(n)
  {
    assert NameMatches(n, n);
    var r := ByUsername(stored, n).value;
    if |r| == |n| {
      SameUrlIffMatch(n, r);
    }
  }

  // ---------------------------------------------------------------------
  // Passwords

  /** The tag in front of every stored password. */
  const Scheme := "sha256"

  /** `_encode_password` with its salt supplied: `digest` stands for the
      base64 of the SHA-256 digest of salt and password. */
  function EncodePassword(digest: string -> string, password: string, salt: string): (r: string)
    ensures |r| >= |Scheme| + |salt|
    ensures r[..|Scheme|] == Scheme && r[|Scheme|..|Scheme| + |salt|] == salt
    ensures r[|Scheme| + |salt|..] == digest(salt + password)
  {
    Scheme + salt + digest(salt + password)
  }

  /** Python's slice `s[a:b]` for `0 <= a <= b`: clamped to the string. */
  function Slice(s: string, a: nat, b: nat): (r: string)
    requires a <= b
    ensures |r| <= b - a
    ensures b <= |s| ==> r == s[a..b]
  {
    if a >= |s| then "" else if b >= |s| then s[a..] else s[a..b]
  }

  /** `_validate_password`: `stored` is `None` for a missing user and the
      stored hash otherwise (empty when there is none); the salt is read
      back from the `saltLen` characters after the tag. */
  function ValidatePassword(digest: string -> string, saltLen: nat, stored: Option<string>, password: string): (r: bool)
    ensures stored.None? || stored == Some("") ==> !r
    ensures r ==> exists salt :: |salt| <= saltLen && stored == Some(EncodePassword(digest, password, salt))
  {
    if stored.None? || stored.value == "" then false
    else
      var salt := Slice(stored.value, |Scheme|, |Scheme| + saltLen);
      EncodePassword(digest, password, salt) == stored.value
  }

  /** Encoding with a salt of the configured length and then validating
      the same password succeeds. */
  lemma EncodeThenValidate(digest: string -> string, saltLen: nat, password: string, salt: string)
    requires |salt| == saltLen
    ensures ValidatePassword(digest, saltLen, Some(EncodePassword(digest, password, salt)), password)
  {
    var e := EncodePassword(digest, password, salt);
    assert Slice(e, |Scheme|, |Scheme| + saltLen) == salt;
  }

  /** With a collision-free digest, only the encoded password validates. */
  lemma ValidateOnlyThatPassword(digest: string -> string, saltLen: nat, password: string, other: string, salt: string)
    requires forall x, y :: digest(x) == digest(y) ==> x == y
    requires |salt| == saltLen
    requires ValidatePassword(digest, saltLen, Some(EncodePassword(digest, password, salt)), other)
    ensures other == password
  {
    var e := EncodePassword(digest, password, salt);
    assert Slice(e, |Scheme|, |Scheme| + saltLen) == salt;
    assert EncodePassword(digest, other, salt) == e;
    assert digest(salt + other) == digest(salt + password);
    assert (salt + other)[|salt|..] == other && (salt + password)[|salt|..] == password;
  }

  // ---------------------------------------------------------------------
  // rate_limit

  const MicrosPerSecond := 1000000

  /** The user's age in whole seconds from the exact age in microseconds:
      Python 2's `/` on integers, rounding down, which is what Dafny's `/`
      does for a positive divisor. */
  function UserAge(ageMicros: int): (r: int)
    ensures r * MicrosPerSecond <= ageMicros < (r + 1) * MicrosPerSecond
  {
    ageMicros / MicrosPerSecond
  }

  /** Whether one `(rate, count)` pair forbids another project. */
  predicate Limits(age: int, projectCount: int, limit: (int, int)) {
    age < limit.0 && projectCount >= limit.1
  }

  /** `rate_limit`: neighborhood admins are exempt; otherwise any
      configured pair the user is too young and too prolific for raises. */
  function RateLimit(isAdmin: bool, ageMicros: int, projectCount: int, limits: seq<(int, int)>): (r: Result<()>)
    ensures r.Err? <==> !isAdmin && exists l | l in limits :: Limits(UserAge(ageMicros), projectCount, l)
    ensures r.Err? ==> r.reason == "ProjectRatelimitError"
  {
    if isAdmin || |limits| == 0 then Ok(())
    else if Limits(UserAge(ageMicros), projectCount, limits[0]) then Err("ProjectRatelimitError")
    else
      assert forall l :: l in limits <==> l == limits[0] || l in limits[1..];
      RateLimit(isAdmin, ageMicros, projectCount, limits[1..])
  }

  /** A younger user with as many projects or more stays limited. */
  lemma RateLimitMonotone(isAdmin: bool, ageMicros: int, projectCount: int, limits: seq<(int, int)>, younger: int, more: int)
    requires RateLimit(isAdmin, ageMicros, projectCount, limits).Err?
    requires younger <= ageMicros && more >= projectCount
    ensures RateLimit(isAdmin, younger, more, limits).Err?
  {
    var l :| l in limits && Limits(UserAge(ageMicros), projectCount, l);
    assert UserAge(younger) <= UserAge(ageMicros);
    assert Limits(UserAge(younger), more, l);
  }

  // ---------------------------------------------------------------------
  // register_project and name_taken

  /** What registration reads of the neighborhood. */
  datatype Neighborhood = Neighborhood(privateProjects: bool, maxProjects: Option<int>)

  /** The shortname without its slashes. */
  function NoSlashes(s: string): (r: string)
    ensures forall c :: c in r <==> c in s && c != '/'
  {
    if |s| == 0 then "" else (if s[0] == '/' then "" else [s[0]]) + NoSlashes(s[1..])
  }

  /** The guards of `register_project`, in source order: private projects
      where the neighborhood forbids them, the project limit (`count`
      counts the neighborhood's live non-neighborhood projects), the rate
      limit, the shortname pattern (`validName` is `re_path_portion`'s
      match) and a taken shortname. */
  function RegisterProject(nb: Neighborhood, count: int, isAdmin: bool, ageMicros: int, projectCount: int,
                           limits: seq<(int, int)>, validName: string -> bool, existing: set<string>,
                           shortname: string, privateProject: bool): (r: Result<string>)
    ensures r.Ok? <==>
      (&& (nb.privateProjects || !privateProject)
       && (nb.maxProjects.None? || count < nb.maxProjects.value)
       && RateLimit(isAdmin, ageMicros, projectCount, limits).Ok?
       && validName(NoSlashes(shortname))
       && shortname !in existing)
    ensures r.Ok? ==> r.value == shortname
    ensures !nb.privateProjects && privateProject ==> r.Err? && r.reason == "ValueError: private projects are disabled"
  {
    if !nb.privateProjects && privateProject then Err("ValueError: private projects are disabled")
    else if nb.maxProjects.Some? && count >= nb.maxProjects.value then Err("ProjectOverlimitError")
    else if RateLimit(isAdmin, ageMicros, projectCount, limits).Err? then Err("ProjectRatelimitError")
    else if !validName(NoSlashes(shortname)) then Err("ValueError: Invalid project shortname: " + shortname)
    else if shortname in existing then Err("ProjectConflict")
    else Ok(shortname)
  }

  /** A taken shortname never registers, and an earlier guard's error wins
      over the conflict. */
  lemma RegisterConflict(nb: Neighborhood, count: int, isAdmin: bool, ageMicros: int, projectCount: int,
                         limits: seq<(int, int)>, validName: string -> bool, existing: set<string>,
                         shortname: string, privateProject: bool)
    requires shortname in existing
    ensures var r := RegisterProject(nb, count, isAdmin, ageMicros, projectCount, limits, validName, existing, shortname, privateProject);
      r.Err? && (r.reason == "ProjectConflict" <==>
        (&& (nb.privateProjects || !privateProject)
         && (nb.maxProjects.None? || count < nb.maxProjects.value)
         && RateLimit(isAdmin, ageMicros, projectCount, limits).Ok?
         && validName(NoSlashes(shortname))))
  {
  }

  /** `name_taken`: the taken message for an existing project, else the
      message of the first extra check whose pattern matches (`matches`
      is `re.match`), else `False`, here `None`. */
  function NameTaken(exists_: bool, checks: seq<(string, string)>, matches: (string, string) -> bool, name: string): (r: Option<string>)
    ensures exists_ ==> r == Some("This project name is taken.")
    ensures !exists_ ==> (r.None? <==> forall c | c in checks :: !matches(c.1, name))
    ensures !exists_ && r.Some? ==> exists k | 0 <= k < |checks| ::
      r.value == checks[k].0 && matches(checks[k].1, name) && forall j | 0 <= j < k :: !matches(checks[j].1, name)
  {
    if exists_ then Some("This project name is taken.")
    else if |checks| == 0 then None
    else if matches(checks[0].1, name) then Some(checks[0].0)
    else
      var r := NameTaken(false, checks[1..], matches, name);
      assert forall c :: c in checks <==> c == checks[0] || c in checks[1..];
      assert r.Some? ==> exists k | 0 <= k < |checks| ::
        r.value == checks[k].0 && matches(checks[k].1, name) && forall j | 0 <= j < k :: !matches(checks[j].1, name) by {
        if r.Some? {
          var k :| 0 <= k < |checks[1..]| && r.value == checks[1..][k].0 && matches(checks[1..][k].1, name)
            && forall j | 0 <= j < k :: !matches(checks[1..][j].1, name);
          assert checks[k + 1] == checks[1..][k];
        }
      }
      r
  }

  // ---------------------------------------------------------------------
  // The project template's groups

  /** One entry of the template's `groups`. */
  datatype GroupSpec = GroupSpec(name: Option<string>, permissions: seq<string>, usernames: seq<string>)

  /** What the template groups change: the groups by name, the ACL and the
      users' project roles. */
  datatype Setup = Setup(groups: map<string, Id>, acl: seq<Ace>, users: AdminGroups.Users)

  /** The template's permissions the project declares, each once. */
  function Common(wanted: seq<string>, perms: seq<string>): (r: seq<string>)
    ensures forall p :: p in r <==> p in wanted && p in perms
    ensures forall i, j | 0 <= i < j < |r| :: r[i] != r[j]
  {
    if |wanted| == 0 then []
    else
      var rest := Common(wanted[1..], perms);
      assert forall p :: p in wanted <==> p == wanted[0] || p in wanted[1..];
      if wanted[0] in perms && wanted[0] !in rest then [wanted[0]] + rest else rest
  }

  /** Whether a template user name resolves to a real user. `lookup` is
      `User.by_username` giving the stored user name. */
  predicate Resolves(users: AdminGroups.Users, lookup: string -> Option<string>, u: string) {
    lookup(u).Some? && lookup(u).value in users && users[lookup(u).value].id.Some?
  }

  /** The user loop: each resolved user gets the group unless already
      holding it. */
  function AddToGroup(users: AdminGroups.Users, g: Id, usernames: seq<string>, lookup: string -> Option<string>): (r: AdminGroups.Users)
    ensures r.Keys == users.Keys
    ensures forall n | n in users ::
      || r[n] == users[n]
      || (g !in users[n].roles && r[n] == users[n].(roles := users[n].roles + [g])
          && exists u | u in usernames :: Resolves(users, lookup, u) && lookup(u).value == n)
    ensures forall n | n in users :: g in r[n].roles <==>
      g in users[n].roles || exists u | u in usernames :: Resolves(users, lookup, u) && lookup(u).value == n
  {
    if |usernames| == 0 then users
    else
      var init := usernames[..|usernames| - 1];
      var u := usernames[|usernames| - 1];
      assert forall x :: x in usernames <==> x in init || x == u;
      var r := AddToGroup(users, g, init, lookup);
      if !Resolves(users, lookup, u) || g in r[lookup(u).value].roles then r
      else
        var n := lookup(u).value;
        r[n := r[n].(roles := r[n].roles + [g])]
  }

  /** One template group: a group needs a name; a new group also needs a
      permission the project declares and gets an allow entry for each;
      an existing group keeps its permissions; either way the listed users
      join it. `newId` is the id a new group gets. */
  function TemplateGroup(st: Setup, projectPerms: seq<string>, spec: GroupSpec, newId: Id, lookup: string -> Option<string>): (r: Setup)
    ensures spec.name.None? || spec.name == Some("") ==> r == st
    ensures r.groups.Keys == st.groups.Keys || (spec.name.Some? && r.groups == st.groups[spec.name.value := newId])
    ensures r.groups != st.groups ==> Common(spec.permissions, projectPerms) != []
  {
    match spec.name
    case None => st
    case Some(name) =>
      if name == "" then st
      else
        var perms := Common(spec.permissions, projectPerms);
        if name !in st.groups && perms == [] then st
        else
          var g := if name in st.groups then st.groups[name] else newId;
          var acl := if name in st.groups then st.acl
                     else st.acl + seq(|perms|, i requires 0 <= i < |perms| => Ace(Allow, newId, perms[i]));
          Setup(st.groups[name := g], acl, AddToGroup(st.users, g, spec.usernames, lookup))
  }

  /** A new group gets allow entries for exactly the template's
      permissions the project declares; an existing group's entries are
      untouched. */
  lemma TemplateGroupAcl(st: Setup, projectPerms: seq<string>, spec: GroupSpec, newId: Id, lookup: string -> Option<string>)
    requires spec.name.Some? && spec.name.value != ""
    ensures var r := TemplateGroup(st, projectPerms, spec, newId, lookup);
      && (spec.name.value in st.groups ==> r.acl == st.acl)
      && (spec.name.value !in st.groups ==> forall a :: a in r.acl <==>
            a in st.acl || (a.access == Allow && a.roleId == newId && a.permission in spec.permissions && a.permission in projectPerms))
  {
    var r := TemplateGroup(st, projectPerms, spec, newId, lookup);
    var perms := Common(spec.permissions, projectPerms);
    if spec.name.value !in st.groups && perms != [] {
      var extra := seq(|perms|, i requires 0 <= i < |perms| => Ace(Allow, newId, perms[i]));
      assert r.acl == st.acl + extra;
      forall a ensures a in extra <==> a.access == Allow && a.roleId == newId && a.permission in perms {
        if a.access == Allow && a.roleId == newId && a.permission in perms {
          var i :| 0 <= i < |perms| && perms[i] == a.permission;
          assert extra[i] == a;
        }
      }
    }
  }

  /** Template users join a group at most once. */
  lemma TemplateUsersOnce(st: Setup, projectPerms: seq<string>, spec: GroupSpec, newId: Id, lookup: string -> Option<string>, n: string)
    requires spec.name.Some? && spec.name.value in st.groups
    requires n in st.users
    ensures var g := st.groups[spec.name.value];
      var r := TemplateGroup(st, projectPerms, spec, newId, lookup);
      multiset(r.users[n].roles)[g] == (if g in st.users[n].roles then multiset(st.users[n].roles)[g] else if g in r.users[n].roles then 1 else 0)
  {
    var name := spec.name.value;
    var g := st.groups[name];
    var u := AddToGroup(st.users, g, spec.usernames, lookup);
    if name == "" {
      AddedOnce(st.users[n].roles, st.users[n].roles, g);
    } else {
      assert TemplateGroup(st, projectPerms, spec, newId, lookup) == Setup(st.groups[name := g], st.acl, u);
      AddedOnce(st.users[n].roles, u[n].roles, g);
    }
  }

  lemma AddedOnce(before: seq<Id>, after: seq<Id>, g: Id)
    requires after == before || (g !in before && after == before + [g])
    ensures multiset(after)[g] == (if g in before then multiset(before)[g] else if g in after then 1 else 0)
  {
    if after != before {
      assert multiset(after) == multiset(before) + multiset{g};
    }
  }
}
