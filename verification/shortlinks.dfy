/** The shortlink index: parsing `[project:app:artifact]` references,
    resolving a batch of them against the stored shortlinks, and the two
    upserts that keep the index in step with an artifact. */
module Shortlinks {
  import opened Wrappers
  import opened Text
  import opened RepoDocs

  // ---------------------------------------------------------------------
  // The documents involved

  /** The project of the request context (`c.project`). */
  datatype Context = Context(shortname: string, id: Id, nbhd: Id)

  /** A project as the index sees it: its mounted tools by mount point. */
  datatype ProjectDoc = ProjectDoc(id: Id, shortname: string, nbhd: Id, mounts: set<string>)

  /** A stored `Shortlink` document. */
  datatype Shortlink = Shortlink(refId: Id, projectId: Id, appConfigId: Id, link: string, url: string)

  /** The dictionary `_parse_link` returns. */
  datatype ParsedLink = ParsedLink(nbhd: Option<Id>, project: Option<string>, projectId: Option<Id>,
                                   app: Option<string>, artifact: string)

  function CtxName(ctx: Option<Context>): Option<string> {
    if ctx.Some? then Some(ctx.value.shortname) else None
  }

  function CtxId(ctx: Option<Context>): Option<Id> {
    if ctx.Some? then Some(ctx.value.id) else None
  }

  function CtxNbhd(ctx: Option<Context>): Option<Id> {
    if ctx.Some? then Some(ctx.value.nbhd) else None
  }

  /** `Project.query.get(shortname=…, neighborhood_id=…)`: the first
      project in collection order with that name in that neighborhood. */
  function FindByName(projects: seq<ProjectDoc>, name: string, nbhd: Option<Id>): (r: Option<ProjectDoc>)
    ensures r.Some? ==> r.value in projects && r.value.shortname == name && Some(r.value.nbhd) == nbhd
    ensures r.None? ==> forall p | p in projects :: p.shortname != name || Some(p.nbhd) != nbhd
  {
    if |projects| == 0 then None
    else if projects[0].shortname == name && Some(projects[0].nbhd) == nbhd then Some(projects[0])
    else FindByName(projects[1..], name, nbhd)
  }

  /** The relation `shortlink.project`: the project with that id, if any. */
  function FindById(projects: seq<ProjectDoc>, id: Id): (r: Option<ProjectDoc>)
    ensures r.Some? ==> r.value in projects && r.value.id == id
    ensures r.None? ==> forall p | p in projects :: p.id != id
  {
    if |projects| == 0 then None
    else if projects[0].id == id then Some(projects[0])
    else FindById(projects[1..], id)
  }

  // ---------------------------------------------------------------------
  // Shortlink._parse_link

  /** Strip white space, then at most one `[` in front and one `]` behind. */
  function Unwrap(s: string): (r: string)
    ensures |Strip(s)| - 2 <= |r| <= |Strip(s)|
  {
    var t := Strip(s);
    var u := if StartsWith(t, "[") then t[1..] else t;
    if EndsWith(u, "]") then u[..|u| - 1] else u
  }

  /** A bracketed reference unwraps to exactly what is between the
      brackets, whatever that is. */
  lemma UnwrapBracketed(body: string)
    ensures Unwrap("[" + body + "]") == body
  {
    var s := "[" + body + "]";
    assert s[0] == '[' && s[|s| - 1] == ']';
    assert LStrip(s) == s;
    assert RStrip(s) == s;
    assert Strip(s) == s;
    assert StartsWith(s, "[") && s[1..] == body + "]";
    assert EndsWith(body + "]", "]") && (body + "]")[..|body|] == body;
  }

  /** `_parse_link(s)`: three colon-separated parts name the project, the
      tool and the artifact; two the tool and the artifact; one only the
      artifact. The neighborhood is always the context's; a named project
      found in it supplies the project id, otherwise the context's stays.
      More than three parts give `None`. */
  function ParseLink(ctx: Option<Context>, projects: seq<ProjectDoc>, s: string): Option<ParsedLink>
  {
    var body := Unwrap(s);
    var parts := Split(body, ':');
    var nbhd := CtxNbhd(ctx);
    if |parts| == 3 then
      var found := FindByName(projects, parts[0], nbhd);
      var pid := if found.Some? then Some(found.value.id) else CtxId(ctx);
      Some(ParsedLink(nbhd, Some(parts[0]), pid, Some(parts[1]), parts[2]))
    else if |parts| == 2 then
      Some(ParsedLink(nbhd, CtxName(ctx), CtxId(ctx), Some(parts[0]), parts[1]))
    else if |parts| == 1 then
      Some(ParsedLink(nbhd, CtxName(ctx), CtxId(ctx), None, parts[0]))
    else None
  }

  /** The link parses exactly when it has at most three parts; the
      parts land in the fields by their number. */
  lemma ParseLinkParts(ctx: Option<Context>, projects: seq<ProjectDoc>, s: string)
    ensures var r := ParseLink(ctx, projects, s);
      r.None? <==> Count(Unwrap(s), ':') > 2
    ensures var r, parts := ParseLink(ctx, projects, s), Split(Unwrap(s), ':');
      |parts| <= 3 ==>
        && r.Some? && r.value.artifact == parts[|parts| - 1]
        && r.value.app == (if |parts| >= 2 then Some(parts[|parts| - 2]) else None)
        && r.value.project == (if |parts| == 3 then Some(parts[0]) else CtxName(ctx))
        && r.value.nbhd == CtxNbhd(ctx)
        && r.value.projectId == (if |parts| < 3 then CtxId(ctx)
                                 else var found := FindByName(projects, parts[0], CtxNbhd(ctx));
                                   if found.Some? then Some(found.value.id) else CtxId(ctx))
  {
    SplitCount(Unwrap(s), ':');
  }

  /** A parsed link puts the reference back together: the unwrapped text
      is the project, tool and artifact it found, joined by colons, none
      of them holding a colon; the parts it leaves out come from the
      context. */
  lemma ParseLinkShape(ctx: Option<Context>, projects: seq<ProjectDoc>, s: string)
    ensures var r := ParseLink(ctx, projects, s);
      r.Some? ==>
        && ':' !in r.value.artifact
        && (r.value.app.None? ==>
              r.value.artifact == Unwrap(s) && r.value.project == CtxName(ctx) && r.value.projectId == CtxId(ctx))
        && (r.value.app.Some? ==>
              && ':' !in r.value.app.value
              && ((Unwrap(s) == r.value.app.value + ":" + r.value.artifact && r.value.project == CtxName(ctx))
                  || (r.value.project.Some? && ':' !in r.value.project.value
                      && Unwrap(s) == r.value.project.value + ":" + r.value.app.value + ":" + r.value.artifact)))
  {
    var body := Unwrap(s);
    var parts := Split(body, ':');
    SplitCount(body, ':');
    JoinSplit(body, ':');
    if |parts| == 3 {
      assert parts == [parts[0], parts[1], parts[2]];
      JoinThree(parts[0], parts[1], parts[2]);
    } else if |parts| == 2 {
      assert parts == [parts[0], parts[1]];
      JoinTwo(parts[0], parts[1]);
    }
  }

  lemma JoinTwo(a: string, b: string)
    ensures Join([a, b], ":") == a + ":" + b
  {
    assert [a, b][1..] == [b];
  }

  lemma JoinThree(a: string, b: string, c: string)
    ensures Join([a, b, c], ":") == a + ":" + b + ":" + c
  {
    assert [a, b, c][1..] == [b, c];
    JoinTwo(b, c);
  }

  /** A reference as a user writes it: an optional project, an optional
      tool (present whenever the project is), and the artifact. */
  datatype Shorthand = Shorthand(project: Option<string>, app: Option<string>, artifact: string)

  predicate WellFormed(h: Shorthand) {
    && (h.project.Some? ==> h.app.Some?)
    && (h.project.Some? ==> ':' !in h.project.value)
    && (h.app.Some? ==> ':' !in h.app.value)
    && ':' !in h.artifact
  }

  function Parts(h: Shorthand): seq<string> {
    (if h.project.Some? then [h.project.value] else [])
    + (if h.app.Some? then [h.app.value] else [])
    + [h.artifact]
  }

  /** `[project:app:artifact]`, `[app:artifact]` or `[artifact]`. */
  function Format(h: Shorthand): string {
    "[" + Join(Parts(h), ":") + "]"
  }

  /** Parsing a formatted reference gives back its parts; the parts the
      reference leaves out come from the context. */
  lemma ParseFormat(ctx: Option<Context>, projects: seq<ProjectDoc>, h: Shorthand)
    requires WellFormed(h)
    ensures var r := ParseLink(ctx, projects, Format(h));
      && r.Some?
      && r.value.artifact == h.artifact
      && r.value.app == h.app
      && r.value.project == (if h.project.Some? then h.project else CtxName(ctx))
      && r.value.nbhd == CtxNbhd(ctx)
  {
    FormatSplits(h);
    ParseLinkParts(ctx, projects, Format(h));
    var parts := Parts(h);
    if h.project.Some? {
      assert |parts| == 3 && parts[2] == h.artifact && parts[1] == h.app.value && parts[0] == h.project.value;
    } else if h.app.Some? {
      assert |parts| == 2 && parts[1] == h.artifact && parts[0] == h.app.value;
    } else {
      assert |parts| == 1 && parts[0] == h.artifact;
    }
  }

  /** The text between the brackets splits into the reference's parts. */
  lemma FormatSplits(h: Shorthand)
    requires WellFormed(h)
    ensures Split(Unwrap(Format(h)), ':') == Parts(h)
  {
    var parts := Parts(h);
    assert forall i | 0 <= i < |parts| :: ':' !in parts[i] by {
      if h.project.Some? {
        assert parts == [h.project.value, h.app.value, h.artifact];
      } else if h.app.Some? {
        assert parts == [h.app.value, h.artifact];
      } else {
        assert parts == [h.artifact];
      }
    }
    var body := Join(parts, ":");
    UnwrapBracketed(body);
    SplitJoin(parts, ':');
  }

  // ---------------------------------------------------------------------
  // Shortlink.from_links: selecting the matches of one link

  /** `d['app']` is truthy. */
  predicate AppGiven(d: ParsedLink) {
    d.app.Some? && |d.app.value| > 0
  }

  const NoProject := "AttributeError: shortlink without a project"
  const Unparsed := "TypeError: a link with more than three parts"

  /** Whether a candidate survives the filters for the parsed link `d`:
      same project name and neighborhood, a tool configuration that is
      still mounted, and the requested mount point when one is given.
      A candidate whose project is gone raises. */
  function Survives(projects: seq<ProjectDoc>, apps: map<Id, string>, d: ParsedLink, m: Shortlink): (r: Result<bool>)
    ensures r.Err? <==> FindById(projects, m.projectId).None?
  {
    var p := FindById(projects, m.projectId);
    if p.None? then Err(NoProject)
    else
      Ok(&& Some(p.value.shortname) == d.project
         && Some(p.value.nbhd) == d.nbhd
         && m.appConfigId in apps
         && apps[m.appConfigId] in p.value.mounts
         && (AppGiven(d) ==> apps[m.appConfigId] == d.app.value))
  }

  predicate Matches(projects: seq<ProjectDoc>, apps: map<Id, string>, d: ParsedLink, m: Shortlink) {
    Survives(projects, apps, d, m) == Ok(true)
  }

  predicate Orphan(projects: seq<ProjectDoc>, m: Shortlink) {
    FindById(projects, m.projectId).None?
  }

  /** `list(matches)` after both generator filters: every candidate is
      looked at, so one orphan among them raises. */
  function Survivors(projects: seq<ProjectDoc>, apps: map<Id, string>, d: ParsedLink, ms: seq<Shortlink>): (r: Result<seq<Shortlink>>)
    ensures r.Err? <==> exists i | 0 <= i < |ms| :: Orphan(projects, ms[i])
    ensures r.Ok? ==> forall m :: m in r.value <==> m in ms && Matches(projects, apps, d, m)
    ensures r.Ok? && |r.value| > 0 ==> exists i | 0 <= i < |ms| ::
      ms[i] == r.value[0] && Matches(projects, apps, d, ms[i])
      && forall j | 0 <= j < i :: !Matches(projects, apps, d, ms[j])
    ensures r.Ok? && |r.value| == 0 ==> forall i | 0 <= i < |ms| :: !Matches(projects, apps, d, ms[i])
  {
    if |ms| == 0 then Ok([])
    else
      var head := Survives(projects, apps, d, ms[0]);
      var rest := Survivors(projects, apps, d, ms[1..]);
      var r := if head.Err? then Err(head.reason)
               else if rest.Err? then Err(rest.reason)
               else if head.value then Ok([ms[0]] + rest.value)
               else Ok(rest.value);
      SurvivorsStep(projects, apps, d, ms, rest, r);
      r
  }

  /** What `Survivors` promises about `r` for the candidates `ms`. */
  ghost predicate SurvivorsSpec(projects: seq<ProjectDoc>, apps: map<Id, string>, d: ParsedLink, ms: seq<Shortlink>,
                                r: Result<seq<Shortlink>>) {
    && (r.Err? <==> exists i | 0 <= i < |ms| :: Orphan(projects, ms[i]))
    && (r.Ok? ==> forall m :: m in r.value <==> m in ms && Matches(projects, apps, d, m))
    && (r.Ok? && |r.value| > 0 ==> exists i | 0 <= i < |ms| ::
          ms[i] == r.value[0] && Matches(projects, apps, d, ms[i])
          && forall j | 0 <= j < i :: !Matches(projects, apps, d, ms[j]))
    && (r.Ok? && |r.value| == 0 ==> forall i | 0 <= i < |ms| :: !Matches(projects, apps, d, ms[i]))
  }

  /** One more candidate in front keeps the survivor contract. */
  lemma SurvivorsStep(projects: seq<ProjectDoc>, apps: map<Id, string>, d: ParsedLink, ms: seq<Shortlink>,
                      rest: Result<seq<Shortlink>>, r: Result<seq<Shortlink>>)
    requires |ms| > 0 && SurvivorsSpec(projects, apps, d, ms[1..], rest)
    requires var head := Survives(projects, apps, d, ms[0]);
      r == if head.Err? then Err(head.reason)
           else if rest.Err? then Err(rest.reason)
           else if head.value then Ok([ms[0]] + rest.value)
           else Ok(rest.value)
    ensures SurvivorsSpec(projects, apps, d, ms, r)
  {
    var head := Survives(projects, apps, d, ms[0]);
    assert forall i | 0 < i < |ms| :: ms[i] == ms[1..][i - 1];
    if head.Err? {
      assert Orphan(projects, ms[0]);
    } else if rest.Err? {
      var i :| 0 <= i < |ms[1..]| && Orphan(projects, ms[1..][i]);
      assert Orphan(projects, ms[i + 1]);
    } else if head.value {
      assert forall m :: m in r.value <==> m == ms[0] || m in rest.value;
      assert r.value[0] == ms[0];
    } else if |rest.value| > 0 {
      var k :| 0 <= k < |ms[1..]| && ms[1..][k] == rest.value[0] && Matches(projects, apps, d, ms[1..][k])
        && forall j | 0 <= j < k :: !Matches(projects, apps, d, ms[1..][j]);
      assert ms[k + 1] == rest.value[0];
    }
  }

  /** The first survivor, or `None`. */
  function First(r: seq<Shortlink>): Option<Shortlink> {
    if |r| > 0 then Some(r[0]) else None
  }

  // ---------------------------------------------------------------------
  // Shortlink.from_links: the query and the grouping by link

  /** The query: stored shortlinks whose link is one of the artifacts and
      whose project is one of the projects, in collection order. */
  function Query(db: seq<Shortlink>, keys: set<string>, pids: set<Option<Id>>): (r: seq<Shortlink>)
    ensures forall m :: m in r <==> m in db && m.link in keys && Some(m.projectId) in pids
    ensures |r| <= |db|
  {
    if |db| == 0 then []
    else
      var rest := Query(db[1..], keys, pids);
      if db[0].link in keys && Some(db[0].projectId) in pids then [db[0]] + rest else rest
  }

  /** Every shortlink of `q` with link `a`, in order: what grouping by
      link is meant to collect. */
  function AllWith(q: seq<Shortlink>, a: string): (r: seq<Shortlink>)
    ensures forall m :: m in r <==> m in q && m.link == a
  {
    if |q| == 0 then []
    else if q[0].link == a then [q[0]] + AllWith(q[1..], a)
    else AllWith(q[1..], a)
  }

  /** `itertools.groupby(q, key=link)`: maximal runs of consecutive
      shortlinks with the same link. */
  function GroupRuns(q: seq<Shortlink>): (r: seq<seq<Shortlink>>)
    ensures forall i | 0 <= i < |r| :: |r[i]| > 0 && forall m | m in r[i] :: m.link == r[i][0].link
    ensures |q| > 0 ==> |r| > 0 && r[0][0] == q[0]
  {
    if |q| == 0 then []
    else
      var rest: seq<seq<Shortlink>> := GroupRuns(q[1..]);
      if |rest| > 0 && rest[0][0].link == q[0].link then [[q[0]] + rest[0]] + rest[1..]
      else [[q[0]]] + rest
  }

  function Flatten(runs: seq<seq<Shortlink>>): seq<Shortlink> {
    if |runs| == 0 then [] else runs[0] + Flatten(runs[1..])
  }

  /** The runs, put back together, are the query result. */
  lemma {:induction false} GroupRunsFlatten(q: seq<Shortlink>)
    ensures Flatten(GroupRuns(q)) == q
    decreases |q|
  {
    if |q| > 0 {
      GroupRunsFlatten(q[1..]);
      var rest: seq<seq<Shortlink>> := GroupRuns(q[1..]);
      if |rest| > 0 && rest[0][0].link == q[0].link {
        assert ([[q[0]] + rest[0]] + rest[1..])[1..] == rest[1..];
        assert Flatten(rest) == rest[0] + Flatten(rest[1..]);
      } else {
        assert ([[q[0]]] + rest)[1..] == rest;
      }
    }
  }

  /** `dict(groupby(…))`: a later run of the same link replaces an earlier
      one. */
  function RunDict(runs: seq<seq<Shortlink>>): (r: map<string, seq<Shortlink>>)
    requires forall i | 0 <= i < |runs| :: |runs[i]| > 0
    ensures forall a | a in r :: exists i | 0 <= i < |runs| :: r[a] == runs[i] && runs[i][0].link == a
  {
    if |runs| == 0 then map[]
    else
      var rest := RunDict(runs[1..]);
      var r := map[runs[0][0].link := runs[0]] + rest;
      assert forall a | a in r :: exists i | 0 <= i < |runs| :: r[a] == runs[i] && runs[i][0].link == a by {
        forall a | a in r ensures exists i | 0 <= i < |runs| :: r[a] == runs[i] && runs[i][0].link == a {
          if a in rest {
            var k :| 0 <= k < |runs[1..]| && rest[a] == runs[1..][k] && runs[1..][k][0].link == a;
            assert r[a] == runs[k + 1];
          } else {
            assert r[a] == runs[0];
          }
        }
      }
      r
  }

  /** A shortlink of one run is a shortlink of the runs put together. */
  lemma {:induction false} InFlatten(runs: seq<seq<Shortlink>>, i: nat, m: Shortlink)
    requires i < |runs| && m in runs[i]
    ensures m in Flatten(runs)
    decreases i
  {
    if i > 0 {
      InFlatten(runs[1..], i - 1, m);
    }
  }

  // ---------------------------------------------------------------------
  // Shortlink.from_links as written

  /** `parsed_links`: every link to its parse. */
  function ParseAll(ctx: Option<Context>, projects: seq<ProjectDoc>, links: seq<string>): map<string, Option<ParsedLink>> {
    map l | l in links :: ParseLink(ctx, projects, l)
  }

  /** The artifacts the parsed links name. */
  function Artifacts(parsed: map<string, Option<ParsedLink>>): set<string> {
    set l | l in parsed && parsed[l].Some? :: parsed[l].value.artifact
  }

  /** The project ids the parsed links carry. */
  function ProjectIds(parsed: map<string, Option<ParsedLink>>): set<Option<Id>> {
    set l | l in parsed && parsed[l].Some? :: parsed[l].value.projectId
  }

  /** `matches_by_artifact.get(a, [])`. */
  function Candidates(group: map<string, seq<Shortlink>>, a: string): seq<Shortlink> {
    if a in group then group[a] else []
  }

  /** What one link resolves to, given the candidates `group` holds for
      its artifact: the first survivor, or `None`. */
  function Pick(projects: seq<ProjectDoc>, apps: map<Id, string>, d: Option<ParsedLink>,
                group: map<string, seq<Shortlink>>): Result<Option<Shortlink>>
  {
    if d.None? then Ok(None)
    else
      var ok :- Survivors(projects, apps, d.value, Candidates(group, d.value.artifact));
      Ok(First(ok))
  }

  /** The final loop over the parsed links: every link to its pick; a
      pick that raises makes the whole batch raise. */
  function Resolve(projects: seq<ProjectDoc>, apps: map<Id, string>, parsed: map<string, Option<ParsedLink>>,
                   group: map<string, seq<Shortlink>>): Result<map<string, Option<Shortlink>>>
  {
    if exists l | l in parsed :: Pick(projects, apps, parsed[l], group).Err? then Err(NoProject)
    else Ok(map l | l in parsed :: Pick(projects, apps, parsed[l], group).value)
  }

  /** When no pick raises, the batch succeeds and every link gets its pick. */
  lemma ResolveOk(projects: seq<ProjectDoc>, apps: map<Id, string>, parsed: map<string, Option<ParsedLink>>,
                  group: map<string, seq<Shortlink>>, l: string)
    requires forall k | k in parsed :: Pick(projects, apps, parsed[k], group).Ok?
    requires l in parsed
    ensures Resolve(projects, apps, parsed, group).Ok?
    ensures Resolve(projects, apps, parsed, group).value.Keys == parsed.Keys
    ensures Resolve(projects, apps, parsed, group).value[l] == Pick(projects, apps, parsed[l], group).value
  {
  }

  /** `from_links(*links)` as written: an unparsable link raises, and the
      candidates of an artifact are the last run of that link in the
      query result. */
  function FromLinksAsWritten(ctx: Option<Context>, projects: seq<ProjectDoc>, apps: map<Id, string>,
                              db: seq<Shortlink>, links: seq<string>): Result<map<string, Option<Shortlink>>>
  {
    if |links| == 0 then Ok(map[])
    else
      var parsed := ParseAll(ctx, projects, links);
      if exists l | l in parsed :: parsed[l].None? then Err(Unparsed)
      else
        var q := Query(db, Artifacts(parsed), ProjectIds(parsed));
        Resolve(projects, apps, parsed, RunDict(GroupRuns(q)))
  }

  /** What the written `from_links` picks is sound: a link it answers with
      a shortlink names that shortlink's artifact, and the shortlink is
      stored, in a project of the batch, and passes the survivor filters.
      (It may miss one, see `UnsortedGroupLoses`.) */
  lemma FromLinksAsWrittenSound(ctx: Option<Context>, projects: seq<ProjectDoc>, apps: map<Id, string>,
                                db: seq<Shortlink>, links: seq<string>, l: string)
    requires l in links
    requires FromLinksAsWritten(ctx, projects, apps, db, links).Ok?
    ensures var res := FromLinksAsWritten(ctx, projects, apps, db, links).value;
      && l in res && ParseLink(ctx, projects, l).Some?
      && (res[l].Some? ==> res[l].value in db)
      && (res[l].Some? ==>
            Eligible(projects, apps, ProjectIds(ParseAll(ctx, projects, links)), ParseLink(ctx, projects, l).value, res[l].value))
  {
    var parsed := ParseAll(ctx, projects, links);
    var res := FromLinksAsWritten(ctx, projects, apps, db, links).value;
    assert l in parsed;
    var q := Query(db, Artifacts(parsed), ProjectIds(parsed));
    var runs := GroupRuns(q);
    var group := RunDict(runs);
    assert Pick(projects, apps, parsed[l], group) == Ok(res[l]);
    var d := parsed[l].value;
    if res[l].Some? {
      var m := res[l].value;
      var ms := Candidates(group, d.artifact);
      var ok := Survivors(projects, apps, d, ms).value;
      assert m == ok[0] && m in ok;
      assert m in ms && Matches(projects, apps, d, m);
      var i :| 0 <= i < |runs| && group[d.artifact] == runs[i] && runs[i][0].link == d.artifact;
      InFlatten(runs, i, m);
      GroupRunsFlatten(q);
    }
  }

  /** As written, a single link that does not parse makes the whole batch
      raise. */
  lemma UnparsedRaises(ctx: Option<Context>, projects: seq<ProjectDoc>, apps: map<Id, string>,
                       db: seq<Shortlink>, links: seq<string>, l: string)
    requires l in links && ParseLink(ctx, projects, l).None?
    ensures FromLinksAsWritten(ctx, projects, apps, db, links) == Err(Unparsed)
  {
    var parsed := ParseAll(ctx, projects, links);
    assert l in parsed && parsed[l].None?;
  }

  // ---------------------------------------------------------------------
  // Shortlink.from_links as intended

  /** `matches_by_artifact` as intended: each artifact to all the query's
      shortlinks of that link, in order. */
  function Grouped(parsed: map<string, Option<ParsedLink>>, q: seq<Shortlink>): map<string, seq<Shortlink>> {
    map a | a in Artifacts(parsed) :: AllWith(q, a)
  }

  /** `from_links(*links)`: every link maps to its first surviving match
      in collection order among all stored shortlinks of its artifact, or
      to `None`; a link with more than three parts maps to `None`. Only an
      orphaned shortlink among the candidates raises. */
  function FromLinks(ctx: Option<Context>, projects: seq<ProjectDoc>, apps: map<Id, string>,
                     db: seq<Shortlink>, links: seq<string>): Result<map<string, Option<Shortlink>>>
  {
    var parsed := ParseAll(ctx, projects, links);
    Resolve(projects, apps, parsed, Grouped(parsed, Query(db, Artifacts(parsed), ProjectIds(parsed))))
  }

  /** No links, no shortlinks, in both versions. */
  lemma FromLinksEmpty(ctx: Option<Context>, projects: seq<ProjectDoc>, apps: map<Id, string>, db: seq<Shortlink>)
    ensures FromLinksAsWritten(ctx, projects, apps, db, []) == Ok(map[])
    ensures FromLinks(ctx, projects, apps, db, []) == Ok(map[])
  {
    var parsed := ParseAll(ctx, projects, []);
    assert parsed.Keys == {};
    var group := Grouped(parsed, Query(db, Artifacts(parsed), ProjectIds(parsed)));
    assert Resolve(projects, apps, parsed, group).value.Keys == {};
  }

  /** Every link of the batch gets an answer, and only those. */
  lemma FromLinksKeys(ctx: Option<Context>, projects: seq<ProjectDoc>, apps: map<Id, string>,
                      db: seq<Shortlink>, links: seq<string>)
    requires FromLinks(ctx, projects, apps, db, links).Ok?
    ensures FromLinks(ctx, projects, apps, db, links).value.Keys == set l | l in links
  {
    var parsed := ParseAll(ctx, projects, links);
    assert parsed.Keys == set l | l in links;
  }

  /** The batch raises only when a stored shortlink among the candidates
      has lost its project. */
  lemma FromLinksRaises(ctx: Option<Context>, projects: seq<ProjectDoc>, apps: map<Id, string>,
                        db: seq<Shortlink>, links: seq<string>)
    requires FromLinks(ctx, projects, apps, db, links).Err?
    ensures exists m | m in db :: Orphan(projects, m)
  {
    var parsed := ParseAll(ctx, projects, links);
    var q := Query(db, Artifacts(parsed), ProjectIds(parsed));
    var group := Grouped(parsed, q);
    var l :| l in parsed && Pick(projects, apps, parsed[l], group).Err?;
    var d := parsed[l].value;
    var ms := Candidates(group, d.artifact);
    assert Survivors(projects, apps, d, ms).Err?;
    var j :| 0 <= j < |ms| && Orphan(projects, ms[j]);
    assert ms[j] in ms;
  }

  /** Whether a stored shortlink is a candidate for `d` when the batch
      names the projects `pids`. */
  predicate Eligible(projects: seq<ProjectDoc>, apps: map<Id, string>, pids: set<Option<Id>>,
                     d: ParsedLink, m: Shortlink) {
    m.link == d.artifact && Some(m.projectId) in pids && Matches(projects, apps, d, m)
  }

  /** `picked` is the earliest eligible shortlink of `db`, or `None` when
      no shortlink is eligible. */
  predicate ResolvedTo(projects: seq<ProjectDoc>, apps: map<Id, string>, db: seq<Shortlink>,
                       pids: set<Option<Id>>, d: ParsedLink, picked: Option<Shortlink>) {
    && (picked.None? ==> forall i | 0 <= i < |db| :: !Eligible(projects, apps, pids, d, db[i]))
    && (picked.Some? ==> exists i | 0 <= i < |db| ::
          && db[i] == picked.value && Eligible(projects, apps, pids, d, db[i])
          && forall j | 0 <= j < i :: !Eligible(projects, apps, pids, d, db[j]))
  }

  /** What `from_links` picks for each link: the earliest eligible
      shortlink of the collection, `None` exactly when there is none, and
      `None` for a link with more than three parts. */
  lemma FromLinksFirst(ctx: Option<Context>, projects: seq<ProjectDoc>, apps: map<Id, string>,
                       db: seq<Shortlink>, links: seq<string>, l: string)
    requires l in links
    requires FromLinks(ctx, projects, apps, db, links).Ok?
    ensures var res := FromLinks(ctx, projects, apps, db, links).value;
      var d := ParseLink(ctx, projects, l);
      && l in res
      && (d.None? ==> res[l].None?)
      && (d.Some? ==> ResolvedTo(projects, apps, db, ProjectIds(ParseAll(ctx, projects, links)), d.value, res[l]))
  {
    var parsed := ParseAll(ctx, projects, links);
    var q := Query(db, Artifacts(parsed), ProjectIds(parsed));
    var group := Grouped(parsed, q);
    var res := FromLinks(ctx, projects, apps, db, links).value;
    assert l in parsed;
    assert Pick(projects, apps, parsed[l], group) == Ok(res[l]);
    if parsed[l].Some? {
      var d := parsed[l].value;
      assert d.artifact in Artifacts(parsed);
      CandidatesFirst(projects, apps, db, Artifacts(parsed), ProjectIds(parsed), d);
    }
  }

  /** Filtering the query by artifact and then by the survivor conditions
      finds the earliest eligible shortlink of the collection. */
  lemma {:induction false} CandidatesFirst(projects: seq<ProjectDoc>, apps: map<Id, string>, db: seq<Shortlink>,
                                           keys: set<string>, pids: set<Option<Id>>, d: ParsedLink)
    requires d.artifact in keys
    requires Survivors(projects, apps, d, AllWith(Query(db, keys, pids), d.artifact)).Ok?
    ensures ResolvedTo(projects, apps, db, pids, d,
                       First(Survivors(projects, apps, d, AllWith(Query(db, keys, pids), d.artifact)).value))
    decreases |db|
  {
    if |db| > 0 {
      var tail := AllWith(Query(db[1..], keys, pids), d.artifact);
      var cands := AllWith(Query(db, keys, pids), d.artifact);
      var picked := First(Survivors(projects, apps, d, cands).value);
      if db[0].link == d.artifact && Some(db[0].projectId) in pids {
        assert cands == [db[0]] + tail;
        assert cands[1..] == tail;
        if Matches(projects, apps, d, db[0]) {
          assert picked == Some(db[0]);
          assert Eligible(projects, apps, pids, d, db[0]);
        } else {
          assert Survivors(projects, apps, d, cands).value == Survivors(projects, apps, d, tail).value;
          CandidatesFirst(projects, apps, db[1..], keys, pids, d);
          ShiftResolved(projects, apps, db, pids, d, picked);
        }
      } else {
        assert cands == tail;
        CandidatesFirst(projects, apps, db[1..], keys, pids, d);
        ShiftResolved(projects, apps, db, pids, d, picked);
      }
    }
  }

  /** A shortlink that is not eligible in front changes nothing. */
  lemma ShiftResolved(projects: seq<ProjectDoc>, apps: map<Id, string>, db: seq<Shortlink>,
                      pids: set<Option<Id>>, d: ParsedLink, picked: Option<Shortlink>)
    requires |db| > 0 && !Eligible(projects, apps, pids, d, db[0])
    requires ResolvedTo(projects, apps, db[1..], pids, d, picked)
    ensures ResolvedTo(projects, apps, db, pids, d, picked)
  {
    assert forall i | 1 <= i < |db| :: db[i] == db[1..][i - 1];
    if picked.Some? {
      var i :| 0 <= i < |db[1..]| && db[1..][i] == picked.value && Eligible(projects, apps, pids, d, db[1..][i])
        && forall j | 0 <= j < i :: !Eligible(projects, apps, pids, d, db[1..][j]);
      assert db[i + 1] == picked.value;
    }
  }

  // ---------------------------------------------------------------------
  // Where the written `from_links` departs from the intended one

  /** A link of four colon-separated parts does not parse. */
  lemma LongLinkUnparsed(ctx: Option<Context>, projects: seq<ProjectDoc>, parts: seq<string>)
    requires |parts| == 4 && forall i | 0 <= i < 4 :: ':' !in parts[i]
    ensures ParseLink(ctx, projects, "[" + Join(parts, ":") + "]").None?
  {
    var body := Join(parts, ":");
    UnwrapBracketed(body);
    SplitJoin(parts, ':');
    SplitCount(body, ':');
    ParseLinkParts(ctx, projects, "[" + body + "]");
  }

  /** A batch whose every link fails to parse resolves each link to `None`
      in the intended version. */
  lemma AllUnparsedNone(ctx: Option<Context>, projects: seq<ProjectDoc>, apps: map<Id, string>,
                        db: seq<Shortlink>, link: string)
    requires ParseLink(ctx, projects, link).None?
    ensures FromLinks(ctx, projects, apps, db, [link]) == Ok(map[link := None])
  {
    var parsed := ParseAll(ctx, projects, [link]);
    assert link in [link];
    assert link in parsed && parsed[link].None?;
    assert parsed.Keys == {link};
    var group := Grouped(parsed, Query(db, Artifacts(parsed), ProjectIds(parsed)));
    ResolveUnparsed(projects, apps, parsed, group, link);
    assert FromLinks(ctx, projects, apps, db, [link]) == Resolve(projects, apps, parsed, group);
  }

  /** A batch of one unparsed link resolves it to `None`. */
  lemma ResolveUnparsed(projects: seq<ProjectDoc>, apps: map<Id, string>, parsed: map<string, Option<ParsedLink>>,
                        group: map<string, seq<Shortlink>>, link: string)
    requires parsed.Keys == {link} && parsed[link].None?
    ensures Resolve(projects, apps, parsed, group) == Ok(map[link := None])
  {
    ResolveOk(projects, apps, parsed, group, link);
    SingletonMap(Resolve(projects, apps, parsed, group).value, link, None);
  }

  /** A link with four parts makes the whole batch raise instead of
      resolving to `None`. */
  lemma LongLinkRaises(ctx: Option<Context>, projects: seq<ProjectDoc>, apps: map<Id, string>,
                       db: seq<Shortlink>, parts: seq<string>)
    requires |parts| == 4 && forall i | 0 <= i < 4 :: ':' !in parts[i]
    ensures var link := "[" + Join(parts, ":") + "]";
      && FromLinksAsWritten(ctx, projects, apps, db, [link]) == Err(Unparsed)
      && FromLinks(ctx, projects, apps, db, [link]) == Ok(map[link := None])
  {
    var link := "[" + Join(parts, ":") + "]";
    LongLinkUnparsed(ctx, projects, parts);
    UnparsedRaises(ctx, projects, apps, db, [link], link);
    AllUnparsedNone(ctx, projects, apps, db, link);
  }

  /** The query keeps the whole collection when every shortlink names a
      wanted artifact and project. */
  lemma {:induction false} QueryAll(db: seq<Shortlink>, keys: set<string>, pids: set<Option<Id>>)
    requires forall m | m in db :: m.link in keys && Some(m.projectId) in pids
    ensures Query(db, keys, pids) == db
    decreases |db|
  {
    if |db| > 0 {
      assert forall m | m in db[1..] :: m in db;
      QueryAll(db[1..], keys, pids);
      assert [db[0]] + db[1..] == db;
    }
  }

  /** The world of the grouping example: two projects of one
      neighborhood with a wiki each, and three shortlinks in collection
      order where the two of artifact `x` are not adjacent. */
  const ExCtx: Option<Context> := Some(Context("p", "P", "N"))
  const ExProjects: seq<ProjectDoc> := [ProjectDoc("P", "p", "N", {"wiki"}), ProjectDoc("Q", "q", "N", {"wiki"})]
  const ExApps: map<Id, string> := map["A" := "wiki"]

  function ExDb(x: string, y: string): seq<Shortlink> {
    [Shortlink("r1", "P", "A", x, "u1"), Shortlink("r2", "P", "A", y, "u2"), Shortlink("r3", "Q", "A", x, "u3")]
  }

  function ExLinks(x: string, y: string): seq<string> {
    ["[" + x + "]", "[" + ("q" + ":" + "wiki" + ":" + x) + "]", "[" + y + "]"]
  }

  function ExParsedLinks(x: string, y: string): seq<ParsedLink> {
    [ParsedLink(Some("N"), Some("p"), Some("P"), None, x),
     ParsedLink(Some("N"), Some("q"), Some("Q"), Some("wiki"), x),
     ParsedLink(Some("N"), Some("p"), Some("P"), None, y)]
  }

  lemma ExParsed(x: string, y: string)
    requires ':' !in x && ':' !in y
    ensures var links, ds := ExLinks(x, y), ExParsedLinks(x, y);
      && ParseLink(ExCtx, ExProjects, links[0]) == Some(ds[0])
      && ParseLink(ExCtx, ExProjects, links[1]) == Some(ds[1])
      && ParseLink(ExCtx, ExProjects, links[2]) == Some(ds[2])
  {
    var ds := ExParsedLinks(x, y);
    ParseOne(ExCtx, ExProjects, x, ds[0]);
    ParseOne(ExCtx, ExProjects, y, ds[2]);
    assert FindByName(ExProjects, "q", Some("N")) == Some(ExProjects[1]);
    ParseThree(ExCtx, ExProjects, "q", "wiki", x, ds[1]);
  }

  /** An element of a three-element sequence is one of its three. */
  lemma OneOfThree<T>(s: seq<T>, x: T)
    requires |s| == 3 && x in s
    ensures x == s[0] || x == s[1] || x == s[2]
  {
    var i :| 0 <= i < 3 && s[i] == x;
  }

  /** A map with the single key `k` is the one-entry map of `k`. */
  lemma SingletonMap<K, V>(m: map<K, V>, k: K, v: V)
    requires m.Keys == {k} && m[k] == v
    ensures m == map[k := v]
  {
  }

  /** The parse map of a batch of three links. */
  lemma ParseAllThree(ctx: Option<Context>, projects: seq<ProjectDoc>, links: seq<string>)
    requires |links| == 3
    ensures var parsed := ParseAll(ctx, projects, links);
      && (forall l | l in parsed :: l == links[0] || l == links[1] || l == links[2])
      && forall i | 0 <= i < 3 :: links[i] in parsed && parsed[links[i]] == ParseLink(ctx, projects, links[i])
  {
    var parsed := ParseAll(ctx, projects, links);
    forall l | l in parsed ensures l == links[0] || l == links[1] || l == links[2] {
      assert l in links;
      OneOfThree(links, l);
    }
    assert forall i | 0 <= i < 3 :: links[i] in links;
  }

  /** The parse map of the example: its three links and their parses. */
  lemma ExParsedAll(x: string, y: string)
    requires ':' !in x && ':' !in y
    ensures var links, ds, parsed := ExLinks(x, y), ExParsedLinks(x, y), ParseAll(ExCtx, ExProjects, ExLinks(x, y));
      && (forall l | l in parsed :: l == links[0] || l == links[1] || l == links[2])
      && links[0] in parsed && parsed[links[0]] == Some(ds[0])
      && links[1] in parsed && parsed[links[1]] == Some(ds[1])
      && links[2] in parsed && parsed[links[2]] == Some(ds[2])
  {
    ExParsed(x, y);
    ParseAllThree(ExCtx, ExProjects, ExLinks(x, y));
  }

  /** A parsed link contributes its artifact and project to the query. */
  lemma ParsedKeys(parsed: map<string, Option<ParsedLink>>, l: string)
    requires l in parsed && parsed[l].Some?
    ensures parsed[l].value.artifact in Artifacts(parsed) && parsed[l].value.projectId in ProjectIds(parsed)
  {
  }

  /** The query of the example returns the whole collection. */
  lemma ExQuery(x: string, y: string)
    requires ':' !in x && ':' !in y
    ensures var parsed := ParseAll(ExCtx, ExProjects, ExLinks(x, y));
      && x in Artifacts(parsed) && y in Artifacts(parsed)
      && Query(ExDb(x, y), Artifacts(parsed), ProjectIds(parsed)) == ExDb(x, y)
  {
    var links := ExLinks(x, y);
    var parsed := ParseAll(ExCtx, ExProjects, links);
    ExParsedAll(x, y);
    ParsedKeys(parsed, links[0]);
    ParsedKeys(parsed, links[1]);
    ParsedKeys(parsed, links[2]);
    ExQueryAll(x, y, Artifacts(parsed), ProjectIds(parsed));
  }

  /** The example's collection passes a query that names both artifacts
      and both projects. */
  lemma ExQueryAll(x: string, y: string, keys: set<string>, pids: set<Option<Id>>)
    requires x in keys && y in keys && Some("P") in pids && Some("Q") in pids
    ensures Query(ExDb(x, y), keys, pids) == ExDb(x, y)
  {
    QueryAll(ExDb(x, y), keys, pids);
  }

  /** The runs of the example, made into a dictionary: the later run of
      `x` replaces the earlier one. */
  lemma ExGrouped(x: string, y: string)
    requires x != y
    ensures var byLink := RunDict(GroupRuns(ExDb(x, y)));
      x in byLink && byLink[x] == [ExDb(x, y)[2]] && y in byLink && byLink[y] == [ExDb(x, y)[1]]
  {
    var db := ExDb(x, y);
    var runs := [[db[0]], [db[1]], [db[2]]];
    ExRuns(x, y);
    assert runs[1..][1..] == runs[2..] && runs[2..][1..] == [];
    assert RunDict(runs[2..][1..]) == map[];
    RunDictStep(runs[2..], x);
    RunDictStep(runs[2..], y);
    RunDictStep(runs[1..], x);
    RunDictStep(runs[1..], y);
    RunDictStep(runs, x);
    RunDictStep(runs, y);
  }

  /** One step of building the dictionary: the first run's link is a key,
      and a later run of the same link wins. */
  lemma RunDictStep(runs: seq<seq<Shortlink>>, a: string)
    requires |runs| > 0 && forall i | 0 <= i < |runs| :: |runs[i]| > 0
    ensures var r, rest := RunDict(runs), RunDict(runs[1..]);
      && runs[0][0].link in r
      && (a in rest ==> a in r && r[a] == rest[a])
      && (a !in rest && a == runs[0][0].link ==> r[a] == runs[0])
      && (a != runs[0][0].link ==> (a in r <==> a in rest))
  {
  }

  /** Grouping the example's collection by link gives three runs. */
  lemma ExRuns(x: string, y: string)
    requires x != y
    ensures var db := ExDb(x, y); GroupRuns(db) == [[db[0]], [db[1]], [db[2]]]
  {
    var db := ExDb(x, y);
    assert db[2..][1..] == [];
    assert GroupRuns(db[2..]) == [[db[2]]];
    assert db[1..][1..] == db[2..];
    assert GroupRuns(db[1..]) == [[db[1]]] + [[db[2]]];
    assert db[1..] == db[1..];
  }

  lemma ExSurvivors(x: string, y: string)
    ensures var db, ds := ExDb(x, y), ExParsedLinks(x, y);
      && Survivors(ExProjects, ExApps, ds[0], [db[2]]) == Ok([])
      && Survivors(ExProjects, ExApps, ds[0], [db[0], db[2]]) == Ok([db[0]])
      && Survivors(ExProjects, ExApps, ds[1], [db[2]]) == Ok([db[2]])
      && Survivors(ExProjects, ExApps, ds[1], [db[0], db[2]]) == Ok([db[2]])
      && Survivors(ExProjects, ExApps, ds[2], [db[1]]) == Ok([db[1]])
  {
    var db, ds := ExDb(x, y), ExParsedLinks(x, y);
    assert FindById(ExProjects, "P") == Some(ExProjects[0]);
    assert FindById(ExProjects, "Q") == Some(ExProjects[1]);
    assert Survives(ExProjects, ExApps, ds[0], db[2]) == Ok(false);
    assert Survives(ExProjects, ExApps, ds[0], db[0]) == Ok(true);
    assert Survives(ExProjects, ExApps, ds[1], db[2]) == Ok(true);
    assert Survives(ExProjects, ExApps, ds[1], db[0]) == Ok(false);
    assert Survives(ExProjects, ExApps, ds[2], db[1]) == Ok(true);
    assert [db[0], db[2]][1..] == [db[2]];
    assert [db[2]][1..] == [] && [db[1]][1..] == [];
    assert [db[2]] + [] == [db[2]] && [db[1]] + [] == [db[1]] && [db[0]] + [] == [db[0]];
    assert Survivors(ExProjects, ExApps, ds[1], [db[2]]) == Ok([db[2]]);
    assert Survivors(ExProjects, ExApps, ds[2], [db[1]]) == Ok([db[1]]);
    assert Survivors(ExProjects, ExApps, ds[0], [db[0], db[2]]) == Ok([db[0]] + []);
  }

  /** Grouping an unsorted query result keeps only the last run of each
      link: the valid shortlink of artifact `x` in project `p` is lost
      behind the run of `y` and the later `x` of project `q`. */
  lemma UnsortedGroupLoses(x: string, y: string)
    requires ':' !in x && ':' !in y && x != y
    ensures var links, db := ExLinks(x, y), ExDb(x, y);
      && FromLinksAsWritten(ExCtx, ExProjects, ExApps, db, links).Ok?
      && FromLinksAsWritten(ExCtx, ExProjects, ExApps, db, links).value[links[0]] == None
      && FromLinks(ExCtx, ExProjects, ExApps, db, links).Ok?
      && FromLinks(ExCtx, ExProjects, ExApps, db, links).value[links[0]] == Some(db[0])
  {
    ExWritten(x, y);
    ExIntended(x, y);
  }

  /** As written, the first link of the example resolves to `None`. */
  lemma ExWritten(x: string, y: string)
    requires ':' !in x && ':' !in y && x != y
    ensures var links, db := ExLinks(x, y), ExDb(x, y);
      && FromLinksAsWritten(ExCtx, ExProjects, ExApps, db, links).Ok?
      && links[0] in FromLinksAsWritten(ExCtx, ExProjects, ExApps, db, links).value
      && FromLinksAsWritten(ExCtx, ExProjects, ExApps, db, links).value[links[0]] == None
  {
    var links, db := ExLinks(x, y), ExDb(x, y);
    var parsed := ParseAll(ExCtx, ExProjects, links);
    ExParsedAll(x, y);
    ExQuery(x, y);
    ExGrouped(x, y);
    var written := RunDict(GroupRuns(db));
    ExWrittenPicks(x, y, parsed, written);
    AllParsedOfThree(parsed, links[0], links[1], links[2]);
    ResolveOk(ExProjects, ExApps, parsed, written, links[0]);
    assert FromLinksAsWritten(ExCtx, ExProjects, ExApps, db, links) == Resolve(ExProjects, ExApps, parsed, written);
  }

  /** The picks of the example with the candidates of the last runs. */
  lemma ExWrittenPicks(x: string, y: string, parsed: map<string, Option<ParsedLink>>, written: map<string, seq<Shortlink>>)
    requires ':' !in x && ':' !in y
    requires parsed == ParseAll(ExCtx, ExProjects, ExLinks(x, y))
    requires x in written && written[x] == [ExDb(x, y)[2]] && y in written && written[y] == [ExDb(x, y)[1]]
    ensures forall k | k in parsed :: Pick(ExProjects, ExApps, parsed[k], written).Ok?
    ensures ExLinks(x, y)[0] in parsed && Pick(ExProjects, ExApps, parsed[ExLinks(x, y)[0]], written) == Ok(None)
  {
    var ds := ExParsedLinks(x, y);
    ExParsedAll(x, y);
    ExPicksWritten(x, y, written);
    var links := ExLinks(x, y);
    PicksOfThree(ExProjects, ExApps, parsed, written, links[0], links[1], links[2], ds[0], ds[1], ds[2]);
  }

  /** The picks of the example's three parses with the candidates of the
      last runs. */
  lemma ExPicksWritten(x: string, y: string, written: map<string, seq<Shortlink>>)
    requires x in written && written[x] == [ExDb(x, y)[2]] && y in written && written[y] == [ExDb(x, y)[1]]
    ensures var ds := ExParsedLinks(x, y);
      && Pick(ExProjects, ExApps, Some(ds[0]), written) == Ok(None)
      && Pick(ExProjects, ExApps, Some(ds[1]), written).Ok?
      && Pick(ExProjects, ExApps, Some(ds[2]), written).Ok?
  {
    ExSurvivors(x, y);
  }

  /** A batch of three links that all parse has no unparsed link. */
  lemma AllParsedOfThree(parsed: map<string, Option<ParsedLink>>, l0: string, l1: string, l2: string)
    requires forall l | l in parsed :: l == l0 || l == l1 || l == l2
    requires l0 in parsed && parsed[l0].Some? && l1 in parsed && parsed[l1].Some? && l2 in parsed && parsed[l2].Some?
    ensures !exists l | l in parsed :: parsed[l].None?
  {
  }

  /** When the batch is three parsed links and none of their picks
      raises, no pick of the batch raises. */
  lemma PicksOfThree(projects: seq<ProjectDoc>, apps: map<Id, string>, parsed: map<string, Option<ParsedLink>>,
                     group: map<string, seq<Shortlink>>, l0: string, l1: string, l2: string,
                     d0: ParsedLink, d1: ParsedLink, d2: ParsedLink)
    requires forall l | l in parsed :: l == l0 || l == l1 || l == l2
    requires l0 in parsed && parsed[l0] == Some(d0)
    requires l1 in parsed && parsed[l1] == Some(d1)
    requires l2 in parsed && parsed[l2] == Some(d2)
    requires Pick(projects, apps, Some(d0), group).Ok?
    requires Pick(projects, apps, Some(d1), group).Ok?
    requires Pick(projects, apps, Some(d2), group).Ok?
    ensures forall k | k in parsed :: Pick(projects, apps, parsed[k], group).Ok?
  {
  }

  /** As intended, the first link of the example resolves to the
      shortlink of its own project. */
  lemma ExIntended(x: string, y: string)
    requires ':' !in x && ':' !in y && x != y
    ensures var links, db := ExLinks(x, y), ExDb(x, y);
      && FromLinks(ExCtx, ExProjects, ExApps, db, links).Ok?
      && links[0] in FromLinks(ExCtx, ExProjects, ExApps, db, links).value
      && FromLinks(ExCtx, ExProjects, ExApps, db, links).value[links[0]] == Some(db[0])
  {
    var links, db := ExLinks(x, y), ExDb(x, y);
    var parsed := ParseAll(ExCtx, ExProjects, links);
    ExParsedAll(x, y);
    ExQuery(x, y);
    var intended := Grouped(parsed, Query(db, Artifacts(parsed), ProjectIds(parsed)));
    ExAllWith(x, y);
    assert Candidates(intended, x) == [db[0], db[2]] && Candidates(intended, y) == [db[1]];
    ExIntendedPicks(x, y, parsed, intended);
    ResolveOk(ExProjects, ExApps, parsed, intended, links[0]);
  }

  /** All the shortlinks of each link of the example, in order. */
  lemma ExAllWith(x: string, y: string)
    requires x != y
    ensures var db := ExDb(x, y); AllWith(db, x) == [db[0], db[2]] && AllWith(db, y) == [db[1]]
  {
    var db := ExDb(x, y);
    assert AllWith(db[2..], x) == [db[2]];
    assert AllWith(db[1..], x) == [db[2]];
    assert AllWith(db[2..], y) == [];
    assert AllWith(db[1..], y) == [db[1]];
  }

  /** The picks of the example with all candidates of each artifact. */
  lemma ExIntendedPicks(x: string, y: string, parsed: map<string, Option<ParsedLink>>, intended: map<string, seq<Shortlink>>)
    requires ':' !in x && ':' !in y
    requires parsed == ParseAll(ExCtx, ExProjects, ExLinks(x, y))
    requires Candidates(intended, x) == [ExDb(x, y)[0], ExDb(x, y)[2]] && Candidates(intended, y) == [ExDb(x, y)[1]]
    ensures forall k | k in parsed :: Pick(ExProjects, ExApps, parsed[k], intended).Ok?
    ensures ExLinks(x, y)[0] in parsed
    ensures Pick(ExProjects, ExApps, parsed[ExLinks(x, y)[0]], intended) == Ok(Some(ExDb(x, y)[0]))
  {
    var ds := ExParsedLinks(x, y);
    ExParsedAll(x, y);
    ExPicksIntended(x, y, intended);
    var links := ExLinks(x, y);
    PicksOfThree(ExProjects, ExApps, parsed, intended, links[0], links[1], links[2], ds[0], ds[1], ds[2]);
  }

  /** The picks of the example's three parses with all candidates of each
      artifact. */
  lemma ExPicksIntended(x: string, y: string, intended: map<string, seq<Shortlink>>)
    requires Candidates(intended, x) == [ExDb(x, y)[0], ExDb(x, y)[2]] && Candidates(intended, y) == [ExDb(x, y)[1]]
    ensures var ds := ExParsedLinks(x, y);
      && Pick(ExProjects, ExApps, Some(ds[0]), intended) == Ok(Some(ExDb(x, y)[0]))
      && Pick(ExProjects, ExApps, Some(ds[1]), intended).Ok?
      && Pick(ExProjects, ExApps, Some(ds[2]), intended).Ok?
  {
    ExSurvivors(x, y);
  }

  lemma ParseOne(ctx: Option<Context>, projects: seq<ProjectDoc>, artifact: string, d: ParsedLink)
    requires ':' !in artifact
    requires d == ParsedLink(CtxNbhd(ctx), CtxName(ctx), CtxId(ctx), None, artifact)
    ensures ParseLink(ctx, projects, "[" + artifact + "]") == Some(d)
  {
    var h := Shorthand(None, None, artifact);
    FormatSplits(h);
    ParseLinkParts(ctx, projects, Format(h));
    assert Parts(h) == [artifact];
    assert Format(h) == "[" + artifact + "]";
  }

  /** A bracketed link of three parts names the project, the tool and
      the artifact. */
  lemma ParseThree(ctx: Option<Context>, projects: seq<ProjectDoc>, project: string, app: string, artifact: string,
                   d: ParsedLink)
    requires ':' !in project && ':' !in app && ':' !in artifact
    requires var found := FindByName(projects, project, CtxNbhd(ctx));
      d == ParsedLink(CtxNbhd(ctx), Some(project), if found.Some? then Some(found.value.id) else CtxId(ctx),
                      Some(app), artifact)
    ensures ParseLink(ctx, projects, "[" + (project + ":" + app + ":" + artifact) + "]") == Some(d)
  {
    var h := Shorthand(Some(project), Some(app), artifact);
    var link := "[" + (project + ":" + app + ":" + artifact) + "]";
    FormatSplits(h);
    assert Parts(h) == [project, app, artifact];
    JoinThree(project, app, artifact);
    assert Format(h) == link;
    assert Split(Unwrap(link), ':') == [project, app, artifact];
  }

  // ---------------------------------------------------------------------
  // ArtifactReference.from_artifact and Shortlink.from_artifact

  /** What the index needs to know of an artifact. */
  datatype Artifact = Artifact(indexId: Id, cls: string, id: Id, projectId: Id, appConfigId: Id,
                               shorthand: Option<string>, url: string)

  /** A stored `ArtifactReference`: how to load the artifact back. */
  datatype ArtifactRef = ArtifactRef(id: Id, cls: string, projectId: Id, appConfigId: Id, artifactId: Id)

  /** `ArtifactReference.from_artifact(a)`: the reference stored under the
      artifact's index id, created from the artifact when there is none. */
  function ReferenceFor(refs: map<Id, ArtifactRef>, a: Artifact): (r: (ArtifactRef, map<Id, ArtifactRef>))
    ensures a.indexId in r.1 && r.1[a.indexId] == r.0 && r.1.Keys == refs.Keys + {a.indexId}
    ensures a.indexId in refs ==> r == (refs[a.indexId], refs)
    ensures a.indexId !in refs ==>
      && r.0 == ArtifactRef(a.indexId, a.cls, a.projectId, a.appConfigId, a.id)
      && forall k | k in refs :: r.1[k] == refs[k]
  {
    if a.indexId in refs then (refs[a.indexId], refs)
    else
      var ref := ArtifactRef(a.indexId, a.cls, a.projectId, a.appConfigId, a.id);
      (ref, refs[a.indexId := ref])
  }

  /** The upsert is idempotent: a second call finds the first call's
      reference and changes nothing. */
  lemma ReferenceForIdempotent(refs: map<Id, ArtifactRef>, a: Artifact)
    ensures var (ref, after) := ReferenceFor(refs, a);
      ReferenceFor(after, a) == (ref, after)
  {
  }

  /** Shortlinks are stored under their reference id. */
  predicate Keyed(links: map<Id, Shortlink>) {
    forall k | k in links :: links[k].refId == k
  }

  /** `Shortlink.from_artifact(a)`: the shortlink stored under the
      artifact's index id (created with the artifact's project and tool
      when there is none) takes the artifact's shorthand id and url; an
      artifact without a shorthand id loses its shortlink and gets `None`. */
  function ShortlinkFor(links: map<Id, Shortlink>, a: Artifact): (r: (Option<Shortlink>, map<Id, Shortlink>))
    requires Keyed(links)
    ensures Keyed(r.1)
    ensures a.shorthand.None? ==> r.0.None? && r.1 == links - {a.indexId}
    ensures a.shorthand.Some? ==>
      && r.0.Some? && r.1 == links[a.indexId := r.0.value]
      && r.0.value.refId == a.indexId && r.0.value.link == a.shorthand.value && r.0.value.url == a.url
      && (a.indexId in links ==>
            r.0.value.projectId == links[a.indexId].projectId && r.0.value.appConfigId == links[a.indexId].appConfigId)
      && (a.indexId !in links ==> r.0.value.projectId == a.projectId && r.0.value.appConfigId == a.appConfigId)
  {
    var found := if a.indexId in links then links[a.indexId]
                 else Shortlink(a.indexId, a.projectId, a.appConfigId, "", "");
    if a.shorthand.None? then (None, links - {a.indexId})
    else
      var s := found.(link := a.shorthand.value, url := a.url);
      (Some(s), links[a.indexId := s])
  }

  /** Refreshing a shortlink twice from the same artifact is refreshing it
      once. */
  lemma ShortlinkForIdempotent(links: map<Id, Shortlink>, a: Artifact)
    requires Keyed(links)
    ensures var first := ShortlinkFor(links, a);
      ShortlinkFor(first.1, a) == first
  {
    var first := ShortlinkFor(links, a);
    if a.shorthand.Some? {
      var s := first.0.value;
      assert first.1[a.indexId] == s;
      assert s.(link := a.shorthand.value, url := a.url) == s;
      assert first.1[a.indexId := s] == first.1;
    } else {
      assert first.1 - {a.indexId} == first.1;
    }
  }
}
