/** The rule cores of the Markdown extensions: HTML escaping of plain-text
    blocks, the `~~~~` fenced-code preprocessor, the placeholder stash that
    hides macros and artifact links from Markdown, the expansion of an
    artifact link, and the rewriting of relative links. */
module Markdown {
  import opened Wrappers
  import opened Text
  import opened RepoDocs
  import Shortlinks

  // ---------------------------------------------------------------------
  // PlainTextPreprocessor._escape

  /** `_escape(txt)`: four replacements, `&` first so that the entities
      the later ones introduce are not escaped again. */
  function Escape(txt: string): (r: string)
    ensures '<' !in r && '>' !in r && '"' !in r
  {
    var a := ReplaceChar(txt, '&', "&amp;");
    var b := ReplaceChar(a, '<', "&lt;");
    var c := ReplaceChar(b, '>', "&gt;");
    assert '<' !in b && '<' !in c by { assert '<' !in "&gt;"; }
    assert '>' !in c;
    ReplaceChar(c, '"', "&quot;")
  }

  /** The entity of one character, or the character itself. */
  function EscapeChar(ch: char): string {
    if ch == '&' then "&amp;"
    else if ch == '<' then "&lt;"
    else if ch == '>' then "&gt;"
    else if ch == '"' then "&quot;"
    else [ch]
  }

  /** Escaping character by character. */
  function EscapeEach(txt: string): string {
    if |txt| == 0 then "" else EscapeChar(txt[0]) + EscapeEach(txt[1..])
  }

  lemma {:induction false} ReplaceAppend(a: string, b: string, c: char, r: string)
    ensures ReplaceChar(a + b, c, r) == ReplaceChar(a, c, r) + ReplaceChar(b, c, r)
    decreases |a|
  {
    if |a| > 0 {
      assert (a + b)[0] == a[0] && (a + b)[1..] == a[1..] + b;
      ReplaceAppend(a[1..], b, c, r);
    } else {
      assert a + b == b;
    }
  }

  lemma ReplaceOne(ch: char, c: char, r: string)
    ensures ReplaceChar([ch], c, r) == if ch == c then r else [ch]
  {
    assert [ch][1..] == [];
  }

  lemma EscapeOne(ch: char)
    ensures Escape([ch]) == EscapeChar(ch)
  {
    ReplaceOne(ch, '&', "&amp;");
    var a := ReplaceChar([ch], '&', "&amp;");
    assert '<' !in "&amp;" && '>' !in "&amp;" && '"' !in "&amp;";
    if ch == '&' {
      assert a == "&amp;";
    } else {
      assert a == [ch];
      ReplaceOne(ch, '<', "&lt;");
      var b := ReplaceChar(a, '<', "&lt;");
      assert '>' !in "&lt;" && '"' !in "&lt;";
      if ch != '<' {
        assert b == [ch];
        ReplaceOne(ch, '>', "&gt;");
        var c := ReplaceChar(b, '>', "&gt;");
        assert '"' !in "&gt;";
        if ch != '>' {
          assert c == [ch];
          ReplaceOne(ch, '"', "&quot;");
        }
      }
    }
  }

  /** Replacing `&` first makes the four passes one character-wise
      escape: no entity is escaped twice. */
  lemma {:induction false} EscapeIsCharwise(txt: string)
    ensures Escape(txt) == EscapeEach(txt)
    decreases |txt|
  {
    if |txt| > 0 {
      var h, t := [txt[0]], txt[1..];
      assert txt == h + t;
      var a1, a2 := ReplaceChar(h, '&', "&amp;"), ReplaceChar(t, '&', "&amp;");
      ReplaceAppend(h, t, '&', "&amp;");
      var b1, b2 := ReplaceChar(a1, '<', "&lt;"), ReplaceChar(a2, '<', "&lt;");
      ReplaceAppend(a1, a2, '<', "&lt;");
      var c1, c2 := ReplaceChar(b1, '>', "&gt;"), ReplaceChar(b2, '>', "&gt;");
      ReplaceAppend(b1, b2, '>', "&gt;");
      ReplaceAppend(c1, c2, '"', "&quot;");
      EscapeOne(txt[0]);
      EscapeIsCharwise(t);
    }
  }

  /** The entity decoder for the four entities. */
  function Unescape(s: string): string
    decreases |s|
  {
    if |s| == 0 then ""
    else if StartsWith(s, "&amp;") then "&" + Unescape(s[5..])
    else if StartsWith(s, "&lt;") then "<" + Unescape(s[4..])
    else if StartsWith(s, "&gt;") then ">" + Unescape(s[4..])
    else if StartsWith(s, "&quot;") then "\"" + Unescape(s[6..])
    else [s[0]] + Unescape(s[1..])
  }

  /** Escaped text decodes to the original. */
  lemma {:induction false} EscapeRoundTrip(txt: string)
    ensures Unescape(Escape(txt)) == txt
  {
    EscapeIsCharwise(txt);
    UnescapeEach(txt);
  }

  lemma {:induction false} UnescapeEach(txt: string)
    ensures Unescape(EscapeEach(txt)) == txt
    decreases |txt|
  {
    if |txt| > 0 {
      var ch, rest := txt[0], EscapeEach(txt[1..]);
      var s := EscapeChar(ch) + rest;
      UnescapeEach(txt[1..]);
      if ch == '&' {
        assert s[..5] == "&amp;" && s[5..] == rest;
        assert Unescape(s) == "&" + Unescape(rest);
      } else if ch == '<' {
        assert s[..4] == "&lt;" && s[4..] == rest && s[1] == 'l';
        assert !StartsWith(s, "&amp;") by { if |s| >= 5 { assert s[..5][1] == 'l'; } }
        assert Unescape(s) == "<" + Unescape(rest);
      } else if ch == '>' {
        assert s[..4] == "&gt;" && s[4..] == rest && s[1] == 'g';
        assert !StartsWith(s, "&amp;") by { if |s| >= 5 { assert s[..5][1] == 'g'; } }
        assert !StartsWith(s, "&lt;") by { assert s[..4][1] == 'g'; }
        assert Unescape(s) == ">" + Unescape(rest);
      } else if ch == '"' {
        assert s[..6] == "&quot;" && s[6..] == rest && s[1] == 'q';
        assert !StartsWith(s, "&amp;") by { assert s[..5][1] == 'q'; }
        assert !StartsWith(s, "&lt;") by { assert s[..4][1] == 'q'; }
        assert !StartsWith(s, "&gt;") by { assert s[..4][1] == 'q'; }
        assert Unescape(s) == "\"" + Unescape(rest);
      } else {
        assert s[0] == ch && s[1..] == rest;
        assert !StartsWith(s, "&amp;") by { if |s| >= 5 { assert s[..5][0] == ch; } }
        assert !StartsWith(s, "&lt;") by { if |s| >= 4 { assert s[..4][0] == ch; } }
        assert !StartsWith(s, "&gt;") by { if |s| >= 4 { assert s[..4][0] == ch; } }
        assert !StartsWith(s, "&quot;") by { if |s| >= 6 { assert s[..6][0] == ch; } }
        assert Unescape(s) == [ch] + Unescape(rest);
      }
      assert [ch] + txt[1..] == txt;
    }
  }

  // ---------------------------------------------------------------------
  // FencedCodeProcessor.run

  /** `FencedCodeProcessor.pattern`. */
  const Fence: string := "~~~~"

  const Indent: string := "    "

  predicate IsFence(line: string) {
    StartsWith(LStrip(line), Fence)
  }

  function Fences(lines: seq<string>): nat {
    if |lines| == 0 then 0 else (if IsFence(lines[0]) then 1 else 0) + Fences(lines[1..])
  }

  /** The lines that are not fences, in order. */
  function Kept(lines: seq<string>): (r: seq<string>)
    ensures |r| == |lines| - Fences(lines)
  {
    if |lines| == 0 then []
    else if IsFence(lines[0]) then Kept(lines[1..])
    else [lines[0]] + Kept(lines[1..])
  }

  /** `run(lines)` from the state `inBlock`: fences are dropped and flip
      the state; lines inside a block are indented by four spaces. */
  function Fenced(lines: seq<string>, inBlock: bool): seq<string>
    decreases |lines|
  {
    if |lines| == 0 then []
    else if IsFence(lines[0]) then Fenced(lines[1..], !inBlock)
    else [if inBlock then Indent + lines[0] else lines[0]] + Fenced(lines[1..], inBlock)
  }

  /** The output has one line per kept line, in order: the line itself or
      the line indented. */
  lemma {:induction false} FencedKeeps(lines: seq<string>, inBlock: bool)
    ensures var r := Fenced(lines, inBlock);
      && |r| == |lines| - Fences(lines)
      && forall k | 0 <= k < |r| :: r[k] == Kept(lines)[k] || r[k] == Indent + Kept(lines)[k]
    decreases |lines|
  {
    if |lines| > 0 {
      FencedKeeps(lines[1..], if IsFence(lines[0]) then !inBlock else inBlock);
    }
  }

  /** Text without fences passes unchanged. */
  lemma {:induction false} NoFenceUnchanged(lines: seq<string>)
    requires Fences(lines) == 0
    ensures Fenced(lines, false) == lines
    decreases |lines|
  {
    if |lines| > 0 {
      NoFenceUnchanged(lines[1..]);
    }
  }

  function IndentAll(lines: seq<string>): (r: seq<string>)
    ensures |r| == |lines| && forall k | 0 <= k < |lines| :: r[k] == Indent + lines[k]
  {
    if |lines| == 0 then [] else [Indent + lines[0]] + IndentAll(lines[1..])
  }

  lemma {:induction false} InsideBlock(body: seq<string>, rest: seq<string>)
    requires Fences(body) == 0
    ensures Fenced(body + rest, true) == IndentAll(body) + Fenced(rest, true)
    decreases |body|
  {
    if |body| > 0 {
      assert (body + rest)[0] == body[0] && (body + rest)[1..] == body[1..] + rest;
      InsideBlock(body[1..], rest);
    } else {
      assert body + rest == rest;
    }
  }

  /** A fenced block becomes an indented code block; the fences go. */
  lemma FencedBlock(body: seq<string>, rest: seq<string>)
    requires Fences(body) == 0
    ensures Fenced([Fence] + body + [Fence] + rest, false) == IndentAll(body) + Fenced(rest, false)
  {
    var after := [Fence] + rest;
    var lines := [Fence] + body + after;
    assert [Fence] + body + [Fence] + rest == lines;
    assert lines[0] == Fence && lines[1..] == body + after;
    FenceFlips(lines, false);
    assert Fenced(lines, false) == Fenced(body + after, true);
    InsideBlock(body, after);
    assert Fenced(lines, false) == IndentAll(body) + Fenced(after, true);
    assert after[0] == Fence && after[1..] == rest;
    FenceFlips(after, true);
  }

  /** A fence line flips the state and produces nothing. */
  lemma FenceFlips(lines: seq<string>, inBlock: bool)
    requires |lines| > 0 && lines[0] == Fence
    ensures Fenced(lines, inBlock) == Fenced(lines[1..], !inBlock)
  {
    FenceIsFence();
  }

  lemma FenceIsFence()
    ensures IsFence(Fence)
  {
    assert !IsSpace(Fence[0]);
    assert LStrip(Fence) == Fence;
  }

  // ---------------------------------------------------------------------
  // ForgeProcessor.store / _store / lookup

  /** The named stashes of values hidden from Markdown. */
  type Stash = map<string, seq<string>>

  /** `reset()`: the three empty stashes. */
  const EmptyStash: Stash := map["artifact" := [], "macro" := [], "link" := []]

  const PlaceholderPrefix: string := "#jgimwge"
  const PlaceholderSuffix: string := "#khjhhj"

  function DigitChar(d: nat): char
    requires d < 10
  {
    ('0' as int + d) as char
  }

  /** The decimal digits of `n`. */
  function Decimal(n: nat): (s: string)
    ensures |s| > 0 && forall i | 0 <= i < |s| :: '0' <= s[i] <= '9'
  {
    if n < 10 then [DigitChar(n)] else Decimal(n / 10) + [DigitChar(n % 10)]
  }

  function Zeros(k: nat): (s: string)
    ensures |s| == k && forall i | 0 <= i < k :: s[i] == '0'
  {
    if k == 0 then "" else "0" + Zeros(k - 1)
  }

  /** `%.4d` of a non-negative number: at least four digits. */
  function Pad4(n: nat): (s: string)
    ensures |s| >= 4 && forall i | 0 <= i < |s| :: '0' <= s[i] <= '9'
  {
    var d := Decimal(n);
    if |d| < 4 then Zeros(4 - |d|) + d else d
  }

  /** `placeholder % (stash_name, index)`. */
  function Placeholder(name: string, index: nat): string {
    PlaceholderPrefix + ":" + name + ":" + Pad4(index) + PlaceholderSuffix
  }

  /** `_store(stash_name, value)`: the value goes at the end of its stash
      and the placeholder names its stash and position. */
  function StoreIn(stash: Stash, name: string, value: string): (r: (string, Stash))
    requires name in stash
    ensures name in r.1 && r.1[name] == stash[name] + [value]
    ensures forall n | n in stash && n != name :: n in r.1 && r.1[n] == stash[n]
    ensures r.1.Keys == stash.Keys
    ensures r.0 == Placeholder(name, |stash[name]|)
  {
    (Placeholder(name, |stash[name]|), stash[name := stash[name] + [value]])
  }

  /** `lookup(stash, id)`: the stored value, or `''` for an unknown stash
      or a position past its end. */
  function Lookup(stash: Stash, name: string, id: nat): string {
    var s := if name in stash then stash[name] else [];
    if id >= |s| then "" else s[id]
  }

  /** After a store, its position looks up the stored value, and every
      earlier position is unchanged. */
  lemma StoreThenLookup(stash: Stash, name: string, value: string)
    requires name in stash
    ensures var (_, st) := StoreIn(stash, name, value);
      && Lookup(st, name, |stash[name]|) == value
      && (forall n: string, i: nat :: (n != name || i < |stash[name]|) ==> Lookup(st, n, i) == Lookup(stash, n, i))
  {
  }

  /** `\w`: letters, digits and underscore (ASCII). */
  predicate IsWord(c: char) {
    'a' <= c <= 'z' || 'A' <= c <= 'Z' || '0' <= c <= '9' || c == '_'
  }

  predicate IsDigit(c: char) {
    '0' <= c <= '9'
  }

  /** The number a digit string denotes. */
  function ParseDecimal(s: string): nat
    requires forall i | 0 <= i < |s| :: IsDigit(s[i])
    decreases |s|
  {
    if |s| == 0 then 0
    else
      var c := s[|s| - 1];
      assert IsDigit(c);
      10 * ParseDecimal(s[..|s| - 1]) + (c as int - '0' as int)
  }

  lemma {:induction false} ParseDecimalOf(n: nat)
    ensures ParseDecimal(Decimal(n)) == n
    decreases n
  {
    if n >= 10 {
      var d := Decimal(n);
      assert d[..|d| - 1] == Decimal(n / 10);
      ParseDecimalOf(n / 10);
    }
  }

  lemma {:induction false} ParseLeadingZeros(k: nat, s: string)
    requires forall i | 0 <= i < |s| :: IsDigit(s[i])
    ensures forall i | 0 <= i < |Zeros(k) + s| :: IsDigit((Zeros(k) + s)[i])
    ensures ParseDecimal(Zeros(k) + s) == ParseDecimal(s)
    decreases |s|
  {
    var z := Zeros(k) + s;
    if |s| == 0 {
      assert z == Zeros(k);
      ParseZeros(k);
    } else {
      assert z[..|z| - 1] == Zeros(k) + s[..|s| - 1];
      ParseLeadingZeros(k, s[..|s| - 1]);
    }
  }

  lemma {:induction false} ParseZeros(k: nat)
    ensures ParseDecimal(Zeros(k)) == 0
    decreases k
  {
    if k > 0 {
      var z := Zeros(k);
      assert z[..|z| - 1] == Zeros(k - 1) by {
        assert z == "0" + Zeros(k - 1);
        assert Zeros(k - 1) == Zeros(k - 1);
        ZerosSnoc(k - 1);
      }
      ParseZeros(k - 1);
    }
  }

  lemma ZerosSnoc(k: nat)
    ensures "0" + Zeros(k) == Zeros(k) + "0"
  {
  }

  lemma Pad4Value(n: nat)
    ensures ParseDecimal(Pad4(n)) == n
  {
    var d := Decimal(n);
    ParseDecimalOf(n);
    if |d| < 4 {
      ParseLeadingZeros(4 - |d|, d);
    }
  }

  /** `placeholder_re` matched against a whole token: the stash name (word
      characters) and the decimal position. */
  function ParsePlaceholder(s: string): (r: Option<(string, nat)>)
  {
    var head := PlaceholderPrefix + ":";
    if !StartsWith(s, head) || !EndsWith(s, PlaceholderSuffix) || |s| < |head| + |PlaceholderSuffix| then None
    else
      var mid := s[|head|..|s| - |PlaceholderSuffix|];
      var parts := Split(mid, ':');
      if |parts| != 2 || |parts[0]| == 0 || |parts[1]| == 0 then None
      else if !(forall i | 0 <= i < |parts[0]| :: IsWord(parts[0][i])) then None
      else if !(forall i | 0 <= i < |parts[1]| :: IsDigit(parts[1][i])) then None
      else Some((parts[0], ParseDecimal(parts[1])))
  }

  /** A placeholder reads back as the stash name and position it was made
      from. */
  lemma PlaceholderRoundTrip(name: string, index: nat)
    requires |name| > 0 && forall i | 0 <= i < |name| :: IsWord(name[i])
    ensures ParsePlaceholder(Placeholder(name, index)) == Some((name, index))
  {
    var head := PlaceholderPrefix + ":";
    var p := Pad4(index);
    var mid := name + ":" + p;
    var s := Placeholder(name, index);
    assert s == head + mid + PlaceholderSuffix;
    Framed(head, mid, PlaceholderSuffix);
    assert ':' !in name by {
      forall i | 0 <= i < |name| ensures name[i] != ':' { assert IsWord(name[i]); }
    }
    assert ':' !in p;
    SplitOnce(name, p);
    assert forall i | 0 <= i < |p| :: IsDigit(p[i]);
    ParseFromParts(s, name, p);
    Pad4Value(index);
  }

  /** A framed token whose middle splits into a word and digits parses. */
  lemma ParseFromParts(s: string, name: string, p: string)
    requires StartsWith(s, PlaceholderPrefix + ":") && EndsWith(s, PlaceholderSuffix)
    requires |s| >= |PlaceholderPrefix + ":"| + |PlaceholderSuffix|
    requires Split(s[|PlaceholderPrefix + ":"|..|s| - |PlaceholderSuffix|], ':') == [name, p]
    requires |name| > 0 && |p| > 0
    requires forall i | 0 <= i < |name| :: IsWord(name[i])
    requires forall i | 0 <= i < |p| :: IsDigit(p[i])
    ensures ParsePlaceholder(s) == Some((name, ParseDecimal(p)))
  {
  }

  /** The middle of a framed string is recovered by slicing. */
  lemma Framed(head: string, mid: string, tail: string)
    ensures var s := head + mid + tail;
      && StartsWith(s, head) && EndsWith(s, tail) && |s| >= |head| + |tail|
      && s[|head|..|s| - |tail|] == mid
  {
    var s := head + mid + tail;
    assert s[..|head|] == head;
    assert s[|s| - |tail|..] == tail;
  }

  lemma SplitOnce(a: string, b: string)
    requires ':' !in a && ':' !in b
    ensures Split(a + ":" + b, ':') == [a, b]
  {
    var parts := [a, b];
    SplitJoin(parts, ':');
    assert Join(parts, [':']) == a + ":" + b by {
      assert parts[1..] == [b];
    }
  }

  /** Where `store(raw)` puts the text. */
  datatype StoreKind = MacroStash | ArtifactStash | NotStored

  /** `macro_re.match(raw)`: `[`, text without brackets, `]` at the start. */
  predicate MacroPrefix(raw: string) {
    |raw| >= 2 && raw[0] == '[' && exists j | 1 <= j < |raw| :: raw[j] == ']' && forall k | 1 <= k < j :: raw[k] != '[' && raw[k] != ']'
  }

  /** `store(raw)`: bracketed text to the macro stash (brackets stripped),
      anything `artifact_re` matches (text whose first character is not a
      line break) to the artifact stash, and the rest returned as it is. */
  function Store(stash: Stash, raw: string): (r: (string, Stash))
    requires "macro" in stash && "artifact" in stash
    ensures MacroPrefix(raw) ==> r == StoreIn(stash, "macro", raw[1..|raw| - 1])
    ensures !MacroPrefix(raw) && |raw| > 0 && raw[0] != '\n' ==> r == StoreIn(stash, "artifact", raw)
    ensures (|raw| == 0 || raw[0] == '\n') ==> r == (raw, stash)
  {
    if MacroPrefix(raw) then StoreIn(stash, "macro", raw[1..|raw| - 1])
    else if |raw| > 0 && raw[0] != '\n' then StoreIn(stash, "artifact", raw)
    else (raw, stash)
  }

  // ---------------------------------------------------------------------
  // ForgeProcessor.compile, _expand_alink and _expand_link

  /** The short-link table `compile` builds: for each link looked up, the
      url of the shortlink it resolved to, or `None` when it resolved to
      nothing. */
  type Alinks = map<string, Option<string>>

  /** The urls of a `from_links` answer. */
  function Urls(res: map<string, Option<Shortlinks.Shortlink>>): Alinks {
    map l | l in res :: if res[l].Some? then Some(res[l].value.url) else None
  }

  /** `compile`'s table: nothing when both stashes are empty; otherwise the
      artifact links' answers updated by the plain links' answers, or
      nothing at all when either lookup raised (the bare `except`). The
      index lookups are `from_links` as written, so one link of more than
      three parts empties the whole table. */
  function CompileAlinks(ctx: Option<Shortlinks.Context>, projects: seq<Shortlinks.ProjectDoc>, apps: map<Id, string>,
                         db: seq<Shortlinks.Shortlink>, artifacts: seq<string>, links: seq<string>): Alinks {
    CompileWith(Shortlinks.FromLinksAsWritten(ctx, projects, apps, db, artifacts),
                Shortlinks.FromLinksAsWritten(ctx, projects, apps, db, links), |artifacts| + |links|)
  }

  /** The same table over the corrected `from_links`. */
  function CompileAlinksFixed(ctx: Option<Shortlinks.Context>, projects: seq<Shortlinks.ProjectDoc>, apps: map<Id, string>,
                              db: seq<Shortlinks.Shortlink>, artifacts: seq<string>, links: seq<string>): Alinks {
    CompileWith(Shortlinks.FromLinks(ctx, projects, apps, db, artifacts),
                Shortlinks.FromLinks(ctx, projects, apps, db, links), |artifacts| + |links|)
  }

  /** The table from the two lookups' answers (`n` counts the links). */
  function CompileWith(a: Result<map<string, Option<Shortlinks.Shortlink>>>,
                       b: Result<map<string, Option<Shortlinks.Shortlink>>>, n: nat): Alinks {
    if n == 0 then map[]
    else match (a, b)
      case (Ok(x), Ok(y)) => Urls(x) + Urls(y)
      case _ => map[]
  }

  /** The anchor a resolved link becomes. */
  function Anchor(url: string, link: string): string {
    "<a href=\"" + url + "\">[" + link + "]</a>"
  }

  /** What an unresolved link becomes: a `notfound` anchor in wiki mode
      when it has no `:` (`quote` stands for `h.urlquote`), else itself. */
  function Unresolved(useWiki: bool, quote: string -> string, link: string): string {
    if useWiki && ':' !in link then "<a href=\"" + quote(link) + "\" class=\"notfound\">[" + link + "]</a>"
    else link
  }

  /** `_expand_alink(link)`: a link the table resolves becomes an anchor to
      its url; one the table lacks, or holds as unresolved, is treated as
      unresolved. */
  function ExpandAlink(alinks: Alinks, useWiki: bool, quote: string -> string, link: string): (r: string)
    ensures link in alinks && alinks[link].Some? ==> r == Anchor(alinks[link].value, link)
    ensures (link !in alinks || alinks[link].None?) ==> r == Unresolved(useWiki, quote, link)
  {
    if link in alinks && alinks[link].Some? then Anchor(alinks[link].value, link)
    else Unresolved(useWiki, quote, link)
  }

  /** The escaped `mailto:` prefix `_expand_link` lets through. */
  const MailtoPrefix: string :=
    "\U{2}amp\U{3}#109;\U{2}amp\U{3}#97;\U{2}amp\U{3}#105;\U{2}amp\U{3}#108;\U{2}amp\U{3}#116;\U{2}amp\U{3}#111;\U{2}amp\U{3}#58;"

  /** `_expand_link(link)`: the class a plain link gets; `notfound` for an
      unresolved link that is neither a `mailto:` nor has an anchor part. */
  function ExpandLink(alinks: Alinks, link: string): (r: string)
    ensures r == "notfound" <==>
      (link !in alinks || alinks[link].None?) && !StartsWith(link, MailtoPrefix) && '#' !in link
    ensures r == "" || r == "notfound"
  {
    if (link !in alinks || alinks[link].None?) && !StartsWith(link, MailtoPrefix) && '#' !in link then "notfound"
    else ""
  }

  /** An artifact link after `compile` as written, when both lookups
      succeed and no plain link of the same text overrides it: every link
      of the batch parsed, and the link becomes an anchor to the url of the
      shortlink `from_links` picked for it (a stored shortlink of that
      artifact in a project of the batch that passes the filters), or the
      unresolved form when none was picked. */
  lemma CompiledArtifact(ctx: Option<Shortlinks.Context>, projects: seq<Shortlinks.ProjectDoc>, apps: map<Id, string>,
                         db: seq<Shortlinks.Shortlink>, artifacts: seq<string>, links: seq<string>,
                         useWiki: bool, quote: string -> string, l: string)
    requires l in artifacts && l !in links
    requires Shortlinks.FromLinksAsWritten(ctx, projects, apps, db, artifacts).Ok?
    requires Shortlinks.FromLinksAsWritten(ctx, projects, apps, db, links).Ok?
    ensures var picked := Shortlinks.FromLinksAsWritten(ctx, projects, apps, db, artifacts).value[l];
      var d := Shortlinks.ParseLink(ctx, projects, l);
      var r := ExpandAlink(CompileAlinks(ctx, projects, apps, db, artifacts, links), useWiki, quote, l);
      && d.Some?
      && (picked.Some? ==> picked.value in db)
      && (picked.Some? ==> Shortlinks.Eligible(projects, apps, Shortlinks.ProjectIds(Shortlinks.ParseAll(ctx, projects, artifacts)), d.value, picked.value))
      && (picked.Some? ==> r == Anchor(picked.value.url, l))
      && (picked.None? ==> r == Unresolved(useWiki, quote, l))
  {
    Shortlinks.FromLinksAsWrittenSound(ctx, projects, apps, db, artifacts, l);
    var a := Shortlinks.FromLinksAsWritten(ctx, projects, apps, db, artifacts).value;
    var b := Shortlinks.FromLinksAsWritten(ctx, projects, apps, db, links).value;
    AsWrittenKeys(ctx, projects, apps, db, links);
    var alinks := CompileAlinks(ctx, projects, apps, db, artifacts, links);
    assert alinks == Urls(a) + Urls(b);
    assert l !in Urls(b);
    assert l in Urls(a) && alinks[l] == Urls(a)[l];
  }

  /** The written lookup, when it succeeds, answers exactly its links. */
  lemma AsWrittenKeys(ctx: Option<Shortlinks.Context>, projects: seq<Shortlinks.ProjectDoc>, apps: map<Id, string>,
                      db: seq<Shortlinks.Shortlink>, links: seq<string>)
    requires Shortlinks.FromLinksAsWritten(ctx, projects, apps, db, links).Ok?
    ensures Shortlinks.FromLinksAsWritten(ctx, projects, apps, db, links).value.Keys == set l | l in links
  {
    var parsed := Shortlinks.ParseAll(ctx, projects, links);
    assert parsed.Keys == set l | l in links;
  }

  /** The same over the corrected lookups: the link becomes an anchor to
      the url of the earliest eligible stored shortlink, or the unresolved
      form when none is eligible or the link has more than three parts. */
  lemma CompiledArtifactFixed(ctx: Option<Shortlinks.Context>, projects: seq<Shortlinks.ProjectDoc>, apps: map<Id, string>,
                              db: seq<Shortlinks.Shortlink>, artifacts: seq<string>, links: seq<string>,
                              useWiki: bool, quote: string -> string, l: string)
    requires l in artifacts && l !in links
    requires Shortlinks.FromLinks(ctx, projects, apps, db, artifacts).Ok?
    requires Shortlinks.FromLinks(ctx, projects, apps, db, links).Ok?
    ensures var picked := Shortlinks.FromLinks(ctx, projects, apps, db, artifacts).value[l];
      var d := Shortlinks.ParseLink(ctx, projects, l);
      var r := ExpandAlink(CompileAlinksFixed(ctx, projects, apps, db, artifacts, links), useWiki, quote, l);
      && (d.None? ==> picked.None?)
      && (d.Some? ==> Shortlinks.ResolvedTo(projects, apps, db, Shortlinks.ProjectIds(Shortlinks.ParseAll(ctx, projects, artifacts)), d.value, picked))
      && (picked.Some? ==> r == Anchor(picked.value.url, l))
      && (picked.None? ==> r == Unresolved(useWiki, quote, l))
  {
    Shortlinks.FromLinksFirst(ctx, projects, apps, db, artifacts, l);
    Shortlinks.FromLinksKeys(ctx, projects, apps, db, links);
    var a := Shortlinks.FromLinks(ctx, projects, apps, db, artifacts).value;
    var b := Shortlinks.FromLinks(ctx, projects, apps, db, links).value;
    var alinks := CompileAlinksFixed(ctx, projects, apps, db, artifacts, links);
    assert alinks == Urls(a) + Urls(b);
    assert l !in Urls(b);
    assert l in Urls(a) && alinks[l] == Urls(a)[l];
  }

  /** When a written lookup raises, `compile` falls back to an empty table
      and every artifact link takes the unresolved form. */
  lemma CompileRaises(ctx: Option<Shortlinks.Context>, projects: seq<Shortlinks.ProjectDoc>, apps: map<Id, string>,
                      db: seq<Shortlinks.Shortlink>, artifacts: seq<string>, links: seq<string>,
                      useWiki: bool, quote: string -> string, l: string)
    requires Shortlinks.FromLinksAsWritten(ctx, projects, apps, db, artifacts).Err?
      || Shortlinks.FromLinksAsWritten(ctx, projects, apps, db, links).Err?
    ensures ExpandAlink(CompileAlinks(ctx, projects, apps, db, artifacts, links), useWiki, quote, l)
      == Unresolved(useWiki, quote, l)
    ensures ExpandLink(CompileAlinks(ctx, projects, apps, db, artifacts, links), l) == "notfound"
      <==> !StartsWith(l, MailtoPrefix) && '#' !in l
  {
    assert CompileAlinks(ctx, projects, apps, db, artifacts, links) == map[];
  }

  /** As written, one artifact link that does not parse (more than three
      parts) leaves every link of the page unresolved, whatever the
      shortlinks say. */
  lemma UnparsedLinkUnresolvesAll(ctx: Option<Shortlinks.Context>, projects: seq<Shortlinks.ProjectDoc>, apps: map<Id, string>,
                                  db: seq<Shortlinks.Shortlink>, artifacts: seq<string>, links: seq<string>,
                                  useWiki: bool, quote: string -> string, bad: string, l: string)
    requires bad in artifacts && Shortlinks.ParseLink(ctx, projects, bad).None?
    ensures ExpandAlink(CompileAlinks(ctx, projects, apps, db, artifacts, links), useWiki, quote, l)
      == Unresolved(useWiki, quote, l)
  {
    Shortlinks.UnparsedRaises(ctx, projects, apps, db, artifacts, bad);
    CompileRaises(ctx, projects, apps, db, artifacts, links, useWiki, quote, l);
  }

  // ---------------------------------------------------------------------
  // RelativeLinkRewriter._rewrite

  /** The rewritten attribute and whether `rel=nofollow` is set. */
  datatype Rewritten = Rewritten(value: string, nofollow: bool)

  /** `_rewrite(tag, attr)` on a present attribute value: spaces become
      `%20`; an absolute URL keeps its value and is marked nofollow unless
      it is on sf.net or sourceforge.net; values starting with `/`, `.`,
      `mailto:` or `#` stay; anything else gets `../` in front. */
  function Rewrite(v: string): (r: Rewritten)
    ensures ' ' !in r.value
    ensures r.nofollow ==> Contains(r.value, "://")
    ensures r.value == ReplaceChar(v, ' ', "%20") || r.value == "../" + ReplaceChar(v, ' ', "%20")
    ensures var val := ReplaceChar(v, ' ', "%20");
      r.nofollow <==> Contains(val, "://") && !Contains(val, "sf.net") && !Contains(val, "sourceforge.net")
    ensures var val := ReplaceChar(v, ' ', "%20");
      r.value == "../" + val <==>
        !Contains(val, "://") && !StartsWith(val, "/") && !StartsWith(val, ".") && !StartsWith(val, "mailto:") && !StartsWith(val, "#")
  {
    var val := ReplaceChar(v, ' ', "%20");
    if Contains(val, "://") then
      Rewritten(val, !(Contains(val, "sf.net") || Contains(val, "sourceforge.net")))
    else if StartsWith(val, "/") || StartsWith(val, ".") || StartsWith(val, "mailto:") || StartsWith(val, "#") then
      Rewritten(val, false)
    else Rewritten("../" + val, false)
  }

  /** A relative link is made relative to the parent once: rewriting the
      result again changes nothing. */
  lemma RewriteIdempotent(v: string)
    ensures Rewrite(Rewrite(v).value).value == Rewrite(v).value
  {
    var val := ReplaceChar(v, ' ', "%20");
    var w := Rewrite(v).value;
    assert ' ' !in w;
    assert ReplaceChar(w, ' ', "%20") == w;
    if w == "../" + val {
      assert StartsWith(w, ".");
    }
  }
}
