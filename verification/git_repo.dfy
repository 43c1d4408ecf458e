/** The Git back end's own logic: reading a blob line by line, decoding a
    hex object id to its binary form, the date-ordered log walk, the ids of
    all commits, resolving a reference name to a commit, and copying
    commit and tree objects into the index. The `git` library is replaced
    by maps from ids to objects. */
module GitRepo {
  import opened Wrappers
  import opened RepoDocs
  import Sorting
  import Sets
  import Repository

  // ---------------------------------------------------------------------
  // _OpenedGitBlob.__iter__

  /** `CHUNK_SIZE`: the number of characters one read asks for. */
  const ChunkSize: nat := 4096

  /** The index of the first `c` in `s`, or `|s|`. */
  function Find(s: string, c: char): (i: nat)
    ensures i <= |s|
    ensures i < |s| ==> s[i] == c
    ensures forall k | 0 <= k < i :: s[k] != c
  {
    if |s| == 0 then 0
    else if s[0] == c then 0
    else 1 + Find(s[1..], c)
  }

  function Concat(ss: seq<string>): string {
    if |ss| == 0 then "" else ss[0] + Concat(ss[1..])
  }

  lemma {:induction false} ConcatAppend(ss: seq<string>, t: string)
    ensures Concat(ss + [t]) == Concat(ss) + t
    decreases |ss|
  {
    if |ss| > 0 {
      assert (ss + [t])[1..] == ss[1..] + [t];
      ConcatAppend(ss[1..], t);
    }
  }

  /** A line as the iterator yields it: not empty, and a line break only
      as its last character. */
  predicate LineShaped(line: string) {
    |line| > 0 && forall k | 0 <= k < |line| - 1 :: line[k] != '\n'
  }

  /** The lines of `s`, each with its line break, the last one possibly
      without. */
  function Lines(s: string): seq<string>
    decreases |s|
  {
    if |s| == 0 then []
    else
      var e := Find(s, '\n');
      if e == |s| then [s]
      else [s[..e + 1]] + Lines(s[e + 1..])
  }

  /** The lines together are the text again; each is non-empty with a
      line break at most at its end, and all but the last end in one. */
  lemma LinesSound(s: string)
    ensures var ls := Lines(s);
      && Concat(ls) == s
      && (forall i | 0 <= i < |ls| :: LineShaped(ls[i]))
      && (forall i | 0 <= i < |ls| - 1 :: LineShaped(ls[i]) && ls[i][|ls[i]| - 1] == '\n')
      && (|s| == 0 <==> |ls| == 0)
  {
    LinesConcat(s);
    LinesShaped(s);
  }

  lemma {:induction false} LinesConcat(s: string)
    ensures Concat(Lines(s)) == s
    decreases |s|
  {
    if |s| > 0 {
      var e := Find(s, '\n');
      if e < |s| {
        LinesConcat(s[e + 1..]);
        assert s[..e + 1] + s[e + 1..] == s;
        var ls := [s[..e + 1]] + Lines(s[e + 1..]);
        assert Lines(s) == ls && ls[1..] == Lines(s[e + 1..]);
      }
    }
  }

  lemma {:induction false} LinesShaped(s: string)
    ensures var ls := Lines(s);
      && (forall i | 0 <= i < |ls| :: LineShaped(ls[i]))
      && (forall i | 0 <= i < |ls| - 1 :: ls[i][|ls[i]| - 1] == '\n')
      && (|s| == 0 <==> |ls| == 0)
    decreases |s|
  {
    if |s| > 0 {
      var e := Find(s, '\n');
      if e < |s| {
        var ls := Lines(s);
        var rest := Lines(s[e + 1..]);
        LinesShaped(s[e + 1..]);
        assert ls == [s[..e + 1]] + rest;
        assert LineShaped(ls[0]);
        forall i | 1 <= i < |ls|
          ensures LineShaped(ls[i]) && (i < |ls| - 1 ==> ls[i][|ls[i]| - 1] == '\n')
        {
          assert ls[i] == rest[i - 1];
        }
      }
    }
  }

  /** When the buffered text already holds a line break, the first line is
      the buffer up to it, whatever follows. */
  lemma LinesBuffered(buffer: string, rest: string)
    requires '\n' in buffer
    ensures var e := Find(buffer, '\n');
      Lines(buffer + rest) == [buffer[..e + 1]] + Lines(buffer[e + 1..] + rest)
  {
    var s := buffer + rest;
    var e := Find(buffer, '\n');
    assert Find(s, '\n') == e by {
      FindPrefix(buffer, rest, '\n');
    }
    assert e < |buffer| && |s| > 0;
    assert s[..e + 1] == buffer[..e + 1];
    assert s[e + 1..] == buffer[e + 1..] + rest;
    assert Lines(s) == [s[..e + 1]] + Lines(s[e + 1..]);
  }

  lemma {:induction false} FindPrefix(a: string, b: string, c: char)
    requires c in a
    ensures Find(a + b, c) == Find(a, c)
    decreases |a|
  {
    if a[0] != c {
      assert (a + b)[1..] == a[1..] + b;
      FindPrefix(a[1..], b, c);
    }
  }

  /** `stream.read(n)`: at most `n` characters from the position on. */
  function Read(content: string, pos: nat, n: nat): (chars: string)
    requires pos <= |content|
    ensures |chars| <= n && pos + |chars| <= |content| && chars == content[pos..pos + |chars|]
    ensures n > 0 ==> (|chars| == 0 <==> pos == |content|)
  {
    if pos + n <= |content| then content[pos..pos + n] else content[pos..]
  }

  /** `__iter__`: refill the buffer a chunk at a time until it holds a line
      break or the stream ends; yield up to and including the break, or the
      unterminated rest at the end. */
  method IterLines(content: string) returns (out: seq<string>)
    ensures out == Lines(content)
  {
    var buffer := "";
    var pos := 0;
    out := [];
    assert buffer + content[pos..] == content;
    while true
      invariant pos <= |content|
      invariant out + Lines(buffer + content[pos..]) == Lines(content)
      decreases |content| - pos + |buffer|
    {
      buffer, pos := Fill(content, buffer, pos);
      if |buffer| == 0 {
        assert content[pos..] == [];
        break;
      }
      var eol := Find(buffer, '\n');
      if eol == |buffer| {
        LastLine(out, buffer, content[pos..], content);
        out := out + [buffer];
        break;
      }
      ghost var rest := content[pos..];
      YieldLine(out, buffer, rest, content, eol);
      out := out + [buffer[..eol + 1]];
      buffer := buffer[eol + 1..];
    }
  }

  /** The inner loop of `__iter__`: read chunks into the buffer until it
      holds a line break or the stream is exhausted. */
  method Fill(content: string, buffer: string, pos: nat) returns (buffer': string, pos': nat)
    requires pos <= |content|
    ensures pos <= pos' <= |content|
    ensures buffer' + content[pos'..] == buffer + content[pos..]
    ensures |content| - pos' + |buffer'| == |content| - pos + |buffer|
    ensures '\n' in buffer' || pos' == |content|
  {
    buffer', pos' := buffer, pos;
    while '\n' !in buffer'
      invariant pos <= pos' <= |content|
      invariant buffer' + content[pos'..] == buffer + content[pos..]
      invariant |content| - pos' + |buffer'| == |content| - pos + |buffer|
      decreases |content| - pos'
    {
      var chars := Read(content, pos', ChunkSize);
      if |chars| == 0 {
        break;
      }
      Refill(content, pos', buffer', chars);
      buffer' := buffer' + chars;
      pos' := pos' + |chars|;
    }
  }

  /** Reading a chunk moves text from the stream to the buffer. */
  lemma Refill(content: string, pos: nat, buffer: string, chars: string)
    requires pos + |chars| <= |content| && chars == content[pos..pos + |chars|]
    ensures (buffer + chars) + content[pos + |chars|..] == buffer + content[pos..]
  {
  }

  lemma YieldLine(out: seq<string>, buffer: string, rest: string, content: string, e: nat)
    requires '\n' in buffer && e == Find(buffer, '\n')
    requires out + Lines(buffer + rest) == Lines(content)
    ensures e < |buffer|
    ensures (out + [buffer[..e + 1]]) + Lines(buffer[e + 1..] + rest) == Lines(content)
  {
    LinesBuffered(buffer, rest);
  }

  lemma LastLine(out: seq<string>, buffer: string, rest: string, content: string)
    requires |buffer| > 0 && '\n' !in buffer && rest == []
    requires out + Lines(buffer + rest) == Lines(content)
    ensures out + [buffer] == Lines(content)
  {
    assert buffer + rest == buffer;
    assert Find(buffer, '\n') == |buffer|;
  }

  // ---------------------------------------------------------------------
  // _object: hex id to binary id

  type Byte = b: int | 0 <= b < 256

  /** The value of a hexadecimal digit, either case. */
  function HexValue(c: char): Option<nat> {
    if '0' <= c <= '9' then Some(c as int - '0' as int)
    else if 'a' <= c <= 'f' then Some(c as int - 'a' as int + 10)
    else if 'A' <= c <= 'F' then Some(c as int - 'A' as int + 10)
    else None
  }

  /** The characters `int()` skips around its digits: space, tab, line
      feed, vertical tab, form feed and carriage return. */
  predicate Space(c: char) {
    c == ' ' || c == '\t' || c == '\n' || c == '\U{B}' || c == '\U{C}' || c == '\r'
  }

  /** `int(e + o, 16)` on a two-character string: two hex digits, or one
      hex digit with a sign in front or a space on either side; anything
      else raises. */
  function IntBase16(e: char, o: char): (r: Option<int>)
    ensures r.Some? ==> -16 < r.value < 256
    ensures HexValue(e).Some? && HexValue(o).Some? ==> r == Some(16 * HexValue(e).value + HexValue(o).value)
    ensures !Space(e) && !Space(o) && e != '+' && e != '-' ==> (r.Some? <==> HexValue(e).Some? && HexValue(o).Some?)
  {
    match (HexValue(e), HexValue(o))
    case (Some(h), Some(l)) => Some(16 * h + l)
    case (None, Some(l)) =>
      if e == '+' || Space(e) then Some(l)
      else if e == '-' then Some(-(l as int))
      else None
    case (Some(h), None) => if Space(o) then Some(h) else None
    case _ => None
  }

  /** `chr(int(e + o, 16))`: the pair's value as a byte; `chr` raises on a
      negative value. */
  function PairByte(e: char, o: char): (r: Result<Byte>)
    ensures r.Ok? <==> IntBase16(e, o).Some? && IntBase16(e, o).value >= 0
    ensures r.Ok? ==> r.value == IntBase16(e, o).value
  {
    match IntBase16(e, o)
    case Some(n) => if n >= 0 then Ok(n) else Err("ValueError")
    case None => Err("ValueError")
  }

  /** Which pairs decode: two hex digits give their value; a `+` or a
      space before a digit, or a space after one, gives the digit; a `-`
      decodes only before `0`; without signs or spaces, only hex digits
      decode. */
  lemma PairByteCases(e: char, o: char)
    ensures HexValue(e).Some? && HexValue(o).Some? ==> PairByte(e, o) == Ok(16 * HexValue(e).value + HexValue(o).value)
    ensures (e == '+' || Space(e)) && HexValue(o).Some? ==> PairByte(e, o) == Ok(HexValue(o).value)
    ensures HexValue(e).Some? && Space(o) ==> PairByte(e, o) == Ok(HexValue(e).value)
    ensures e == '-' ==> (PairByte(e, o).Ok? <==> o == '0')
    ensures !Space(e) && !Space(o) && e != '+' && e != '-' ==>
      (PairByte(e, o).Ok? <==> HexValue(e).Some? && HexValue(o).Some?)
  {
    if e == '-' && HexValue(o).Some? {
      assert HexValue(o).value == 0 <==> o == '0';
    }
  }

  /** `_object(oid)`: the characters at even and odd positions zipped into
      pairs, each pair read as one byte. A trailing unpaired character is
      ignored; a pair `int` or `chr` rejects raises. */
  function HexToBinary(oid: string): (r: Result<seq<Byte>>)
    ensures r.Ok? ==> |r.value| == |oid| / 2
    ensures r.Ok? ==> forall i | 0 <= i < |oid| / 2 :: PairByte(oid[2 * i], oid[2 * i + 1]) == Ok(r.value[i])
    ensures r.Err? <==> exists i | 0 <= i < |oid| / 2 :: PairByte(oid[2 * i], oid[2 * i + 1]).Err?
    decreases |oid|
  {
    if |oid| < 2 then Ok([])
    else
      var first := PairByte(oid[0], oid[1]);
      var rest := HexToBinary(oid[2..]);
      assert forall i | 1 <= i < |oid| / 2 :: oid[2 * i] == oid[2..][2 * (i - 1)] && oid[2 * i + 1] == oid[2..][2 * (i - 1) + 1];
      assert oid[2 * 0] == oid[0] && oid[2 * 0 + 1] == oid[1];
      if first.Err? then Err(first.reason)
      else if rest.Err? then
        var j :| 0 <= j < |oid[2..]| / 2 && PairByte(oid[2..][2 * j], oid[2..][2 * j + 1]).Err?;
        assert PairByte(oid[2 * (j + 1)], oid[2 * (j + 1) + 1]).Err?;
        Err(rest.reason)
      else Ok([first.value] + rest.value)
  }

  /** The lower-case hex digit of `d`. */
  function Digit(d: nat): char
    requires d < 16
  {
    if d < 10 then ('0' as int + d) as char else ('a' as int + d - 10) as char
  }

  /** The lower-case hex form of a binary id (`hexsha`). */
  function BinaryToHex(bs: seq<Byte>): (s: string)
    ensures |s| == 2 * |bs|
    ensures forall i | 0 <= i < |bs| :: s[2 * i] == Digit(bs[i] / 16) && s[2 * i + 1] == Digit(bs[i] % 16)
  {
    if |bs| == 0 then ""
    else [Digit(bs[0] / 16), Digit(bs[0] % 16)] + BinaryToHex(bs[1..])
  }

  lemma DigitValue(d: nat)
    requires d < 16
    ensures HexValue(Digit(d)) == Some(d)
  {
  }

  /** Decoding the hex form of a binary id gives the id back. */
  lemma {:induction false} HexRoundTrip(bs: seq<Byte>)
    ensures HexToBinary(BinaryToHex(bs)) == Ok(bs)
    decreases |bs|
  {
    if |bs| > 0 {
      var s := BinaryToHex(bs);
      assert s[2..] == BinaryToHex(bs[1..]);
      DigitValue(bs[0] / 16);
      DigitValue(bs[0] % 16);
      assert PairByte(s[0], s[1]) == Ok(bs[0]);
      HexRoundTrip(bs[1..]);
      assert [bs[0]] + bs[1..] == bs;
    }
  }

  // ---------------------------------------------------------------------
  // log: the date-ordered walk

  /** A Git commit as the back end reads it. */
  datatype GitCommit = GitCommit(treeId: Id, parents: seq<Id>, committedDate: int, authoredDate: int, message: string)

  type GitCommits = map<Id, GitCommit>

  /** Every parent of a Git commit is itself a Git commit. */
  predicate ParentsKnown(git: GitCommits) {
    forall x, p | x in git && p in git[x].parents :: p in git
  }

  predicate Distinct<T(==)>(s: seq<T>) {
    forall i, j | 0 <= i < j < |s| :: s[i] != s[j]
  }

  function CommittedDate(git: GitCommits, x: Id): int {
    if x in git then git[x].committedDate else 0
  }

  /** `key=lambda c: c.committed_date` as an ordering. */
  function DateLe(git: GitCommits): (Id, Id) -> bool {
    (a: Id, b: Id) => CommittedDate(git, a) <= CommittedDate(git, b)
  }

  lemma DateLeTotal(git: GitCommits)
    ensures Sorting.TotalPreorder(DateLe(git))
  {
  }

  /** `candidates.sort(...)` then `candidates.pop(-1)`: a candidate with
      the latest commit date, and the sorted others. */
  function Pick(git: GitCommits, cands: seq<Id>): (r: (Id, seq<Id>))
    requires |cands| > 0
    ensures r.0 in cands && forall c | c in r.1 :: c in cands
    ensures multiset(r.1) + multiset{r.0} == multiset(cands)
    ensures forall c | c in cands :: CommittedDate(git, c) <= CommittedDate(git, r.0)
  {
    var sorted := Sorting.SortBy(cands, DateLe(git));
    PickLatest(git, cands);
    (sorted[|sorted| - 1], sorted[..|sorted| - 1])
  }

  lemma PickLatest(git: GitCommits, cands: seq<Id>)
    requires |cands| > 0
    ensures var sorted := Sorting.SortBy(cands, DateLe(git));
      && |sorted| == |cands|
      && multiset(sorted[..|sorted| - 1]) + multiset{sorted[|sorted| - 1]} == multiset(cands)
      && sorted[|sorted| - 1] in cands
      && (forall c | c in sorted[..|sorted| - 1] :: c in cands)
      && forall c | c in cands :: CommittedDate(git, c) <= CommittedDate(git, sorted[|sorted| - 1])
  {
    var sorted := Sorting.SortBy(cands, DateLe(git));
    assert sorted[..|sorted| - 1] + [sorted[|sorted| - 1]] == sorted;
    assert forall c | c in sorted :: c in multiset(sorted);
    assert forall c | c in multiset(cands) :: c in cands;
    DateLeTotal(git);
    Sorting.SortSorted(cands, DateLe(git));
    forall c | c in cands
      ensures CommittedDate(git, c) <= CommittedDate(git, sorted[|sorted| - 1])
    {
      assert c in multiset(sorted);
      var i :| 0 <= i < |sorted| && sorted[i] == c;
      if i < |sorted| - 1 {
        assert DateLe(git)(sorted[i], sorted[|sorted| - 1]);
      }
    }
  }

  /** The commits the walk from `o` can have as candidates once it has
      taken `t`: `o` and every parent of a taken commit. */
  ghost function Reached(git: GitCommits, o: Id, t: seq<Id>): set<Id> {
    {o} + set x, p | x in t && x in git && p in git[x].parents :: p
  }

  /** The reached commits not taken yet. */
  ghost function Avail(git: GitCommits, o: Id, t: seq<Id>): set<Id> {
    Reached(git, o, t) - set x | x in t
  }

  /** Each commit of `t` was available when taken and no available commit
      was committed later. */
  ghost predicate LatestFirst(git: GitCommits, o: Id, t: seq<Id>) {
    forall i | 0 <= i < |t| ::
      t[i] in Avail(git, o, t[..i]) &&
      forall c | c in Avail(git, o, t[..i]) :: CommittedDate(git, c) <= CommittedDate(git, t[i])
  }

  /** The walk's candidate list against what it has taken: every candidate
      was reached, and every available commit is a candidate. */
  ghost predicate CandidatesOf(git: GitCommits, o: Id, t: seq<Id>, cands: seq<Id>) {
    && (forall c | c in cands :: c in Reached(git, o, t))
    && (forall c | c in Avail(git, o, t) :: c in cands)
  }

  lemma ReachedSnoc(git: GitCommits, o: Id, t: seq<Id>, x: Id)
    requires x in git
    ensures Reached(git, o, t + [x]) == Reached(git, o, t) + set p | p in git[x].parents
  {
    assert forall y :: y in t + [x] <==> y in t || y == x;
  }

  /** Taking an unseen latest candidate keeps the walk's facts. */
  lemma TakeStep(git: GitCommits, o: Id, t: seq<Id>, cands: seq<Id>, obj: Id, rest: seq<Id>)
    requires obj in git && LatestFirst(git, o, t) && CandidatesOf(git, o, t, cands)
    requires obj in cands && obj !in t && multiset(rest) + multiset{obj} == multiset(cands)
    requires forall c | c in cands :: CommittedDate(git, c) <= CommittedDate(git, obj)
    ensures LatestFirst(git, o, t + [obj]) && CandidatesOf(git, o, t + [obj], rest + git[obj].parents)
  {
    var t' := t + [obj];
    ReachedSnoc(git, o, t, obj);
    assert t'[..|t|] == t;
    assert obj in Avail(git, o, t);
    forall i | 0 <= i < |t'|
      ensures t'[i] in Avail(git, o, t'[..i])
      ensures forall c | c in Avail(git, o, t'[..i]) :: CommittedDate(git, c) <= CommittedDate(git, t'[i])
    {
      if i < |t| {
        assert t'[..i] == t[..i] && t'[i] == t[i];
      }
    }
    forall c | c in Avail(git, o, t')
      ensures c in rest + git[obj].parents
    {
      if c !in git[obj].parents {
        assert c in Avail(git, o, t) && c != obj;
        assert c in multiset(cands);
      }
    }
    forall c | c in rest + git[obj].parents
      ensures c in Reached(git, o, t')
    {
      if c in rest {
        assert c in multiset(rest);
        assert c in multiset(cands);
      }
    }
  }

  /** Popping a candidate already taken changes nothing else. */
  lemma SeenStep(git: GitCommits, o: Id, t: seq<Id>, cands: seq<Id>, obj: Id, rest: seq<Id>)
    requires CandidatesOf(git, o, t, cands)
    requires obj in t && multiset(rest) + multiset{obj} == multiset(cands)
    ensures CandidatesOf(git, o, t, rest)
  {
    forall c | c in Avail(git, o, t)
      ensures c in rest
    {
      assert c in multiset(cands) && c != obj;
    }
    forall c | c in rest
      ensures c in Reached(git, o, t)
    {
      assert c in multiset(rest);
      assert c in multiset(cands);
    }
  }

  /** Appending a fresh element: the set, distinctness, suffixes and the
      head of a list. */
  lemma Appended<T>(s: seq<T>, x: T, k: nat)
    requires Distinct(s) && x !in s
    ensures (set y | y in s + [x]) == (set y | y in s) + {x}
    ensures Distinct(s + [x])
    ensures k <= |s| ==> (s + [x])[k..] == s[k..] + [x]
    ensures (s + [x])[0] == if |s| == 0 then x else s[0]
  {
    assert forall y :: y in s + [x] <==> y in s || y == x;
  }

  /** The state of `log` after taking `t`: the candidates are known
      commits, `t` is distinct and latest-first, the result is `t` past
      its first `skip` commits, and `left` counts what may still be
      collected. */
  ghost predicate LogState(git: GitCommits, o: Id, skip: nat, count: nat, t: seq<Id>, cands: seq<Id>,
                           toSkip: nat, left: nat, result: seq<Id>) {
    && (forall c | c in cands :: c in git)
    && Distinct(t) && (forall x | x in t :: x in git)
    && LatestFirst(git, o, t) && CandidatesOf(git, o, t, cands)
    && (if |t| <= skip then toSkip == skip - |t| && result == [] else toSkip == 0 && result == t[skip..])
    && |result| + left == count
    && (t == [] ==> cands == [o])
    && (t != [] ==> t[0] == o)
  }

  /** Popping a commit already taken keeps the state. */
  lemma LogSeen(git: GitCommits, o: Id, skip: nat, count: nat, t: seq<Id>, cands: seq<Id>,
                toSkip: nat, left: nat, result: seq<Id>)
    requires |cands| > 0 && LogState(git, o, skip, count, t, cands, toSkip, left, result)
    requires Pick(git, cands).0 in t
    ensures LogState(git, o, skip, count, t, Pick(git, cands).1, toSkip, left, result)
  {
    var (obj, rest) := Pick(git, cands);
    SeenStep(git, o, t, cands, obj, rest);
  }

  /** Taking an unseen commit: skipped while `toSkip` lasts, collected
      after, its parents joining the candidates. */
  lemma LogTake(git: GitCommits, o: Id, skip: nat, count: nat, t: seq<Id>, cands: seq<Id>,
                toSkip: nat, left: nat, result: seq<Id>)
    requires ParentsKnown(git) && left > 0
    requires |cands| > 0 && LogState(git, o, skip, count, t, cands, toSkip, left, result)
    requires Pick(git, cands).0 !in t
    ensures var (obj, rest) := Pick(git, cands);
      LogState(git, o, skip, count, t + [obj], rest + git[obj].parents,
               if toSkip == 0 then 0 else toSkip - 1,
               if toSkip == 0 then left - 1 else left,
               if toSkip == 0 then result + [obj] else result)
  {
    var (obj, rest) := Pick(git, cands);
    TakeStep(git, o, t, cands, obj, rest);
    Appended(t, obj, skip);
    assert forall x | x in git[obj].parents :: x in git;
  }

  /** When the walk stops, its state gives everything `log` promises. */
  lemma LogDone(git: GitCommits, o: Id, skip: nat, count: nat, t: seq<Id>, cands: seq<Id>,
                toSkip: nat, left: nat, result: seq<Id>)
    requires LogState(git, o, skip, count, t, cands, toSkip, left, result)
    requires left == 0 || |cands| == 0
    ensures |result| <= count && (|result| < count ==> cands == [])
    ensures |result| < count ==> Avail(git, o, t) == {}
    ensures Distinct(result) && forall x | x in result :: x in git
    ensures skip == 0 && count > 0 ==> |result| > 0 && result[0] == o
    ensures skip > 0 ==> o !in result
  {
    if |t| > skip {
      assert Distinct(t[skip..]);
      assert forall x | x in result :: x in t;
      if skip > 0 {
        assert o == t[0] && t[0] !in t[skip..];
      }
    }
    if skip == 0 && count > 0 {
      assert t != [];
    }
  }

  /** `log(object_id, skip, count)`: repeatedly take the latest candidate
      not seen yet, skip the first `skip` of them and collect the next
      `count`, adding each taken commit's parents to the candidates. The
      candidates left when the walk stops come back as well. `taken` lists
      the commits taken, in order: each the latest of the commits
      available when it was taken. The result is `taken` without its first
      `skip` commits; the leftover candidates are reached commits and
      include every available one; and a walk that stops short of `count`
      has taken every ancestor of `object_id`. */
  method Log(git: GitCommits, objectId: Id, skip: nat, count: nat)
    returns (result: seq<Id>, leftover: seq<Id>, ghost taken: seq<Id>)
    requires objectId in git && ParentsKnown(git)
    ensures Distinct(taken) && LatestFirst(git, objectId, taken)
    ensures result == if |taken| <= skip then [] else taken[skip..]
    ensures |result| <= count && (|result| < count ==> leftover == [])
    ensures CandidatesOf(git, objectId, taken, leftover)
    ensures |result| < count ==> Avail(git, objectId, taken) == {}
    ensures Distinct(result)
    ensures forall x | x in result :: x in git
    ensures forall x | x in leftover :: x in git
    ensures skip == 0 && count > 0 ==> |result| > 0 && result[0] == objectId
    ensures skip > 0 ==> objectId !in result
  {
    var cands := [objectId];
    var seen: set<Id> := {};
    var toSkip, left := skip, count;
    result := [];
    taken := [];
    while left > 0 && |cands| > 0
      invariant seen <= git.Keys && seen == (set x | x in taken)
      invariant LogState(git, objectId, skip, count, taken, cands, toSkip, left, result)
      decreases |git.Keys - seen|, |cands|
    {
      var (obj, rest) := Pick(git, cands);
      if obj in seen {
        LogSeen(git, objectId, skip, count, taken, cands, toSkip, left, result);
        cands := rest;
        continue;
      }
      LogTake(git, objectId, skip, count, taken, cands, toSkip, left, result);
      Sets.SubsetCard(seen, seen + {obj}, git.Keys);
      Appended(taken, obj, skip);
      seen := seen + {obj};
      taken := taken + [obj];
      result := if toSkip == 0 then result + [obj] else result;
      left := if toSkip == 0 then left - 1 else left;
      toSkip := if toSkip == 0 then 0 else toSkip - 1;
      cands := rest + git[obj].parents;
    }
    leftover := cands;
    LogDone(git, objectId, skip, count, taken, cands, toSkip, left, result);
  }

  /** A walk that took every available commit has taken every ancestor:
      the parents of a taken commit are taken. */
  lemma LogClosed(git: GitCommits, o: Id, t: seq<Id>, x: Id, p: Id)
    requires Avail(git, o, t) == {} && x in t && x in git && p in git[x].parents
    ensures p in t && o in t
  {
    assert p in Reached(git, o, t) && o in Reached(git, o, t);
    assert p !in t ==> p in Avail(git, o, t);
    assert o !in t ==> o in Avail(git, o, t);
  }

  // ---------------------------------------------------------------------
  // all_commit_ids

  /** `all_commit_ids()`: the commits of every head's history in order
      (`walk` stands for `iter_commits(head, topo_order=True)`), each
      the first time it turns up. */
  method AllCommitIds(heads: seq<Id>, walk: Id -> seq<Id>) returns (out: seq<Id>)
    ensures Distinct(out)
    ensures forall x :: x in out <==> exists h | h in heads :: x in walk(h)
  {
    out := [];
    var seen: set<Id> := {};
    for i := 0 to |heads|
      invariant Distinct(out)
      invariant forall x :: x in out <==> x in seen
      invariant forall x :: x in seen <==> exists h | h in heads[..i] :: x in walk(h)
    {
      var cis := walk(heads[i]);
      assert forall h :: h in heads[..i + 1] <==> h in heads[..i] || h == heads[i];
      for j := 0 to |cis|
        invariant Distinct(out)
        invariant forall x :: x in out <==> x in seen
        invariant forall x :: x in seen <==> (exists h | h in heads[..i] :: x in walk(h)) || x in cis[..j]
      {
        assert forall x :: x in cis[..j + 1] <==> x in cis[..j] || x == cis[j];
        if cis[j] !in seen {
          seen := seen + {cis[j]};
          out := out + [cis[j]];
        }
      }
      assert cis[..|cis|] == cis;
    }
    assert heads[..|heads|] == heads;
  }

  // ---------------------------------------------------------------------
  // commit(rev)

  /** The first cached reference (heads, then branches, then tags) named
      `rev` gives its commit id; any other `rev` is taken as an id. */
  function ResolveRev(refs: seq<Repository.Ref>, rev: string): (id: Id)
    ensures (forall i | 0 <= i < |refs| :: refs[i].name != rev) ==> id == rev
    ensures (exists i | 0 <= i < |refs| :: refs[i].name == rev) ==>
      exists i | 0 <= i < |refs| :: refs[i].name == rev && id == refs[i].objectId
        && forall j | 0 <= j < i :: refs[j].name != rev
  {
    if |refs| == 0 then rev
    else if refs[0].name == rev then refs[0].objectId
    else
      var id := ResolveRev(refs[1..], rev);
      assert forall i | 1 <= i < |refs| :: refs[i] == refs[1..][i - 1];
      id
  }

  /** `commit(rev)`: the indexed commit of the resolved id; failing that,
      the indexed commit of what Git resolves `<id>^0` to (`revParse`; an
      exception there is logged and gives `None`). */
  function CommitFor(db: CommitStore, heads: seq<Repository.Ref>, branches: seq<Repository.Ref>,
                     tags: seq<Repository.Ref>, rev: string, revParse: string -> Option<Id>): (r: Option<Id>)
    ensures r.Some? ==> r.value in db
    ensures ResolveRev(heads + branches + tags, rev) in db ==> r == Some(ResolveRev(heads + branches + tags, rev))
  {
    var id := ResolveRev(heads + branches + tags, rev);
    if id in db then Some(id)
    else match revParse(id + "^0")
      case Some(h) => if h in db then Some(h) else None
      case None => None
  }

  /** A cached head named like the revision decides the id that is looked
      up, even when the index holds a commit with the name as its id. */
  lemma CachedNameWins(db: CommitStore, revParse: string -> Option<Id>)
    requires "deadbeef" in db && "HEAD" in db
    ensures CommitFor(db, [Repository.Ref("master", "c0ffee", None), Repository.Ref("HEAD", "deadbeef", None)],
                      [], [], "HEAD", revParse) == Some("deadbeef")
  {
    var refs := [Repository.Ref("master", "c0ffee", None), Repository.Ref("HEAD", "deadbeef", None)];
    assert refs + [] + [] == refs;
    assert refs[1].name == "HEAD";
    assert refs[0].name != "HEAD";
  }

  // ---------------------------------------------------------------------
  // refresh_tree_info, refresh_commit_info

  /** An entry of a Git tree: name, id and object type. */
  datatype GitEntry = GitEntry(name: string, id: Id, kind: ObjKind)

  type GitTrees = map<Id, seq<GitEntry>>

  /** Subtrees are Git trees ranked below the tree holding them (content
      addressing rules out cycles). */
  ghost predicate TreesRanked(trees: GitTrees, rank: map<Id, nat>) {
    && trees.Keys <= rank.Keys
    && forall t, e | t in trees && e in trees[t] && e.kind == TreeKind :: e.id in trees && rank[e.id] < rank[t]
  }

  /** The document of one tree: subtrees to `tree_ids`, blobs to
      `blob_ids`, anything else to `other_ids` keeping its type; each in
      the tree's order. */
  function Partition(es: seq<GitEntry>): (d: TreeDoc)
    ensures |d.treeIds| + |d.blobIds| + |d.otherIds| == |es|
    ensures forall n, i :: Entry(n, i) in d.treeIds <==> GitEntry(n, i, TreeKind) in es
    ensures forall n, i :: Entry(n, i) in d.blobIds <==> GitEntry(n, i, BlobKind) in es
    ensures forall n, i, k :: OtherEntry(n, i, k) in d.otherIds <==> GitEntry(n, i, k) in es && k == Submodule
  {
    if |es| == 0 then TreeDoc([], [], [])
    else
      var d := Partition(es[1..]);
      var e := es[0];
      assert forall x :: x in es <==> x == e || x in es[1..];
      match e.kind
      case TreeKind => d.(treeIds := [Entry(e.name, e.id)] + d.treeIds)
      case BlobKind => d.(blobIds := [Entry(e.name, e.id)] + d.blobIds)
      case Submodule => d.(otherIds := [OtherEntry(e.name, e.id, e.kind)] + d.otherIds)
  }

  /** Every stored tree document is the partition of its Git tree. */
  ghost predicate SavedFaithful(trees: GitTrees, saved: TreeStore) {
    forall k | k in saved :: k in trees && saved[k] == Partition(trees[k])
  }

  /** Every seen tree ranked below `bound` is stored, and so are its
      subtrees, recursively. */
  ghost predicate ClosedBelow(trees: GitTrees, rank: map<Id, nat>, seen: set<Id>, saved: TreeStore, bound: nat)
    requires TreesRanked(trees, rank)
  {
    forall x | x in seen && x in trees && rank[x] < bound ::
      x in saved && forall e | e in trees[x] && e.kind == TreeKind :: e.id in seen
  }

  /** What a refresh may do to the seen set and the stored documents:
      both only grow, and stored documents stay faithful. */
  ghost predicate Grows(trees: GitTrees, seen: set<Id>, saved: TreeStore, seen': set<Id>, saved': TreeStore) {
    seen <= seen' && saved.Keys <= saved'.Keys && (SavedFaithful(trees, saved) ==> SavedFaithful(trees, saved'))
  }

  /** `refresh_tree_info(tree, seen, lazy)`: with `lazy`, a tree already
      seen is skipped; otherwise it is marked seen, its subtrees are
      refreshed in order, and its document is saved. */
  function RefreshTree(trees: GitTrees, ghost rank: map<Id, nat>, t: Id, seen: set<Id>, lazy: bool, saved: TreeStore)
    : (r: (set<Id>, TreeStore))
    requires TreesRanked(trees, rank) && t in trees
    ensures Grows(trees, seen, saved, r.0, r.1)
    ensures lazy && t in seen ==> r == (seen, saved)
    ensures !(lazy && t in seen) ==> t in r.0 && t in r.1 && r.1[t] == Partition(trees[t])
    ensures forall x | x in r.0 - seen :: x in trees && rank[x] <= rank[t]
    decreases rank[t], 1
  {
    if lazy && t in seen then (seen, saved)
    else
      var (seen', saved') := RefreshEntries(trees, rank, t, trees[t], seen + {t}, lazy, saved);
      (seen', saved'[t := Partition(trees[t])])
  }

  /** The loop of `refresh_tree_info` over the entries `es` of `t`. */
  function RefreshEntries(trees: GitTrees, ghost rank: map<Id, nat>, t: Id, es: seq<GitEntry>,
                          seen: set<Id>, lazy: bool, saved: TreeStore): (r: (set<Id>, TreeStore))
    requires TreesRanked(trees, rank) && t in trees
    requires forall e | e in es :: e in trees[t]
    ensures Grows(trees, seen, saved, r.0, r.1)
    ensures forall e | e in es && e.kind == TreeKind :: e.id in r.0
    ensures forall x | x in r.0 - seen :: x in trees && rank[x] < rank[t]
    decreases rank[t], 0, |es|
  {
    if |es| == 0 then (seen, saved)
    else
      assert es[0] in trees[t];
      assert forall e | e in es :: e == es[0] || e in es[1..];
      if es[0].kind == TreeKind then
        var (seen1, saved1) := RefreshTree(trees, rank, es[0].id, seen, lazy, saved);
        RefreshEntries(trees, rank, t, es[1..], seen1, lazy, saved1)
      else
        RefreshEntries(trees, rank, t, es[1..], seen, lazy, saved)
  }

  /** A closed seen set stays closed, even where a lazy refresh skips:
      afterwards the refreshed tree and everything under it is stored. */
  lemma {:induction false} RefreshTreeCloses(trees: GitTrees, rank: map<Id, nat>, t: Id, seen: set<Id>,
                                             lazy: bool, saved: TreeStore, bound: nat)
    requires TreesRanked(trees, rank) && t in trees && rank[t] < bound
    requires ClosedBelow(trees, rank, seen, saved, bound)
    ensures var r := RefreshTree(trees, rank, t, seen, lazy, saved);
      ClosedBelow(trees, rank, r.0, r.1, bound) && t in r.0
    decreases rank[t], 1
  {
    if !(lazy && t in seen) {
      var (seen', saved') := RefreshEntries(trees, rank, t, trees[t], seen + {t}, lazy, saved);
      ClosedAdd(trees, rank, seen, saved, t, rank[t]);
      RefreshEntriesCloses(trees, rank, t, trees[t], seen + {t}, lazy, saved);
      var saved2 := saved'[t := Partition(trees[t])];
      forall x | x in seen' && x in trees && rank[x] < bound
        ensures x in saved2 && forall e | e in trees[x] && e.kind == TreeKind :: e.id in seen'
      {
        if x != t && rank[x] >= rank[t] {
          assert x in seen;
        }
      }
    }
  }

  /** Marking `t` seen keeps everything ranked below it closed. */
  lemma ClosedAdd(trees: GitTrees, rank: map<Id, nat>, seen: set<Id>, saved: TreeStore, t: Id, bound: nat)
    requires TreesRanked(trees, rank) && t in trees && rank[t] == bound
    requires ClosedBelow(trees, rank, seen, saved, bound + 1)
    ensures ClosedBelow(trees, rank, seen + {t}, saved, bound)
  {
  }

  lemma {:induction false} RefreshEntriesCloses(trees: GitTrees, rank: map<Id, nat>, t: Id, es: seq<GitEntry>,
                                                seen: set<Id>, lazy: bool, saved: TreeStore)
    requires TreesRanked(trees, rank) && t in trees
    requires forall e | e in es :: e in trees[t]
    requires ClosedBelow(trees, rank, seen, saved, rank[t])
    ensures var r := RefreshEntries(trees, rank, t, es, seen, lazy, saved);
      ClosedBelow(trees, rank, r.0, r.1, rank[t])
    decreases rank[t], 0, |es|
  {
    if |es| > 0 {
      assert es[0] in trees[t];
      assert forall e | e in es[1..] :: e in es;
      if es[0].kind == TreeKind {
        var (seen1, saved1) := RefreshTree(trees, rank, es[0].id, seen, lazy, saved);
        RefreshTreeCloses(trees, rank, es[0].id, seen, lazy, saved, rank[t]);
        RefreshEntriesCloses(trees, rank, t, es[1..], seen1, lazy, saved1);
      } else {
        RefreshEntriesCloses(trees, rank, t, es[1..], seen, lazy, saved);
      }
    }
  }

  /** `refresh_commit_info(oid, seen, lazy)`: with `lazy`, an indexed
      commit is left alone and `false` comes back. Otherwise the commit
      document is written from Git (children reset to none) and its tree
      refreshed. */
  function RefreshCommitInfo(db: CommitStore, git: GitCommits, trees: GitTrees, ghost rank: map<Id, nat>,
                             oid: Id, seen: set<Id>, lazy: bool, saved: TreeStore)
    : (r: (bool, CommitStore, set<Id>, TreeStore))
    requires oid in git && git[oid].treeId in trees && TreesRanked(trees, rank)
    ensures lazy && oid in db ==> r == (false, db, seen, saved)
    ensures !(lazy && oid in db) ==>
      && r.0
      && r.1 == db[oid := CommitDoc(Some(git[oid].treeId), git[oid].parents, [], git[oid].authoredDate, git[oid].message)]
      && Grows(trees, seen, saved, r.2, r.3)
      && (r.2, r.3) == RefreshTree(trees, rank, git[oid].treeId, seen, lazy, saved)
  {
    if lazy && oid in db then (false, db, seen, saved)
    else
      var ci := git[oid];
      var doc := CommitDoc(Some(ci.treeId), ci.parents, [], ci.authoredDate, ci.message);
      var (seen', saved') := RefreshTree(trees, rank, ci.treeId, seen, lazy, saved);
      (true, db[oid := doc], seen', saved')
  }
}
