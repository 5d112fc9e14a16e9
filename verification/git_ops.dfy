/** The local-repository facade (src/GitOps.ts): the `git remote -v` parser behind
    `getRepo`, and the uncommitted-changes stop that guards `push`. The outputs of
    `git remote -v` and `git diff --summary` are inputs here. */
module GitOps {
  import opened Results
  import opened Text
  import Seqs

  /** A hosted repository: `{owner, name}`. */
  datatype RepoRef = RepoRef(owner: string, name: string)

  /** One remote line cut into its `/`-segments: `name` is absent (`undefined`)
      when the path holds no `/`. */
  datatype RemoteEntry = RemoteEntry(owner: string, name: Option<string>)

  /** What `getRepo` throws. */
  datatype RepoError =
    | NoTabField(line: string)      // `split('\t')[1]` is undefined: the next `split` is a TypeError
    | NoColonField(line: string)    // `split(':')[1]` is undefined: likewise
    | MissingName(owner: string)    // `curr.name` is undefined: `endsWith` is a TypeError
    | NoGitSuffix(name: string)     // "Repo reference should end with .git"
    | NoRepoFound                   // "No repo found"
    | MoreThanOneRepo(prev: RepoRef, curr: RepoRef)

  /** Why a command stops the process (`stopMe`). */
  datatype Stop = UncommittedChanges | OnMainBranch

  const GitSuffix: string := ".git"

  predicate NonEmpty(line: string)
  {
    line != ""
  }

  /** None of the characters any parsing step cuts at. */
  predicate Plain(s: string)
  {
    '\t' !in s && ':' !in s && ' ' !in s && '/' !in s
  }

  /** `line.split('\t')[1].split(':')[1].split(' ')[0].split('/')`, then
      `{owner: s[0], name: s[1]}`. */
  function ParseLine(line: string): (r: Result<RemoteEntry, RepoError>)
    ensures r == Err(NoTabField(line)) <==> '\t' !in line
    ensures r == Err(NoColonField(line)) <==> '\t' in line && ':' !in Split(line, '\t')[1]
    ensures r.Err? ==> r.error == NoTabField(line) || r.error == NoColonField(line)
    ensures r.Ok? ==> ':' in line && Plain(r.value.owner)
    ensures r.Ok? && r.value.name.Some? ==> Plain(r.value.name.value)
  {
    var tabFields := Split(line, '\t');
    if |tabFields| < 2 then Err(NoTabField(line))
    else
      var colonFields := Split(tabFields[1], ':');
      if |colonFields| < 2 then Err(NoColonField(line))
      else
        assert ':' in tabFields[1];
        InPiece(line, '\t', 1);
        var address := Split(colonFields[1], ' ')[0];
        assert forall c :: c in address ==> c in colonFields[1] by { InFirstPiece(colonFields[1], ' '); }
        assert forall c :: c in colonFields[1] ==> c in tabFields[1] by { InPiece(tabFields[1], ':', 1); }
        var path := Split(address, '/');
        assert forall c :: c in path[0] ==> c in address by { InFirstPiece(address, '/'); }
        assert |path| >= 2 ==> forall c :: c in path[1] ==> c in address by {
          if |path| >= 2 { InPiece(address, '/', 1); }
        }
        Ok(RemoteEntry(path[0], if |path| >= 2 then Some(path[1]) else None))
  }

  lemma {:induction false} PieceInJoin(parts: seq<string>, k: nat, sep: char, c: char)
    requires k < |parts| && c in parts[k]
    ensures c in Join(parts, sep)
  {
    if |parts| > 1 {
      assert Join(parts, sep) == parts[0] + [sep] + Join(parts[1..], sep);
      if k > 0 {
        PieceInJoin(parts[1..], k - 1, sep, c);
      }
    }
  }

  lemma InPiece(s: string, sep: char, k: nat)
    requires k < |Split(s, sep)|
    ensures forall c :: c in Split(s, sep)[k] ==> c in s
  {
    SplitJoinsBack(s, sep);
    forall c | c in Split(s, sep)[k] {
      PieceInJoin(Split(s, sep), k, sep, c);
    }
  }

  lemma InFirstPiece(s: string, sep: char)
    ensures forall c :: c in Split(s, sep)[0] ==> c in s
  {
    InPiece(s, sep, 0);
  }

  /** Piece 1 of `x + sep + p + y` is `p` followed by piece 0 of `y`. */
  lemma FieldAfter(x: string, p: string, y: string, sep: char)
    requires sep !in x && sep !in p
    ensures |Split(x + [sep] + (p + y), sep)| >= 2
    ensures Split(x + [sep] + (p + y), sep)[1] == p + Split(y, sep)[0]
  {
    SplitSecond(x, p + y, sep);
    SplitFirst(p, y, sep);
  }

  lemma PathOf(owner: string, name: string, u: string)
    requires Plain(owner) && Plain(name)
    ensures Split(Split(owner + "/" + name + " " + u, ' ')[0], '/') == [owner, name]
  {
    var addr := owner + "/" + name;
    assert owner + "/" + name + " " + u == addr + [' '] + u;
    SplitAtFirst(addr, u, ' ');
    assert addr == owner + ['/'] + name;
    SplitAtFirst(owner, name, '/');
    SplitNoSep(name, '/');
  }

  /** `ParseLine` read through its three cuts. */
  lemma ParseLineFields(line: string, field: string, after: string, owner: string, name: string)
    requires |Split(line, '\t')| >= 2 && Split(line, '\t')[1] == field
    requires |Split(field, ':')| >= 2 && Split(field, ':')[1] == after
    requires Split(Split(after, ' ')[0], '/') == [owner, name]
    ensures ParseLine(line) == Ok(RemoteEntry(owner, Some(name)))
  {
  }

  lemma TabFieldOf(remote: string, p: string, tail: string)
    requires '\t' !in remote && '\t' !in p
    ensures |Split(remote + "\t" + p + tail, '\t')| >= 2
    ensures Split(remote + "\t" + p + tail, '\t')[1] == p + Split(tail, '\t')[0]
  {
    assert remote + "\t" + p + tail == remote + ['\t'] + (p + tail);
    FieldAfter(remote, p, tail, '\t');
  }

  lemma ColonFieldOf(host: string, q: string, t: string)
    requires ':' !in host && ':' !in q
    ensures |Split(host + ":" + q + t, ':')| >= 2
    ensures Split(host + ":" + q + t, ':')[1] == q + Split(t, ':')[0]
  {
    assert host + ":" + q + t == host + [':'] + (q + t);
    FieldAfter(host, q, t, ':');
  }

  /** The line `git remote -v` prints for an scp-style address: `remote<TAB>host:owner/name tail`. */
  function ScpLine(remote: string, host: string, owner: string, name: string, tail: string): string
  {
    remote + "\t" + host + ":" + owner + "/" + name + " " + tail
  }

  /** The `git remote -v` line `remote<TAB>host:owner/name (kind)` names `owner` and `name`:
      they are the first two `/`-segments of what follows the first `:` of the second
      tab field, up to the first space. */
  lemma ParseRemoteLine(remote: string, host: string, owner: string, name: string, tail: string)
    requires '\t' !in remote
    requires '\t' !in host && ':' !in host
    requires Plain(owner) && Plain(name)
    ensures ParseLine(ScpLine(remote, host, owner, name, tail)) == Ok(RemoteEntry(owner, Some(name)))
  {
    var q := owner + "/" + name + " ";
    var p := host + ":" + q;
    var line := remote + "\t" + p + tail;
    assert line == remote + "\t" + host + ":" + owner + "/" + name + " " + tail;
    assert '\t' !in q && ':' !in q by {
      assert q == owner + ['/'] + name + [' '];
    }
    TabFieldOf(remote, p, tail);
    var t := Split(tail, '\t')[0];
    ColonFieldOf(host, q, t);
    var u := Split(t, ':')[0];
    assert q + u == owner + "/" + name + " " + u;
    PathOf(owner, name, u);
    ParseLineFields(line, p + t, q + u, owner, name);
  }

  /** A remote whose path after the `:` holds no `/` (`remote<TAB>host:path tail`) yields
      the path as owner and no name: `split('/')[1]` is undefined. */
  lemma ParseNoSlashLine(remote: string, host: string, path: string, tail: string)
    requires '\t' !in remote
    requires '\t' !in host && ':' !in host
    requires Plain(path)
    ensures ParseLine(remote + "\t" + host + ":" + path + " " + tail) == Ok(RemoteEntry(path, None))
  {
    var q := path + " ";
    var p := host + ":" + q;
    var line := remote + "\t" + p + tail;
    assert line == remote + "\t" + host + ":" + path + " " + tail;
    assert '\t' !in q && ':' !in q;
    TabFieldOf(remote, p, tail);
    var t := Split(tail, '\t')[0];
    ColonFieldOf(host, q, t);
    var u := Split(t, ':')[0];
    assert q + u == path + [' '] + u;
    SplitAtFirst(path, u, ' ');
    SplitNoSep(path, '/');
  }

  /** A line without a tab fails before anything else is looked at. */
  lemma ParseLineNoTab(line: string)
    requires '\t' !in line
    ensures ParseLine(line) == Err(NoTabField(line))
  {
  }

  /** Line `i` is the first non-empty line that does not parse. */
  ghost predicate FirstBadLine(lines: seq<string>, i: int)
  {
    && 0 <= i < |lines| && lines[i] != "" && ParseLine(lines[i]).Err?
    && forall j :: 0 <= j < i && lines[j] != "" ==> ParseLine(lines[j]).Ok?
  }

  /** `r.split('\n').map(...)`, skipping empty lines (`line && ...` is `""`, which
      `filter(Boolean)` drops); the first line that fails ends the parse. */
  function ParseLines(lines: seq<string>): (r: Result<seq<RemoteEntry>, RepoError>)
    ensures r.Ok? <==> forall i :: 0 <= i < |lines| && lines[i] != "" ==> ParseLine(lines[i]).Ok?
    ensures r.Err? ==> exists i :: FirstBadLine(lines, i) && ParseLine(lines[i]) == Err(r.error)
  {
    if |lines| == 0 then Ok([])
    else
      var rest := ParseLines(lines[1..]);
      if lines[0] == "" then
        assert rest.Err? ==> exists i :: FirstBadLine(lines, i) && ParseLine(lines[i]) == Err(rest.error) by {
          if rest.Err? {
            var i :| FirstBadLine(lines[1..], i) && ParseLine(lines[1..][i]) == Err(rest.error);
            assert FirstBadLine(lines, i + 1);
          }
        }
        rest
      else
        match ParseLine(lines[0])
        case Err(e) =>
          assert FirstBadLine(lines, 0);
          Err(e)
        case Ok(e) =>
          if rest.Err? then
            assert exists i :: FirstBadLine(lines, i) && ParseLine(lines[i]) == Err(rest.error) by {
              var i :| FirstBadLine(lines[1..], i) && ParseLine(lines[1..][i]) == Err(rest.error);
              assert FirstBadLine(lines, i + 1);
            }
            Err(rest.error)
          else Ok([e] + rest.value)
  }

  /** Two first bad lines are the same line. */
  lemma FirstBadLineUnique(lines: seq<string>, i: int, k: int)
    requires FirstBadLine(lines, i) && FirstBadLine(lines, k)
    ensures i == k
  {
  }

  /** Each non-empty line yields one entry, in order; empty lines yield none. */
  lemma {:induction false} ParseLinesEntries(lines: seq<string>)
    requires ParseLines(lines).Ok?
    ensures |ParseLines(lines).value| == |Seqs.Filter(lines, NonEmpty)|
    ensures forall k :: 0 <= k < |ParseLines(lines).value| ==>
      ParseLine(Seqs.Filter(lines, NonEmpty)[k]) == Ok(ParseLines(lines).value[k])
  {
    if |lines| > 0 {
      ParseLinesEntries(lines[1..]);
      assert lines == [lines[0]] + lines[1..];
      if lines[0] != "" {
        assert Seqs.Filter(lines, NonEmpty) == [lines[0]] + Seqs.Filter(lines[1..], NonEmpty);
      }
    }
  }

  /** An entry the suffix loop throws on: no name, or a name without `.git`. */
  predicate Unsuffixed(e: RemoteEntry)
  {
    e.name.None? || !EndsWith(e.name.value, GitSuffix)
  }

  /** What the suffix loop throws for an entry: reading `endsWith` of an undefined name
      is a TypeError, and a name without `.git` is reported. */
  function SuffixError(e: RemoteEntry): RepoError
  {
    if e.name.None? then MissingName(e.owner) else NoGitSuffix(e.name.value)
  }

  /** Entry `i` is the first one the suffix loop throws on. */
  ghost predicate FirstUnsuffixed(entries: seq<RemoteEntry>, i: int)
  {
    0 <= i < |entries| && Unsuffixed(entries[i]) && forall j :: 0 <= j < i ==> !Unsuffixed(entries[j])
  }

  /** The loop over entries: each name must end with `.git`, which is cut off; the first
      entry that fails is the one reported. */
  function StripSuffixes(entries: seq<RemoteEntry>): (r: Result<seq<RepoRef>, RepoError>)
    ensures r.Ok? <==> forall i :: 0 <= i < |entries| ==> !Unsuffixed(entries[i])
    ensures r.Ok? ==> |r.value| == |entries|
    ensures r.Ok? ==> forall i :: 0 <= i < |entries| ==>
      entries[i] == RemoteEntry(r.value[i].owner, Some(r.value[i].name + GitSuffix))
    ensures r.Err? ==> exists i :: FirstUnsuffixed(entries, i) && r.error == SuffixError(entries[i])
  {
    if |entries| == 0 then Ok([])
    else
      var e := entries[0];
      if Unsuffixed(e) then
        assert FirstUnsuffixed(entries, 0);
        Err(SuffixError(e))
      else
        var rest := StripSuffixes(entries[1..]);
        if rest.Err? then
          assert exists i :: FirstUnsuffixed(entries, i) && rest.error == SuffixError(entries[i]) by {
            var i :| FirstUnsuffixed(entries[1..], i) && rest.error == SuffixError(entries[1..][i]);
            assert FirstUnsuffixed(entries, i + 1) by {
              forall j | 0 <= j < i + 1 ensures !Unsuffixed(entries[j]) {
                if j > 0 { assert entries[j] == entries[1..][j - 1]; }
              }
            }
          }
          Err(rest.error)
        else
          var n := e.name.value;
          assert n == n[..|n| - 4] + GitSuffix;
          Ok([RepoRef(e.owner, n[..|n| - 4])] + rest.value)
  }

  /** The first `n` entries all equal the first one. */
  ghost predicate AllSame(repos: seq<RepoRef>, n: nat)
    requires n <= |repos|
  {
    forall j :: 0 <= j < n ==> repos[j] == repos[0]
  }

  /** `k` is the first index whose entry differs from its predecessor. */
  ghost predicate FirstDisagreement(repos: seq<RepoRef>, k: nat)
  {
    1 <= k < |repos| && repos[k - 1] != repos[k] && AllSame(repos, k)
  }

  /** The adjacent-pair loop from index `i` on, given that everything before `i` agrees. */
  function Agreeing(repos: seq<RepoRef>, i: nat): (r: Result<RepoRef, RepoError>)
    requires 1 <= i <= |repos|
    requires AllSame(repos, i)
    ensures r.Ok? <==> AllSame(repos, |repos|)
    ensures r.Ok? ==> r.value == repos[0]
    ensures r.Err? ==> exists k :: i <= k && FirstDisagreement(repos, k) && r.error == MoreThanOneRepo(repos[k - 1], repos[k])
    decreases |repos| - i
  {
    if i == |repos| then Ok(repos[0])
    else if repos[i].name != repos[i - 1].name || repos[i].owner != repos[i - 1].owner then
      Err(MoreThanOneRepo(repos[i - 1], repos[i]))
    else Agreeing(repos, i + 1)
  }

  /** "No repo found" for zero entries; otherwise the first adjacent pair that differs
      is reported, and when none does the first entry is the answer. */
  function SingleRepo(repos: seq<RepoRef>): (r: Result<RepoRef, RepoError>)
    ensures r == Err(NoRepoFound) <==> |repos| == 0
    ensures r.Ok? <==> |repos| > 0 && AllSame(repos, |repos|)
    ensures r.Ok? ==> r.value == repos[0]
    ensures r.Err? && |repos| > 0 ==> exists k :: 1 <= k < |repos| && FirstDisagreement(repos, k) && r.error == MoreThanOneRepo(repos[k - 1], repos[k])
  {
    if |repos| == 0 then Err(NoRepoFound) else Agreeing(repos, 1)
  }

  /** The lines `git remote -v` printed. */
  function RemoteLines(output: string): seq<string>
  {
    Split(output, '\n')
  }

  /** Once every stage has succeeded, each non-empty line names the repository found. */
  lemma StagesAgree(lines: seq<string>, entries: seq<RemoteEntry>, repos: seq<RepoRef>)
    requires ParseLines(lines) == Ok(entries)
    requires StripSuffixes(entries) == Ok(repos)
    requires SingleRepo(repos).Ok?
    ensures exists l :: l in lines && l != ""
    ensures forall l :: l in lines && l != "" ==>
      ParseLine(l) == Ok(RemoteEntry(repos[0].owner, Some(repos[0].name + GitSuffix)))
  {
    ParseLinesEntries(lines);
    var kept := Seqs.Filter(lines, NonEmpty);
    assert kept[0] in lines && NonEmpty(kept[0]);
    forall l | l in lines && l != ""
      ensures ParseLine(l) == Ok(RemoteEntry(repos[0].owner, Some(repos[0].name + GitSuffix)))
    {
      assert NonEmpty(l) && l in kept;
      var k :| 0 <= k < |kept| && kept[k] == l;
      assert repos[k] == repos[0];
    }
  }

  /** `getRepo`, given the text `git remote -v` printed. On success every non-empty line
      names the returned repository with a `.git` suffix, and there is at least one. */
  function GetRepo(output: string): (r: Result<RepoRef, RepoError>)
    ensures r.Ok? ==> exists l :: l in RemoteLines(output) && l != ""
    ensures r.Ok? ==> forall l :: l in RemoteLines(output) && l != "" ==>
      ParseLine(l) == Ok(RemoteEntry(r.value.owner, Some(r.value.name + GitSuffix)))
  {
    var lines := RemoteLines(output);
    match ParseLines(lines)
    case Err(e) => Err(e)
    case Ok(entries) =>
      match StripSuffixes(entries)
      case Err(e) => Err(e)
      case Ok(repos) =>
        var r := SingleRepo(repos);
        if r.Ok? then StagesAgree(lines, entries, repos); r else r
  }

  /** The parse runs over every line before any suffix is checked: the first non-empty
      line that does not parse decides `getRepo`'s error, whatever the lines before it name. */
  lemma GetRepoParseFirst(output: string, i: int)
    requires FirstBadLine(RemoteLines(output), i)
    ensures GetRepo(output) == Err(ParseLine(RemoteLines(output)[i]).error)
  {
    var lines := RemoteLines(output);
    assert ParseLines(lines).Err?;
    var k :| FirstBadLine(lines, k) && ParseLine(lines[k]) == Err(ParseLines(lines).error);
    FirstBadLineUnique(lines, i, k);
  }

  lemma SuffixCancel(a: string, b: string, s: string)
    requires a + s == b + s
    ensures a == b
  {
    assert a == (a + s)[..|a|];
    assert b == (b + s)[..|b|];
  }

  /** When every non-empty line parses to `e`, and there is one, the lines give a
      non-empty list of copies of `e`. */
  lemma LinesAllName(lines: seq<string>, e: RemoteEntry)
    requires exists l :: l in lines && l != ""
    requires forall l :: l in lines && l != "" ==> ParseLine(l) == Ok(e)
    ensures ParseLines(lines).Ok?
    ensures |ParseLines(lines).value| >= 1
    ensures forall k :: 0 <= k < |ParseLines(lines).value| ==> ParseLines(lines).value[k] == e
  {
    assert ParseLines(lines).Ok?;
    var entries := ParseLines(lines).value;
    ParseLinesEntries(lines);
    var kept := Seqs.Filter(lines, NonEmpty);
    var l0 :| l0 in lines && l0 != "";
    assert NonEmpty(l0) && l0 in kept;
    forall k | 0 <= k < |entries|
      ensures entries[k] == e
    {
      assert kept[k] in kept;
    }
  }

  /** Stripping copies of `repo`'s entry gives copies of `repo`. */
  lemma EntriesAllName(entries: seq<RemoteEntry>, repo: RepoRef)
    requires forall k :: 0 <= k < |entries| ==> entries[k] == RemoteEntry(repo.owner, Some(repo.name + GitSuffix))
    ensures StripSuffixes(entries).Ok?
    ensures forall i :: 0 <= i < |StripSuffixes(entries).value| ==> StripSuffixes(entries).value[i] == repo
  {
    assert EndsWith(repo.name + GitSuffix, GitSuffix);
    var repos := StripSuffixes(entries).value;
    forall i | 0 <= i < |repos|
      ensures repos[i] == repo
    {
      SuffixCancel(repos[i].name, repo.name, GitSuffix);
    }
  }

  /** The converse of `GetRepo`'s contract: when there is a non-empty line and every
      non-empty line names `repo` with a `.git` suffix, `repo` is the answer. */
  lemma GetRepoComplete(output: string, repo: RepoRef)
    requires exists l :: l in RemoteLines(output) && l != ""
    requires forall l :: l in RemoteLines(output) && l != "" ==>
      ParseLine(l) == Ok(RemoteEntry(repo.owner, Some(repo.name + GitSuffix)))
    ensures GetRepo(output) == Ok(repo)
  {
    var lines := RemoteLines(output);
    LinesAllName(lines, RemoteEntry(repo.owner, Some(repo.name + GitSuffix)));
    var entries := ParseLines(lines).value;
    EntriesAllName(entries, repo);
    var repos := StripSuffixes(entries).value;
    assert AllSame(repos, |repos|);
  }

  lemma {:induction false} JoinChars(parts: seq<string>, sep: char, c: char)
    requires c in Join(parts, sep)
    ensures c == sep || exists k :: 0 <= k < |parts| && c in parts[k]
  {
    if |parts| > 1 {
      var rest := Join(parts[1..], sep);
      assert Join(parts, sep) == parts[0] + [sep] + rest;
      if c in rest {
        JoinChars(parts[1..], sep, c);
        if c != sep {
          var k :| 0 <= k < |parts[1..]| && c in parts[1..][k];
          assert c in parts[k + 1];
        }
      }
    }
  }

  lemma {:induction false} PiecesOfSeparators(s: string, sep: char)
    requires forall i :: 0 <= i < |s| ==> s[i] == sep
    ensures forall k :: 0 <= k < |Split(s, sep)| ==> Split(s, sep)[k] == ""
  {
    if |s| > 0 {
      PiecesOfSeparators(s[1..], sep);
    }
  }

  /** Every line is empty exactly when the text holds nothing but line breaks. */
  lemma OnlyLineBreaks(output: string)
    ensures (forall l :: l in RemoteLines(output) ==> l == "")
        <==> (forall i :: 0 <= i < |output| ==> output[i] == '\n')
  {
    var lines := RemoteLines(output);
    if forall l :: l in lines ==> l == "" {
      forall i | 0 <= i < |output|
        ensures output[i] == '\n'
      {
        SplitJoinsBack(output, '\n');
        assert output[i] in Join(lines, '\n');
        JoinChars(lines, '\n', output[i]);
        assert forall k :: 0 <= k < |lines| ==> lines[k] in lines;
      }
    }
    if forall i :: 0 <= i < |output| ==> output[i] == '\n' {
      PiecesOfSeparators(output, '\n');
    }
  }

  /** "No repo found" is reported exactly for a listing of nothing but line breaks. */
  lemma GetRepoNoRepo(output: string)
    ensures GetRepo(output) == Err(NoRepoFound)
        <==> (forall i :: 0 <= i < |output| ==> output[i] == '\n')
  {
    OnlyLineBreaks(output);
    var lines := RemoteLines(output);
    var kept := Seqs.Filter(lines, NonEmpty);
    if forall l :: l in lines ==> l == "" {
      assert forall i :: 0 <= i < |lines| ==> lines[i] in lines;
      assert ParseLines(lines).Ok?;
      ParseLinesEntries(lines);
      if |kept| > 0 {
        assert false;
      }
      assert StripSuffixes(ParseLines(lines).value) == Ok([]);
    }
    if GetRepo(output) == Err(NoRepoFound) {
      assert ParseLines(lines).Ok?;
      ParseLinesEntries(lines);
      forall l | l in lines
        ensures l == ""
      {
        if l != "" {
          assert false;
        }
      }
    }
  }

  /** The suffix check covers every entry before emptiness or agreement is looked at:
      once all lines parse, one entry without `.git` decides the error. */
  lemma GetRepoSuffixFirst(output: string, bad: string)
    requires forall l :: l in RemoteLines(output) && l != "" ==> ParseLine(l).Ok?
    requires bad in RemoteLines(output) && bad != ""
    requires ParseLine(bad).value.name.None? || !EndsWith(ParseLine(bad).value.name.value, GitSuffix)
    ensures GetRepo(output).Err?
    ensures GetRepo(output).error.MissingName? || GetRepo(output).error.NoGitSuffix?
  {
    var lines := RemoteLines(output);
    assert ParseLines(lines).Ok?;
    var entries := ParseLines(lines).value;
    ParseLinesEntries(lines);
    var kept := Seqs.Filter(lines, NonEmpty);
    assert NonEmpty(bad) && bad in kept;
    var k :| 0 <= k < |kept| && kept[k] == bad;
    assert entries[k] == ParseLine(bad).value;
    assert StripSuffixes(entries).Err?;
  }

  /** Two non-empty lines naming different repositories, all with `.git`, are reported
      as "More than one repo". */
  lemma GetRepoDisagree(output: string, l1: string, l2: string)
    requires forall l :: l in RemoteLines(output) && l != "" ==>
      ParseLine(l).Ok? && ParseLine(l).value.name.Some? && EndsWith(ParseLine(l).value.name.value, GitSuffix)
    requires l1 in RemoteLines(output) && l1 != "" && l2 in RemoteLines(output) && l2 != ""
    requires ParseLine(l1) != ParseLine(l2)
    ensures GetRepo(output).Err? && GetRepo(output).error.MoreThanOneRepo?
  {
    var lines := RemoteLines(output);
    assert ParseLines(lines).Ok?;
    var entries := ParseLines(lines).value;
    ParseLinesEntries(lines);
    var kept := Seqs.Filter(lines, NonEmpty);
    assert NonEmpty(l1) && l1 in kept;
    assert StripSuffixes(entries).Ok? by {
      forall i | 0 <= i < |entries|
        ensures entries[i].name.Some? && EndsWith(entries[i].name.value, GitSuffix)
      {
        assert kept[i] in kept;
      }
    }
    assert |StripSuffixes(entries).value| > 0;
  }

  lemma TwoLines(a: string, b: string)
    requires '\n' !in a && '\n' !in b
    ensures RemoteLines(a + "\n" + b + "\n") == [a, b, ""]
  {
    assert a + "\n" + b + "\n" == a + ['\n'] + (b + ['\n'] + "");
    SplitAtFirst(a, b + ['\n'] + "", '\n');
    SplitAtFirst(b, "", '\n');
  }

  /** The usual listing, a fetch line and a push line for one `owner/name.git` remote,
      yields `{owner, name}`. */
  lemma GetRepoFetchPush(remote: string, host: string, owner: string, name: string)
    requires '\t' !in remote && '\n' !in remote
    requires '\t' !in host && ':' !in host && '\n' !in host
    requires Plain(owner) && Plain(name + GitSuffix) && '\n' !in owner && '\n' !in name
    ensures GetRepo(ScpLine(remote, host, owner, name + GitSuffix, "(fetch)") + "\n"
                  + ScpLine(remote, host, owner, name + GitSuffix, "(push)") + "\n")
         == Ok(RepoRef(owner, name))
  {
    var fetch := ScpLine(remote, host, owner, name + GitSuffix, "(fetch)");
    var push := ScpLine(remote, host, owner, name + GitSuffix, "(push)");
    assert '\n' !in fetch && '\n' !in push;
    TwoLines(fetch, push);
    ParseRemoteLine(remote, host, owner, name + GitSuffix, "(fetch)");
    ParseRemoteLine(remote, host, owner, name + GitSuffix, "(push)");
    assert fetch in RemoteLines(fetch + "\n" + push + "\n") && fetch != "" by {
      assert fetch[|remote|] == '\t';
    }
    GetRepoComplete(fetch + "\n" + push + "\n", RepoRef(owner, name));
  }

  /** What `split(' ')[0].split('/')` makes of `//rest`: two empty segments first. */
  lemma SlashSlashPath(rest: string)
    ensures |Split(Split("//" + rest, ' ')[0], '/')| >= 2
    ensures Split(Split("//" + rest, ' ')[0], '/')[..2] == ["", ""]
  {
    SplitFirst("//", rest, ' ');
    var w := Split(rest, ' ')[0];
    assert "//" + w == "" + ['/'] + ("" + ['/'] + w);
    SplitAtFirst("", "" + ['/'] + w, '/');
    SplitAtFirst("", w, '/');
  }

  /** An `https://` remote has nothing between the two slashes after the scheme's `:`,
      so its owner and name come out empty. */
  lemma ParseHttpsLine(remote: string, scheme: string, rest: string)
    requires '\t' !in remote
    requires '\t' !in scheme && ':' !in scheme
    requires '\t' !in rest && ':' !in rest
    ensures ParseLine(remote + "\t" + scheme + "://" + rest) == Ok(RemoteEntry("", Some("")))
  {
    var after := "//" + rest;
    var field := scheme + ":" + after;
    var line := remote + "\t" + field;
    assert line == remote + "\t" + scheme + "://" + rest;
    assert '\t' !in field && ':' !in after;
    SplitAtFirst(remote, field, '\t');
    SplitNoSep(field, '\t');
    SplitAtFirst(scheme, after, ':');
    SplitNoSep(after, ':');
    SlashSlashPath(rest);
  }

  /** ... and therefore such a remote is rejected for its missing `.git`. */
  lemma GetRepoHttps(remote: string, scheme: string, rest: string)
    requires '\t' !in remote && '\n' !in remote
    requires '\t' !in scheme && ':' !in scheme && '\n' !in scheme
    requires '\t' !in rest && ':' !in rest && '\n' !in rest
    ensures GetRepo(remote + "\t" + scheme + "://" + rest + "\n") == Err(NoGitSuffix(""))
  {
    var line := remote + "\t" + scheme + "://" + rest;
    ParseHttpsLine(remote, scheme, rest);
    assert line + "\n" == line + ['\n'] + "";
    SplitAtFirst(line, "", '\n');
    assert RemoteLines(line + "\n") == [line, ""];
    assert line != "" by {
      assert line[|remote|] == '\t';
    }
    assert [line, ""][1..] == [""];
    assert [""][1..] == [];
    assert ParseLines([""]) == Ok([]);
    assert [RemoteEntry("", Some(""))] + [] == [RemoteEntry("", Some(""))];
    assert ParseLines([line, ""]) == Ok([RemoteEntry("", Some(""))]);
  }

  /** ... and therefore a listing of one such remote is rejected for its missing name. */
  lemma GetRepoNoSlash(remote: string, host: string, path: string, tail: string)
    requires '\t' !in remote && '\n' !in remote
    requires '\t' !in host && ':' !in host && '\n' !in host
    requires Plain(path) && '\n' !in path && '\n' !in tail
    ensures GetRepo(remote + "\t" + host + ":" + path + " " + tail + "\n") == Err(MissingName(path))
  {
    var line := remote + "\t" + host + ":" + path + " " + tail;
    ParseNoSlashLine(remote, host, path, tail);
    assert line + "\n" == line + ['\n'] + "";
    assert '\n' !in line;
    SplitAtFirst(line, "", '\n');
    assert RemoteLines(line + "\n") == [line, ""];
    assert line != "" by {
      assert line[|remote|] == '\t';
    }
    assert [line, ""][1..] == [""];
    assert [""][1..] == [];
    assert ParseLines([""]) == Ok([]);
    assert [RemoteEntry(path, None)] + [] == [RemoteEntry(path, None)];
    assert ParseLines([line, ""]) == Ok([RemoteEntry(path, None)]);
  }

  /** `noUncommittedChanges`: stops iff `git diff --summary` lists a file. */
  function NoUncommittedChanges(changedFiles: seq<string>): (r: Option<Stop>)
    ensures r.Some? <==> |changedFiles| > 0
    ensures r.Some? ==> r.value == UncommittedChanges
  {
    if |changedFiles| > 0 then Some(UncommittedChanges) else None
  }

  /** `push`: checks for uncommitted changes first, then pushes the current branch with
      `--set-upstream origin <branch>`. */
  function Push(changedFiles: seq<string>, branch: string): (r: Result<seq<string>, Stop>)
    ensures r.Ok? <==> changedFiles == []
    ensures r.Err? ==> r.error == UncommittedChanges
    ensures r.Ok? ==> r.value == ["--set-upstream", "origin", branch]
  {
    match NoUncommittedChanges(changedFiles)
    case Some(stop) => Err(stop)
    case None => Ok(["--set-upstream", "origin", branch])
  }
}
