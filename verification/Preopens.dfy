/**
 Preopened directories and path resolution (src/host_files.rs).

 The source tests rendered paths byte by byte; the specification compares component lists.
 Host paths are lexical component lists, as `std::path` iterates them.
 */
module Preopens {
  import opened Common
  import opened GuestPath

  datatype HostPath = HostPath(rooted: bool, comps: seq<string>)
  {
    function Under(more: seq<string>): HostPath { HostPath(rooted, comps + more) }

    /** `Path::parent`: nothing above a bare root or the empty path. */
    function Parent(): Option<HostPath>
    {
      if comps == [] then None else Some(HostPath(rooted, comps[..|comps| - 1]))
    }

    /** `Path::starts_with`: a component-wise prefix. */
    predicate StartsWith(base: HostPath) { base.rooted == rooted && base.comps <= comps }
  }

  datatype Preopen = Preopen(guest: string, host: HostPath)
  {
    /** The guest side as a component list. */
    function Dir(): Normal { if Parse(guest).Ok? then Parse(guest).value else Normal(false, []) }
  }

  /** Every mapping built by `HostFiles::new` has a normalized guest side. */
  ghost predicate Normalized(ps: seq<Preopen>)
  {
    forall i :: 0 <= i < |ps| ==> Normalize(ps[i].guest) == Ok(ps[i].guest)
  }

  // ---------- the specification: component lists ----------

  /**
   "." covers every relative path, "/" covers every path, any other directory covers the
   paths of its own kind that have its components as a prefix.
   */
  predicate Covers(dir: Normal, n: Normal)
  {
    if dir.names == [] then dir.absolute || !n.absolute
    else dir.absolute == n.absolute && dir.names <= n.names
  }

  function Remaining(dir: Normal, n: Normal): (rest: seq<string>)
    requires Covers(dir, n)
    ensures n.names == n.names[..|dir.names|] + rest
  {
    n.names[|dir.names|..]
  }

  /** The first preopen of a list that covers a path. */
  function Find(ps: seq<Preopen>, n: Normal): (r: Option<Preopen>)
    ensures r.Some? ==> r.value in ps && Covers(r.value.Dir(), n)
    ensures r.None? ==> forall i :: 0 <= i < |ps| ==> !Covers(ps[i].Dir(), n)
  {
    if ps == [] then None
    else if Covers(ps[0].Dir(), n) then Some(ps[0])
    else Find(ps[1..], n)
  }

  function Resolve(ps: seq<Preopen>, path: string): (r: Result<HostPath>)
  {
    match Parse(path)
    case Err(e) => Err(e)
    case Ok(n) =>
      match Find(ps, n)
      case None => Err(ENOTCAPABLE)
      case Some(p) => Ok(p.host.Under(Remaining(p.Dir(), n)))
  }

  function ResolveParent(ps: seq<Preopen>, path: string): (r: Result<HostPath>)
  {
    match Resolve(ps, path)
    case Err(e) => Err(e)
    case Ok(full) =>
      match full.Parent()
      case None => Err(EINVAL)
      case Some(parent) =>
        if exists i :: 0 <= i < |ps| && parent.StartsWith(ps[i].host) then Ok(parent) else Err(ENOTCAPABLE)
  }

  // ---------- the byte tests refine it ----------

  /** The source's byte tests: the text left over after a guest prefix, if it applies. */
  function Suffix(guest: string, normalized: string): (r: Option<string>)
  {
    if guest == "." && !StartsWithSlash(normalized) then Some(normalized)
    else if guest == "/" then
      Some(if StartsWithSlash(normalized) then normalized[1..] else normalized)
    else if normalized == guest then Some("")
    else if guest <= normalized && |guest| < |normalized| && normalized[|guest|] == '/' then
      Some(normalized[|guest| + 1..])
    else None
  }

  /** The components `join_suffix` pushes. */
  function Pushed(parts: seq<string>): (r: seq<string>)
  {
    if parts == [] then []
    else (if parts[0] != "" && parts[0] != "." then [parts[0]] else []) + Pushed(parts[1..])
  }

  lemma {:induction false} PushedNames(names: seq<string>)
    requires forall i :: 0 <= i < |names| ==> IsName(names[i])
    ensures Pushed(names) == names
  {
    if names == [] {
    } else {
      PushedNames(names[1..]);
      assert [names[0]] + names[1..] == names;
    }
  }

  lemma PushedRendered(names: seq<string>)
    requires Canonical(Normal(false, names))
    ensures Pushed(Split(Join(names))) == names
    ensures Pushed(Split(Render(Normal(false, names)))) == names
  {
    if names == [] {
      SplitPlain("");
      SplitPlain(".");
      assert [""][1..] == [] && ["."][1..] == [];
    } else {
      SplitUndoesJoin(names);
      PushedNames(names);
    }
  }

  lemma {:induction false} JoinConcat(p: seq<string>, q: seq<string>)
    requires p != [] && q != []
    ensures Join(p + q) == Join(p) + "/" + Join(q)
  {
    if |p| == 1 {
      assert (p + q)[1..] == q;
    } else {
      assert (p + q)[1..] == p[1..] + q;
      JoinConcat(p[1..], q);
    }
  }

  /** A joined list followed by a slash is a byte prefix exactly for a proper component prefix. */
  lemma JoinPrefix(g: seq<string>, c: seq<string>)
    requires g != [] && Canonical(Normal(false, g)) && Canonical(Normal(false, c))
    ensures Join(g) + "/" <= Join(c) <==> g < c
    ensures g < c ==> Join(c)[|Join(g)| + 1..] == Join(c[|g|..])
  {
    if g < c {
      JoinOfLonger(g, c);
    }
    if Join(g) + "/" <= Join(c) {
      PrefixOfJoin(g, c);
    }
  }

  lemma JoinOfLonger(g: seq<string>, c: seq<string>)
    requires g != [] && g < c
    ensures Join(g) + "/" <= Join(c) && Join(c)[|Join(g)| + 1..] == Join(c[|g|..])
  {
    var rest := c[|g|..];
    assert c == g + rest;
    JoinConcat(g, rest);
    assert Join(c) == (Join(g) + "/") + Join(rest);
  }

  lemma PrefixOfJoin(g: seq<string>, c: seq<string>)
    requires g != [] && Canonical(Normal(false, g)) && Canonical(Normal(false, c))
    requires Join(g) + "/" <= Join(c)
    ensures g < c
  {
    var rest := Join(c)[|Join(g)| + 1..];
    assert Join(c) == Join(g) + "/" + rest;
    SplitAtSlash(Join(g), rest);
    SplitUndoesJoin(g);
    assert c != [];
    SplitUndoesJoin(c);
    assert c == g + Split(rest);
  }

  lemma PrefixThenSlash(g: string, n: string)
    ensures g + "/" <= n <==> g <= n && |g| < |n| && n[|g|] == '/'
  {
    if g <= n && |g| < |n| && n[|g|] == '/' {
      assert n[..|g| + 1] == g + "/";
    }
    if g + "/" <= n {
      assert n[..|g|] == (g + "/")[..|g|] == g;
      assert n[|g|] == (g + "/")[|g|];
    }
  }

  /** For two directories of one kind with names, the byte test is the component prefix test. */
  lemma SuffixOfSameKind(dir: Normal, n: Normal)
    requires Canonical(dir) && Canonical(n) && dir.names != [] && dir.absolute == n.absolute
    requires Render(dir) != "." && Render(dir) != "/"
    ensures Suffix(Render(dir), Render(n)).Some? <==> dir.names <= n.names
    ensures dir.names <= n.names ==>
              Suffix(Render(dir), Render(n)).value == Join(n.names[|dir.names|..])
  {
    var g, t := Render(dir), Render(n);
    RenderInjective(dir, n);
    JoinPrefix(dir.names, n.names);
    PrefixThenSlash(g, t);
    if dir.names == n.names {
      assert n.names[|dir.names|..] == [];
    } else if n.names != [] || n.absolute {
      assert g + "/" <= t <==> Join(dir.names) + "/" <= Join(n.names) by {
        if n.absolute {
          assert "/" + Join(dir.names) + "/" == "/" + (Join(dir.names) + "/");
          assert t[1..] == Join(n.names);
        }
      }
    } else {
      assert |g| > 0;
    }
  }

  /** The byte tests for "." and "/", the directories without names. */
  lemma SuffixOfRoot(dir: Normal, n: Normal)
    requires dir.names == [] && Canonical(n)
    ensures Suffix(Render(dir), Render(n)) ==
            if !Covers(dir, n) then None
            else Some(if n.absolute then Join(n.names) else Render(n))
  {
    var t := Render(n);
    if n.names != [] { JoinStart(n.names); }
    assert Render(Normal(true, [])) == "/";
    assert Render(dir) == if dir.absolute then "/" else ".";
    if n.absolute {
      assert t[0] == '/' && t[1..] == Join(n.names);
    } else {
      assert !StartsWithSlash(t);
    }
  }

  /** The byte tests pick the same preopens and leave the same components as the specification. */
  lemma SuffixRefinesCovers(dir: Normal, n: Normal)
    requires Canonical(dir) && Canonical(n)
    ensures Suffix(Render(dir), Render(n)).Some? <==> Covers(dir, n)
    ensures Covers(dir, n) ==>
              Pushed(Split(Suffix(Render(dir), Render(n)).value)) == Remaining(dir, n)
  {
    if dir.names == [] {
      SuffixOfRoot(dir, n);
      PushedRendered(n.names);
      assert n.names[0..] == n.names;
      assert !n.absolute ==> Render(n) == Render(Normal(false, n.names));
    } else {
      RenderInjective(dir, Normal(false, []));
      RenderInjective(dir, Normal(true, []));
      assert Render(Normal(true, [])) == "/";
      if dir.absolute == n.absolute {
        SuffixOfSameKind(dir, n);
        if dir.names <= n.names {
          PushedRendered(n.names[|dir.names|..]);
        }
      } else {
        JoinStart(dir.names);
        if n.names != [] { JoinStart(n.names); }
        assert Render(dir)[0] != Render(n)[0];
      }
    }
  }

  /**
   Coverage in the words of the texts: "/" covers every path, "." every path that does not begin
   with a slash, and any other directory itself and whatever follows it after a slash.
   */
  lemma CoverageInText(guest: string, path: string)
    requires Normalize(guest) == Ok(guest) && Normalize(path).Ok?
    ensures var text := Normalize(path).value;
            Covers(Parse(guest).value, Parse(path).value) <==>
            if guest == "/" then true
            else if guest == "." then !("/" <= path)
            else text == guest || guest + "/" <= text
  {
    ParseIsCanonical(guest);
    ParseIsCanonical(path);
    var text, n := Normalize(path).value, Parse(path).value;
    SuffixRefinesCovers(Parse(guest).value, n);
    PrefixThenSlash(guest, text);
    if n.names != [] {
      JoinStart(n.names);
    }
    assert StartsWithSlash(text) <==> "/" <= path;
  }

  // ---------- the operations ----------

  method JoinSuffix(root: HostPath, suffix: string) returns (path: HostPath)
    ensures path == root.Under(Pushed(Split(suffix)))
  {
    path := root;
    var parts := Split(suffix);
    for i := 0 to |parts|
      invariant path.Under(Pushed(parts[i..])) == root.Under(Pushed(parts))
    {
      assert parts[i..][1..] == parts[i + 1..];
      if parts[i] != "" && parts[i] != "." {
        path := HostPath(path.rooted, path.comps + [parts[i]]);
      }
    }
    assert parts[|parts|..] == [] && path.comps + [] == path.comps;
  }

  /** `resolve`: byte tests over the preopens in order, proved against component lists. */
  method ResolveGuestPath(ps: seq<Preopen>, path: string) returns (r: Result<HostPath>)
    requires Normalized(ps)
    ensures r == Resolve(ps, path)
  {
    var attempt := NormalizeGuestPath(path);
    if attempt.Err? {
      return Err(attempt.errno);
    }
    var normalized := attempt.value;
    ghost var n := Parse(path).value;
    ParseIsCanonical(path);
    for i := 0 to |ps|
      invariant Find(ps, n) == Find(ps[i..], n)
    {
      assert Normalize(ps[i].guest) == Ok(ps[i].guest);
      ParseIsCanonical(ps[i].guest);
      SuffixRefinesCovers(ps[i].Dir(), n);
      assert ps[i..][1..] == ps[i + 1..];
      var suffix := Suffix(ps[i].guest, normalized);
      if suffix.Some? {
        var full := JoinSuffix(ps[i].host, suffix.value);
        return Ok(full);
      }
    }
    return Err(ENOTCAPABLE);
  }

  /** `resolve_parent`. */
  method ResolveGuestParent(ps: seq<Preopen>, path: string) returns (r: Result<HostPath>)
    requires Normalized(ps)
    ensures r == ResolveParent(ps, path)
  {
    var full := ResolveGuestPath(ps, path);
    if full.Err? {
      return Err(full.errno);
    }
    var parent := full.value.Parent();
    if parent.None? {
      return Err(EINVAL);
    }
    for i := 0 to |ps|
      invariant forall j :: 0 <= j < i ==> !parent.value.StartsWith(ps[j].host)
    {
      if parent.value.StartsWith(ps[i].host) {
        return Ok(parent.value);
      }
    }
    return Err(ENOTCAPABLE);
  }

  // ---------- order of the preopens ----------

  ghost predicate LongestFirst(ps: seq<Preopen>)
  {
    forall i, j :: 0 <= i < j < |ps| ==> |ps[i].guest| >= |ps[j].guest|
  }

  /** Puts an earlier-declared preopen into a sorted list, in front of those of its length. */
  function Insert(p: Preopen, sorted: seq<Preopen>): (r: seq<Preopen>)
  {
    if sorted == [] || |sorted[0].guest| <= |p.guest| then [p] + sorted
    else [sorted[0]] + Insert(p, sorted[1..])
  }

  /** The stable sort by decreasing guest length. */
  function Sort(declared: seq<Preopen>): (r: seq<Preopen>)
  {
    if declared == [] then [] else Insert(declared[0], Sort(declared[1..]))
  }

  lemma {:induction false} InsertPermutes(p: Preopen, sorted: seq<Preopen>)
    ensures multiset(Insert(p, sorted)) == multiset{p} + multiset(sorted)
  {
    if sorted != [] && |sorted[0].guest| > |p.guest| {
      InsertPermutes(p, sorted[1..]);
      assert sorted == [sorted[0]] + sorted[1..];
    }
  }

  lemma {:induction false} SortPermutes(declared: seq<Preopen>)
    ensures multiset(Sort(declared)) == multiset(declared)
  {
    if declared == [] {
    } else {
      SortPermutes(declared[1..]);
      InsertPermutes(declared[0], Sort(declared[1..]));
      assert declared == [declared[0]] + declared[1..];
    }
  }

  lemma {:induction false} InsertSorts(p: Preopen, sorted: seq<Preopen>)
    requires LongestFirst(sorted)
    ensures LongestFirst(Insert(p, sorted))
    ensures |Insert(p, sorted)| > 0
    ensures |Insert(p, sorted)[0].guest| == |p.guest| ||
            (sorted != [] && Insert(p, sorted)[0] == sorted[0])
  {
    if sorted != [] && |sorted[0].guest| > |p.guest| {
      var rest := Insert(p, sorted[1..]);
      InsertSorts(p, sorted[1..]);
      assert |sorted[0].guest| >= |rest[0].guest|;
    }
  }

  lemma {:induction false} SortSorts(declared: seq<Preopen>)
    ensures LongestFirst(Sort(declared))
  {
    if declared == [] {
    } else {
      SortSorts(declared[1..]);
      InsertSorts(declared[0], Sort(declared[1..]));
    }
  }

  /** What the sorted list finds was declared. */
  lemma FoundIsDeclared(declared: seq<Preopen>, n: Normal) returns (i: nat)
    requires Find(Sort(declared), n).Some?
    ensures i < |declared| && declared[i] == Find(Sort(declared), n).value
  {
    var p := Find(Sort(declared), n).value;
    SortPermutes(declared);
    assert p in multiset(Sort(declared));
    assert p in multiset(declared);
    i :| 0 <= i < |declared| && declared[i] == p;
  }

  lemma {:induction false} FindInInsert(p: Preopen, sorted: seq<Preopen>, n: Normal)
    requires LongestFirst(sorted)
    ensures var old' := Find(sorted, n);
            Find(Insert(p, sorted), n) ==
            if Covers(p.Dir(), n) && (old'.None? || |old'.value.guest| <= |p.guest|) then Some(p) else old'
  {
    if sorted == [] {
      assert ([p] + sorted)[1..] == [];
    } else if |sorted[0].guest| <= |p.guest| {
      assert ([p] + sorted)[1..] == sorted;
    } else {
      FindInInsert(p, sorted[1..], n);
      assert ([sorted[0]] + Insert(p, sorted[1..]))[1..] == Insert(p, sorted[1..]);
    }
  }

  /** The best covering preopen of a declaration list: longest guest side, then first declared. */
  ghost predicate IsBest(declared: seq<Preopen>, n: Normal, i: nat)
  {
    && i < |declared|
    && Covers(declared[i].Dir(), n)
    && forall j :: 0 <= j < |declared| && Covers(declared[j].Dir(), n) ==>
         |declared[j].guest| < |declared[i].guest| || (|declared[j].guest| == |declared[i].guest| && i <= j)
  }

  lemma {:induction false} SortedFindsBest(declared: seq<Preopen>, n: Normal, i: nat)
    requires IsBest(declared, n, i)
    ensures Find(Sort(declared), n) == Some(declared[i])
  {
    var rest := declared[1..];
    SortSorts(rest);
    FindInInsert(declared[0], Sort(rest), n);
    if i > 0 {
      assert IsBest(rest, n, i - 1) by {
        assert forall j :: 0 <= j < |rest| ==> rest[j] == declared[j + 1];
      }
      SortedFindsBest(rest, n, i - 1);
    } else if Find(Sort(rest), n).Some? {
      var j := FoundIsDeclared(rest, n);
      assert declared[j + 1] == rest[j];
    }
  }

  lemma BestExists(declared: seq<Preopen>, n: Normal) returns (i: nat)
    requires exists j :: 0 <= j < |declared| && Covers(declared[j].Dir(), n)
    ensures IsBest(declared, n, i)
  {
    var start :| 0 <= start < |declared| && Covers(declared[start].Dir(), n);
    i := start;
    for k := 0 to |declared|
      invariant i < |declared| && Covers(declared[i].Dir(), n)
      invariant forall j :: 0 <= j < k && Covers(declared[j].Dir(), n) ==>
                  |declared[j].guest| < |declared[i].guest| || (|declared[j].guest| == |declared[i].guest| && i <= j)
    {
      if Covers(declared[k].Dir(), n) &&
         (|declared[k].guest| > |declared[i].guest| || (|declared[k].guest| == |declared[i].guest| && k < i)) {
        i := k;
      }
    }
  }

  /**
   Resolution against the declaration order, for every declaration list and path: parse
   errors pass through; ENOTCAPABLE exactly when no preopen covers the path; otherwise the
   longest covering preopen, the first declared among equals, with its host root followed by
   exactly the remaining components, none of them empty, "." or "..".
   */
  lemma ResolvePicksLongestThenFirst(declared: seq<Preopen>, path: string) returns (i: nat)
    ensures Parse(path).Err? ==> Resolve(Sort(declared), path) == Err(Parse(path).errno)
    ensures Parse(path).Ok? && (forall j :: 0 <= j < |declared| ==> !Covers(declared[j].Dir(), Parse(path).value)) ==>
              Resolve(Sort(declared), path) == Err(ENOTCAPABLE)
    ensures Parse(path).Ok? && (exists j :: 0 <= j < |declared| && Covers(declared[j].Dir(), Parse(path).value)) ==>
              && IsBest(declared, Parse(path).value, i)
              && var rest := Remaining(declared[i].Dir(), Parse(path).value);
                 && Resolve(Sort(declared), path) == Ok(HostPath(declared[i].host.rooted, declared[i].host.comps + rest))
                 && forall k :: 0 <= k < |rest| ==> IsName(rest[k])
  {
    i := 0;
    if Parse(path).Ok? {
      var n := Parse(path).value;
      ParseIsCanonical(path);
      if exists j :: 0 <= j < |declared| && Covers(declared[j].Dir(), n) {
        i := BestExists(declared, n);
        SortedFindsBest(declared, n, i);
      } else if Find(Sort(declared), n).Some? {
        var j := FoundIsDeclared(declared, n);
      }
    }
  }

  /** The loop of `HostFiles::new`: the mappings in declaration order, or the first error. */
  function Declare(done: seq<Preopen>, cli: seq<Preopen>): (r: Result<seq<Preopen>>)
    decreases |cli|
  {
    if cli == [] then Ok(done)
    else
      match Normalize(cli[0].guest)
      case Err(e) => Err(e)
      case Ok(guest) => Declare(done + [Preopen(guest, cli[0].host)], cli[1..])
  }

  /** If every guest side normalizes, all declarations are mapped in order. */
  lemma {:induction false} DeclareMapsInOrder(done: seq<Preopen>, cli: seq<Preopen>)
    requires Declare(done, cli).Ok?
    ensures var ps := Declare(done, cli).value;
            && |ps| == |done| + |cli| && done <= ps
            && forall i :: 0 <= i < |cli| ==>
                 Normalize(cli[i].guest) == Ok(ps[|done| + i].guest) && ps[|done| + i].host == cli[i].host
    decreases |cli|
  {
    if cli == [] {
    } else {
      var more := done + [Preopen(Normalize(cli[0].guest).value, cli[0].host)];
      DeclareMapsInOrder(more, cli[1..]);
      var ps := Declare(done, cli).value;
      assert ps[|done|] == more[|done|];
      forall i | 0 < i < |cli|
        ensures Normalize(cli[i].guest) == Ok(ps[|done| + i].guest) && ps[|done| + i].host == cli[i].host
      {
        assert cli[i] == cli[1..][i - 1] && |done| + i == |more| + (i - 1);
      }
    }
  }

  /** Otherwise the error of the first one that does not is reported. */
  lemma {:induction false} DeclareReportsFirstError(done: seq<Preopen>, cli: seq<Preopen>) returns (i: nat)
    requires Declare(done, cli).Err?
    ensures i < |cli| && Normalize(cli[i].guest) == Err(Declare(done, cli).errno)
    ensures forall j :: 0 <= j < i ==> Normalize(cli[j].guest).Ok?
    decreases |cli|
  {
    if Normalize(cli[0].guest).Err? {
      i := 0;
    } else {
      var k := DeclareReportsFirstError(done + [Preopen(Normalize(cli[0].guest).value, cli[0].host)], cli[1..]);
      i := k + 1;
      forall j | 0 <= j < i ensures Normalize(cli[j].guest).Ok? {
        if j > 0 { assert cli[j] == cli[1..][j - 1]; }
      }
    }
  }

  /** `HostFiles::new`: the default "." mapping, then every declaration, sorted. */
  method NewPreopens(defaultDir: Option<HostPath>, cli: seq<Preopen>) returns (r: Result<seq<Preopen>>)
    ensures r == match Declare(if defaultDir.Some? then [Preopen(".", defaultDir.value)] else [], cli)
                 case Err(e) => Err(e)
                 case Ok(ps) => Ok(Sort(ps))
    ensures r.Ok? ==> Normalized(r.value) && LongestFirst(r.value)
  {
    var declared: seq<Preopen> := [];
    ParseUndoesRender(Normal(false, []));
    if defaultDir.Some? {
      var guest := NormalizeGuestPath(".");
      declared := [Preopen(if guest.Ok? then guest.value else ".", defaultDir.value)];
    }
    ghost var base := declared;
    for i := 0 to |cli|
      invariant Normalized(declared)
      invariant Declare(base, cli) == Declare(declared, cli[i..])
    {
      assert cli[i..][1..] == cli[i + 1..];
      var guest := NormalizeGuestPath(cli[i].guest);
      if guest.Err? {
        return Err(guest.errno);
      }
      NormalizeIdempotent(cli[i].guest);
      declared := declared + [Preopen(guest.value, cli[i].host)];
    }
    SortKeepsNormalized(declared);
    SortSorts(declared);
    return Ok(Sort(declared));
  }

  lemma SortKeepsNormalized(declared: seq<Preopen>)
    requires Normalized(declared)
    ensures Normalized(Sort(declared))
  {
    SortPermutes(declared);
    forall i | 0 <= i < |Sort(declared)|
      ensures Normalize(Sort(declared)[i].guest) == Ok(Sort(declared)[i].guest)
    {
      assert Sort(declared)[i] in multiset(Sort(declared));
      assert Sort(declared)[i] in multiset(declared);
    }
  }

  // ---------- parents ----------

  lemma {:induction false} SameFirstMatch(ps: seq<Preopen>, n: Normal, m: Normal)
    requires n.absolute == m.absolute && m.names <= n.names
    requires Find(ps, n).Some? && |Find(ps, n).value.Dir().names| <= |m.names|
    ensures Find(ps, m) == Find(ps, n)
  {
    if !Covers(ps[0].Dir(), n) {
      SameFirstMatch(ps[1..], n, m);
    }
  }

  lemma DropLastName(path: string)
    requires Parse(path).Ok? && Parse(path).value.names != []
    ensures var n := Parse(path).value;
            Parse(path + "/..") == Ok(Normal(n.absolute, n.names[..|n.names| - 1]))
  {
    var names := Parse(path).value.names;
    assert path + "/.." == path + "/" + "..";
    ParseAppended(path, "..");
    SplitPlain("..");
    assert Walk(names[..|names| - 1], [".."][1..]) == Ok(names[..|names| - 1]);
  }

  /**
   Whenever at least one component is left after the chosen preopen, the parent resolves and
   is what `path/..` resolves to.
   */
  lemma ParentIsDotDot(ps: seq<Preopen>, path: string)
    requires Parse(path).Ok? && Find(ps, Parse(path).value).Some?
    requires Remaining(Find(ps, Parse(path).value).value.Dir(), Parse(path).value) != []
    ensures ResolveParent(ps, path).Ok?
    ensures ResolveParent(ps, path) == Resolve(ps, path + "/..")
    ensures var p := Find(ps, Parse(path).value).value; var rest := Remaining(p.Dir(), Parse(path).value);
            ResolveParent(ps, path) == Ok(HostPath(p.host.rooted, p.host.comps + rest[..|rest| - 1]))
  {
    var n := Parse(path).value;
    var p := Find(ps, n).value;
    var rest := Remaining(p.Dir(), n);
    var m := Normal(n.absolute, n.names[..|n.names| - 1]);
    DropLastName(path);
    SameFirstMatch(ps, n, m);
    assert Remaining(p.Dir(), m) == rest[..|rest| - 1];
    var parent := p.host.Under(rest[..|rest| - 1]);
    assert (p.host.comps + rest)[..|p.host.comps + rest| - 1] == p.host.comps + rest[..|rest| - 1];
    assert p.host.Under(rest).Parent() == Some(parent);
    var i :| 0 <= i < |ps| && ps[i] == p;
    assert parent.StartsWith(ps[i].host);
  }

  /**
   When the path is the preopen itself, the parent lies above the preopen's root: it is
   granted exactly when it exists and lies in some preopen's host directory.
   */
  lemma ParentOfPreopen(ps: seq<Preopen>, path: string)
    requires Parse(path).Ok? && Find(ps, Parse(path).value).Some?
    requires Remaining(Find(ps, Parse(path).value).value.Dir(), Parse(path).value) == []
    ensures var host := Find(ps, Parse(path).value).value.host;
            ResolveParent(ps, path) ==
            if host.comps == [] then Err(EINVAL)
            else
              var above := host.comps[..|host.comps| - 1];
              if exists i :: 0 <= i < |ps| && ps[i].host.rooted == host.rooted && ps[i].host.comps <= above
              then Ok(HostPath(host.rooted, above)) else Err(ENOTCAPABLE)
  {
    var host := Find(ps, Parse(path).value).value.host;
    assert host.Under([]) == host;
    if host.comps != [] {
      var above := HostPath(host.rooted, host.comps[..|host.comps| - 1]);
      assert host.Parent() == Some(above);
      assert forall i :: 0 <= i < |ps| ==>
               (above.StartsWith(ps[i].host) <==> ps[i].host.rooted == host.rooted && ps[i].host.comps <= above.comps);
    }
  }

  /** A granted parent always lies in some preopen's host directory: nothing above them is reached. */
  lemma ParentStaysInside(ps: seq<Preopen>, path: string)
    requires ResolveParent(ps, path).Ok?
    ensures var parent := ResolveParent(ps, path).value;
            exists i :: 0 <= i < |ps| && ps[i].host.rooted == parent.rooted && ps[i].host.comps <= parent.comps
  {
    var parent := ResolveParent(ps, path).value;
    var i :| 0 <= i < |ps| && parent.StartsWith(ps[i].host);
    assert ps[i].host.comps <= parent.comps;
  }
}
