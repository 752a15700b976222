/**
 Guest path normalization (src/host_files.rs) and the cwd join of the guest's file shim.

 Guest paths are UTF-8 text; one `char` of the model stands for one byte, so lengths and
 indices are byte lengths and byte offsets.
 */
module GuestPath {
  import opened Common

  // ---------- splitting and joining at '/' ----------

  /** Rust's `split('/')`: always at least one part, parts may be empty. */
  function Split(s: string): (parts: seq<string>)
    ensures |parts| >= 1
    ensures forall i :: 0 <= i < |parts| ==> '/' !in parts[i]
  {
    if s == "" then [""] else Prepend(s[0], Split(s[1..]))
  }

  /** The parts after one more byte is put in front. */
  function Prepend(c: char, parts: seq<string>): (r: seq<string>)
    requires |parts| >= 1
  {
    if c == '/' then [""] + parts else [[c] + parts[0]] + parts[1..]
  }

  lemma PrependConcat(c: char, p: seq<string>, q: seq<string>)
    requires |p| >= 1
    ensures Prepend(c, p) + q == Prepend(c, p + q)
  {
    assert (p + q)[0] == p[0] && (p + q)[1..] == p[1..] + q;
  }

  /** Rust's `join("/")`. */
  function Join(parts: seq<string>): (s: string)
  {
    if |parts| == 0 then ""
    else if |parts| == 1 then parts[0]
    else parts[0] + "/" + Join(parts[1..])
  }

  lemma {:induction false} SplitPlain(a: string)
    requires '/' !in a
    ensures Split(a) == [a]
  {
    if a == "" {
    } else {
      SplitPlain(a[1..]);
      assert [a[0]] + a[1..] == a;
    }
  }

  /** Splitting distributes over a slash. */
  lemma {:induction false} SplitAtSlash(a: string, b: string)
    ensures Split(a + "/" + b) == Split(a) + Split(b)
  {
    if a == "" {
      assert a + "/" + b == "/" + b;
      assert ("/" + b)[1..] == b;
    } else {
      var whole := a + "/" + b;
      SplitAtSlash(a[1..], b);
      assert whole[0] == a[0] && whole[1..] == a[1..] + "/" + b;
      PrependConcat(a[0], Split(a[1..]), Split(b));
    }
  }

  /** Splitting undoes joining when no part holds a slash. */
  lemma {:induction false} SplitUndoesJoin(parts: seq<string>)
    requires parts != []
    requires forall i :: 0 <= i < |parts| ==> '/' !in parts[i]
    ensures Split(Join(parts)) == parts
  {
    if |parts| == 1 {
      SplitPlain(parts[0]);
    } else {
      SplitUndoesJoin(parts[1..]);
      SplitAtSlash(parts[0], Join(parts[1..]));
      SplitPlain(parts[0]);
    }
  }

  // ---------- the stack machine ----------

  predicate IsName(part: string) { part != "" && part != "." && part != ".." }

  /** What a part does to the stack of names. */
  function Visit(stack: seq<string>, part: string): (r: Result<seq<string>>)
  {
    if part == "" || part == "." then Ok(stack)
    else if part == ".." then
      if stack == [] then Err(ENOTCAPABLE) else Ok(stack[..|stack| - 1])
    else Ok(stack + [part])
  }

  /** Walking a list of parts from a stack of names. */
  function Walk(stack: seq<string>, parts: seq<string>): (r: Result<seq<string>>)
    decreases |parts|
  {
    if parts == [] then Ok(stack)
    else
      match Visit(stack, parts[0])
      case Ok(next) => Walk(next, parts[1..])
      case Err(e) => Err(e)
  }

  /** Walking is compositional: the second half continues where the first half ended. */
  lemma {:induction false} WalkConcat(stack: seq<string>, p: seq<string>, q: seq<string>)
    ensures Walk(stack, p + q) ==
            match Walk(stack, p) case Ok(mid) => Walk(mid, q) case Err(e) => Err(e)
    decreases |p|
  {
    if p == [] {
      assert p + q == q;
    } else {
      assert (p + q)[1..] == p[1..] + q;
      match Visit(stack, p[0]) {
        case Ok(next) => WalkConcat(next, p[1..], q);
        case Err(_) =>
      }
    }
  }

  /** Names alone are simply pushed. */
  lemma {:induction false} WalkNames(stack: seq<string>, names: seq<string>)
    requires forall i :: 0 <= i < |names| ==> names[i] != "" && names[i] != "." && names[i] != ".."
    ensures Walk(stack, names) == Ok(stack + names)
    decreases |names|
  {
    if names == [] {
      assert stack + names == stack;
    } else {
      WalkNames(stack + [names[0]], names[1..]);
      assert stack + [names[0]] + names[1..] == stack + names;
    }
  }

  /** A name followed by ".." may be deleted anywhere, on success and on failure. */
  lemma NameThenUpCancels(stack: seq<string>, p: seq<string>, name: string, q: seq<string>)
    requires IsName(name)
    ensures Walk(stack, p + [name, ".."] + q) == Walk(stack, p + q)
  {
    WalkConcat(stack, p, [name, ".."] + q);
    WalkConcat(stack, p, q);
    assert p + [name, ".."] + q == p + ([name, ".."] + q);
    match Walk(stack, p) {
      case Err(_) =>
      case Ok(mid) =>
        WalkConcat(mid, [name, ".."], q);
        assert (mid + [name])[..|mid|] == mid;
        assert [name, ".."][1..] == [".."];
        assert Walk(mid + [name], [".."]) == Ok(mid);
    }
  }

  /** Empty parts and "." may be deleted anywhere. */
  lemma NeutralPartsVanish(stack: seq<string>, p: seq<string>, neutral: string, q: seq<string>)
    requires neutral == "" || neutral == "."
    ensures Walk(stack, p + [neutral] + q) == Walk(stack, p + q)
  {
    WalkConcat(stack, p, [neutral] + q);
    WalkConcat(stack, p, q);
    assert p + [neutral] + q == p + ([neutral] + q);
    assert ([neutral] + q)[1..] == q;
  }

  // ---------- when a walk escapes ----------

  function Ups(parts: seq<string>): nat
  {
    if parts == [] then 0 else (if parts[0] == ".." then 1 else 0) + Ups(parts[1..])
  }

  function Names(parts: seq<string>): nat
  {
    if parts == [] then 0 else (if IsName(parts[0]) then 1 else 0) + Names(parts[1..])
  }

  /** Some prefix of the parts climbs above a stack of the given height. */
  ghost predicate Escapes(height: nat, parts: seq<string>)
  {
    exists k :: 0 <= k <= |parts| && Ups(parts[..k]) > height + Names(parts[..k])
  }

  lemma EscapesStep(height: nat, parts: seq<string>, after: nat)
    requires parts != []
    requires after as int == height + (if IsName(parts[0]) then 1 else 0) - (if parts[0] == ".." then 1 else 0)
    ensures Escapes(height, parts) <==> Escapes(after, parts[1..])
  {
    var rest := parts[1..];
    if Escapes(height, parts) {
      var k :| 0 <= k <= |parts| && Ups(parts[..k]) > height + Names(parts[..k]);
      assert k > 0;
      assert parts[..k][1..] == rest[..k - 1];
    }
    if Escapes(after, rest) {
      var k :| 0 <= k <= |rest| && Ups(rest[..k]) > after + Names(rest[..k]);
      assert parts[..k + 1][1..] == rest[..k];
      assert Ups(parts[..k + 1]) > height + Names(parts[..k + 1]);
    }
  }

  /**
   A walk fails exactly when some prefix has more ".." than names and stacked names
   together, and then with ENOTCAPABLE; otherwise the final depth is the balance.
   */
  lemma {:induction false} WalkFailsIffEscapes(stack: seq<string>, parts: seq<string>)
    ensures Walk(stack, parts).Err? <==> Escapes(|stack|, parts)
    ensures Walk(stack, parts).Err? ==> Walk(stack, parts).errno == ENOTCAPABLE
    ensures Walk(stack, parts).Ok? ==>
              |Walk(stack, parts).value| == |stack| + Names(parts) - Ups(parts)
    decreases |parts|
  {
    if parts == [] {
      assert parts[..0] == [];
    } else if parts[0] == ".." && stack == [] {
      assert parts[..1] == [".."];
      assert Ups([".."]) == 1 + Ups([".."][1..]) && Names([".."]) == 0;
      assert Ups(parts[..1]) > |stack| + Names(parts[..1]);
    } else {
      var next := Visit(stack, parts[0]).value;
      EscapesStep(|stack|, parts, |next|);
      WalkFailsIffEscapes(next, parts[1..]);
    }
  }

  // ---------- normal forms ----------

  /** The component view of a normalized path. */
  datatype Normal = Normal(absolute: bool, names: seq<string>)

  ghost predicate Canonical(n: Normal)
  {
    forall i :: 0 <= i < |n.names| ==> IsName(n.names[i]) && '/' !in n.names[i]
  }

  predicate StartsWithSlash(s: string) { |s| > 0 && s[0] == '/' }

  function Parse(path: string): (r: Result<Normal>)
  {
    if path == "" then Err(ENOENT)
    else
      match Walk([], Split(path))
      case Ok(names) => Ok(Normal(StartsWithSlash(path), names))
      case Err(e) => Err(e)
  }

  function Render(n: Normal): (s: string)
  {
    if n.absolute then "/" + Join(n.names)
    else if n.names == [] then "." else Join(n.names)
  }

  /** The specification of `normalize_guest_path`: parse to components, render them. */
  function Normalize(path: string): (r: Result<string>)
  {
    match Parse(path)
    case Ok(n) => Ok(Render(n))
    case Err(e) => Err(e)
  }

  lemma {:induction false} WalkKeepsCanonical(stack: seq<string>, parts: seq<string>)
    requires forall i :: 0 <= i < |stack| ==> IsName(stack[i]) && '/' !in stack[i]
    requires forall i :: 0 <= i < |parts| ==> '/' !in parts[i]
    ensures var r := Walk(stack, parts);
            r.Ok? ==> forall i :: 0 <= i < |r.value| ==> IsName(r.value[i]) && '/' !in r.value[i]
    decreases |parts|
  {
    if parts != [] && Visit(stack, parts[0]).Ok? {
      WalkKeepsCanonical(Visit(stack, parts[0]).value, parts[1..]);
    }
  }

  lemma ParseIsCanonical(path: string)
    ensures Parse(path).Ok? ==> Canonical(Parse(path).value)
  {
    WalkKeepsCanonical([], Split(path));
  }

  lemma JoinStart(names: seq<string>)
    requires names != [] && IsName(names[0]) && '/' !in names[0]
    ensures Join(names) != "" && !StartsWithSlash(Join(names))
  {
    assert Join(names)[0] == names[0][0];
  }

  lemma RootsParse()
    ensures Parse(".") == Ok(Normal(false, []))
    ensures Parse("/") == Ok(Normal(true, []))
  {
    SplitPlain(".");
    assert Walk([], ["."]) == Walk([], ["."][1..]) == Ok([]);
    SplitAtSlash("", "");
    assert "" + "/" + "" == "/" && Split("/") == ["", ""];
    assert Walk([], ["", ""]) == Walk([], ["", ""][1..]) && ["", ""][1..] == [""];
    assert Walk([], [""]) == Walk([], [""][1..]) == Ok([]);
  }

  /** Rendering a canonical component list and parsing it back is the identity. */
  lemma ParseUndoesRender(n: Normal)
    requires Canonical(n)
    ensures Parse(Render(n)) == Ok(n)
  {
    if n.names == [] {
      RootsParse();
      assert "/" + Join([]) == "/";
    } else {
      SplitUndoesJoin(n.names);
      WalkNames([], n.names);
      assert [] + n.names == n.names;
      JoinStart(n.names);
      if n.absolute {
        SplitAtSlash("", Join(n.names));
        assert "" + "/" + Join(n.names) == Render(n);
        assert ([""] + n.names)[1..] == n.names;
      }
    }
  }

  lemma RenderInjective(m: Normal, n: Normal)
    requires Canonical(m) && Canonical(n)
    ensures Render(m) == Render(n) <==> m == n
  {
    ParseUndoesRender(m);
    ParseUndoesRender(n);
  }

  /** Normalizing twice changes nothing. */
  lemma NormalizeIdempotent(path: string)
    requires Normalize(path).Ok?
    ensures Normalize(Normalize(path).value) == Normalize(path)
  {
    ParseIsCanonical(path);
    ParseUndoesRender(Parse(path).value);
  }

  /**
   Appending a relative path: the rest is walked from the names the first path denotes,
   errors included.
   */
  lemma ParseAppended(a: string, b: string)
    requires Parse(a).Ok?
    ensures Parse(a + "/" + b) ==
            match Walk(Parse(a).value.names, Split(b))
            case Ok(names) => Ok(Normal(Parse(a).value.absolute, names))
            case Err(e) => Err(e)
  {
    SplitAtSlash(a, b);
    WalkConcat([], Split(a), Split(b));
    assert (a + "/" + b)[0] == a[0];
  }

  /** Normalization is compositional, errors included; `b` may even be empty. */
  lemma NormalizeCompositional(a: string, b: string)
    requires Normalize(a).Ok?
    ensures Normalize(a + "/" + b) == Normalize(Normalize(a).value + "/" + b)
  {
    ParseIsCanonical(a);
    ParseUndoesRender(Parse(a).value);
    ParseAppended(a, b);
    ParseAppended(Normalize(a).value, b);
  }

  /** The error cases, exactly: ENOENT for the empty path, ENOTCAPABLE for an escape. */
  lemma NormalizeErrors(path: string)
    ensures Normalize(path) == Err(ENOENT) <==> path == ""
    ensures Normalize(path) == Err(ENOTCAPABLE) <==> path != "" && Escapes(0, Split(path))
    ensures Normalize(path).Err? ==> Normalize(path).errno in {ENOENT, ENOTCAPABLE}
  {
    WalkFailsIffEscapes([], Split(path));
  }

  /** `normalize_guest_path` as written: a loop over the parts with a stack. */
  method NormalizeGuestPath(path: string) returns (r: Result<string>)
    ensures r == Normalize(path)
  {
    if path == "" {
      return Err(ENOENT);
    }
    var absolute := path[0] == '/';
    var parts := Split(path);
    var stack: seq<string> := [];
    for i := 0 to |parts|
      invariant Walk([], parts) == Walk(stack, parts[i..])
    {
      assert parts[i..][1..] == parts[i + 1..];
      if parts[i] == "" || parts[i] == "." {
      } else if parts[i] == ".." {
        if stack == [] {
          return Err(ENOTCAPABLE);
        }
        stack := stack[..|stack| - 1];
      } else {
        stack := stack + [parts[i]];
      }
    }
    assert parts[|parts|..] == [] && "/" + "" == "/";
    var joined := Join(stack);
    WalkKeepsCanonical([], parts);
    if stack != [] {
      JoinStart(stack);
    }
    if absolute {
      if joined == "" {
        r := Ok("/");
      } else {
        r := Ok("/" + joined);
      }
    } else if joined == "" {
      r := Ok(".");
    } else {
      r := Ok(joined);
    }
  }
}
