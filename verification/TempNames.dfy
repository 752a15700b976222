/** The guest's `mkstemp` (mysql_wasi_libc_shim.h): a base-36 search with exclusive creates. */
module TempNames {
  import opened Common
  import opened Numerals

  const ATTEMPTS: nat := 36 * 36 * 36

  /** The alphabet: the letters a to z, then the digits 0 to 9. */
  function Letter(d: nat): (c: char)
  {
    if d < 26 then ('a' as int + d) as char else if d < 36 then ('0' as int + d - 26) as char else '?'
  }

  /** The lowest `n` base-36 digits, most significant first. */
  function Digits(value: nat, n: nat): (s: string)
    ensures |s| == n
  {
    Render(Letter, 36, value, n)
  }

  lemma LastDigitOf(value: nat, n: nat)
    requires n > 0
    ensures Digits(value, n) == Digits(value / 36, n - 1) + [Letter(value % 36)]
  {
  }

  /** The template with its last six bytes replaced by the attempt's digits. */
  function Candidate(template: string, attempt: nat): (name: string)
    requires |template| >= 6
    ensures |name| == |template| && name[..|template| - 6] == template[..|template| - 6]
  {
    template[..|template| - 6] + Digits(attempt, 6)
  }

  lemma LettersLegible()
    ensures Legible(Letter, 36)
  {
  }

  /** Different attempts try different names. */
  lemma CandidatesDiffer(template: string, a: nat, b: nat)
    requires |template| >= 6 && a < ATTEMPTS && b < ATTEMPTS
    ensures Candidate(template, a) == Candidate(template, b) <==> a == b
  {
    if Candidate(template, a) == Candidate(template, b) {
      assert Candidate(template, a)[|template| - 6..] == Digits(a, 6);
      assert Candidate(template, b)[|template| - 6..] == Digits(b, 6);
      assert Power(36, 6) == 36 * (36 * (36 * Power(36, 3)));
      FitsBelowPower(36, a, 6);
      FitsBelowPower(36, b, 6);
      LettersLegible();
      RenderInjective(Letter, 36, a, b, 6);
    }
  }

  predicate IsTemplate(s: string) { |s| >= 6 && s[|s| - 6..] == "XXXXXX" }

  /** The alphabet of the shim, letter by letter. */
  lemma LetterIs(d: nat)
    requires d < 36
    ensures Letter(d) == "abcdefghijklmnopqrstuvwxyz0123456789"[d]
  {
  }

  /** A candidate is the template with its last six bytes replaced, the last one changing fastest. */
  lemma CandidateText(template: string, attempt: nat, i: nat)
    requires |template| >= 6 && i < 6
    ensures var name := Candidate(template, attempt);
            && |name| == |template| && name[..|name| - 6] == template[..|name| - 6]
            && name[|name| - 1 - i] == "abcdefghijklmnopqrstuvwxyz0123456789"[Shifted(36, attempt, i) % 36]
  {
    DigitFromRight(Letter, 36, attempt, 6, i);
    LetterIs(Shifted(36, attempt, i) % 36);
    var name := Candidate(template, attempt);
    assert name[|name| - 1 - i] == Digits(attempt, 6)[5 - i];
  }

  /** What an exclusive create answers. */
  datatype Answer = Opened(fd: nat) | Failed(errno: int)

  datatype Outcome = Fd(fd: nat) | Error(errno: int)

  /** How far a search is; `attempt` is the candidate to try next, or the one tried last. */
  datatype Progress = Trying(attempt: nat) | Finished(outcome: Outcome, attempt: nat)

  function Advance(p: Progress, a: Answer): (r: Progress)
  {
    if p.Finished? then p
    else
      match a
      case Opened(fd) => Finished(Fd(fd), p.attempt)
      case Failed(e) =>
        if e == EEXIST && p.attempt + 1 < ATTEMPTS then Trying(p.attempt + 1) else Finished(Error(e), p.attempt)
  }

  /** The search after the given answers. */
  function Search(answers: seq<Answer>): (p: Progress)
    decreases |answers|
  {
    if answers == [] then Trying(0) else Advance(Search(answers[..|answers| - 1]), answers[|answers| - 1])
  }

  /** The first `n` answers. */
  function Prefix(answers: nat -> Answer, n: nat): (r: seq<Answer>)
    ensures |r| == n && forall k :: 0 <= k < n ==> r[k] == answers(k)
  {
    seq<Answer>(n, k requires 0 <= k < n => answers(k))
  }

  lemma SearchStep(answers: nat -> Answer, n: nat)
    ensures Search(Prefix(answers, n + 1)) == Advance(Search(Prefix(answers, n)), answers(n))
  {
    assert Prefix(answers, n + 1)[..n] == Prefix(answers, n);
  }

  /** An answer other than EEXIST ends the search at once, EEXIST only at the last candidate. */
  lemma {:induction false} SearchMeans(answers: seq<Answer>)
    ensures var p := Search(answers);
            && p.attempt < 46_656 && p.attempt <= |answers|
            && (forall k :: 0 <= k < p.attempt ==> answers[k] == Failed(EEXIST))
            && match p
               case Trying(k) => k == |answers|
               case Finished(outcome, k) =>
                 && k < |answers|
                 && match answers[k]
                    case Opened(fd) => outcome == Fd(fd)
                    case Failed(e) => outcome == Error(e) && (e == EEXIST ==> k == 46_655)
    decreases |answers|
  {
    if answers == [] {
    } else {
      SearchMeans(answers[..|answers| - 1]);
    }
  }

  /** All candidates before `k` were found existing, and `k` decides; EEXIST only if it is the last. */
  ghost predicate Decides(answers: nat -> Answer, k: nat, outcome: Outcome)
  {
    && k < 46_656 && (forall j: nat :: j < k ==> answers(j) == Failed(EEXIST))
    && match answers(k)
       case Opened(fd) => outcome == Fd(fd)
       case Failed(e) => outcome == Error(e) && (e == EEXIST ==> k == 46_655)
  }

  lemma SearchDecides(answers: nat -> Answer, n: nat, outcome: Outcome)
    requires n > 0 && Search(Prefix(answers, n)) == Finished(outcome, n - 1)
    ensures Decides(answers, n - 1, outcome)
  {
    SearchMeans(Prefix(answers, n));
    forall j: nat | j < n - 1 ensures answers(j) == Failed(EEXIST) {
      assert Prefix(answers, n)[j] == answers(j);
    }
  }

  /**
   `mkstemp`. `answers(k)` is what the k-th create answers, whatever other callers do in
   between; the array is the C string without its terminator.
   */
  method Mkstemp(pattern: array<char>, answers: nat -> Answer) returns (r: Outcome, ghost tried: nat)
    modifies pattern
    ensures var before := old(pattern[..]);
            if |before| < 6 || before[|before| - 6..] != "XXXXXX" then
              r == Error(EINVAL) && tried == 0 && pattern[..] == before
            else
              && 1 <= tried <= 46_656
              && Search(Prefix(answers, tried)) == Finished(r, tried - 1)
              && pattern[..] == Candidate(before, tried - 1)
              && Decides(answers, tried - 1, r)
  {
    tried := 0;
    var ok := EndsInTemplate(pattern);
    if !ok {
      return Error(EINVAL), 0;
    }
    r, tried := TryCandidates(pattern, answers);
    SearchDecides(answers, tried, r);
  }

  /** The outer loop: candidates in turn until a create answers anything but EEXIST. */
  method TryCandidates(pattern: array<char>, answers: nat -> Answer) returns (r: Outcome, ghost tried: nat)
    requires pattern.Length >= 6
    modifies pattern
    ensures 1 <= tried <= ATTEMPTS && Search(Prefix(answers, tried)) == Finished(r, tried - 1)
    ensures pattern[..] == Candidate(old(pattern[..]), tried - 1)
  {
    tried := 0;
    ghost var before := pattern[..];
    var attempt := 0;
    while attempt < ATTEMPTS
      invariant attempt <= ATTEMPTS && tried == attempt
      invariant pattern[..] == if attempt == 0 then before else Candidate(before, attempt - 1)
      invariant Search(Prefix(answers, attempt)) ==
                if attempt < ATTEMPTS then Trying(attempt) else Finished(Error(EEXIST), attempt - 1)
    {
      WriteDigits(pattern, attempt);
      SamePrefix(before, attempt);
      tried := attempt + 1;
      SearchStep(answers, attempt);
      match answers(attempt) {
        case Opened(fd) => return Fd(fd), tried;
        case Failed(e) =>
          if e != EEXIST {
            return Error(e), tried;
          }
      }
      attempt := attempt + 1;
    }
    return Error(EEXIST), tried;
  }

  method EndsInTemplate(pattern: array<char>) returns (ok: bool)
    ensures ok == IsTemplate(pattern[..])
  {
    var len := pattern.Length;
    ok := len >= 6 && pattern[len - 6..] == "XXXXXX";
    assert len >= 6 ==> pattern[..][len - 6..] == pattern[len - 6..];
  }

  /** Candidates differ from the template, and from each other, in their last six bytes only. */
  lemma SamePrefix(template: string, attempt: nat)
    requires |template| >= 6
    ensures attempt > 0 ==> Candidate(Candidate(template, attempt - 1), attempt) == Candidate(template, attempt)
  {
  }

  /** The inner loop: the six digits, written from the last byte backwards. */
  method WriteDigits(pattern: array<char>, attempt: nat)
    requires pattern.Length >= 6
    modifies pattern
    ensures pattern[..] == Candidate(old(pattern[..]), attempt)
  {
    var len := pattern.Length;
    var value := attempt;
    for i := 0 to 6
      invariant pattern[..len - 6] == old(pattern[..len - 6])
      invariant Digits(attempt, 6) == Digits(value, 6 - i) + pattern[len - i..]
    {
      ghost var tail := pattern[len - i..];
      pattern[len - 1 - i] := Letter(value % 36);
      assert pattern[len - (i + 1)..] == [Letter(value % 36)] + tail;
      LastDigitOf(value, 6 - i);
      value := value / 36;
    }
    assert Digits(value, 0) == "";
    assert pattern[..] == pattern[..len - 6] + pattern[len - 6..];
  }

  // ---------- concurrent callers over a shared directory ----------

  type Id = nat

  /** A caller of `mkstemp`: its template and what its creates answered so far. */
  datatype Caller = Caller(template: string, answers: seq<Answer>)

  datatype State = State(files: set<string>, callers: map<Id, Caller>)

  /**
   A caller starts, or makes its next create, which may fail for a reason of the host's own;
   anyone else may create or remove a file. Creates are exclusive and atomic.
   */
  datatype Event =
    | Start(c: Id, template: string)
    | Try(c: Id, fd: nat, fault: Option<int>)
    | Create(name: string)
    | Remove(name: string)

  predicate Enabled(s: State, e: Event)
  {
    match e
    case Start(c, template) => c !in s.callers && IsTemplate(template)
    case Try(c, _, fault) =>
      c in s.callers && |s.callers[c].template| >= 6 && Search(s.callers[c].answers).Trying? && fault != Some(EEXIST)
    case Create(_) => true
    case Remove(_) => true
  }

  /** The name a caller tries next, or tried last. */
  function NameOf(c: Caller): (name: string)
  {
    if |c.template| < 6 then c.template else Candidate(c.template, Search(c.answers).attempt)
  }

  /** What the directory answers to an exclusive create. */
  function Reply(files: set<string>, name: string, fd: nat, fault: Option<int>): (a: Answer)
  {
    if fault.Some? then Failed(fault.value) else if name in files then Failed(EEXIST) else Opened(fd)
  }

  function Apply(s: State, e: Event): (r: State)
    requires Enabled(s, e)
  {
    match e
    case Start(c, template) => s.(callers := s.callers[c := Caller(template, [])])
    case Try(c, fd, fault) =>
      var caller := s.callers[c];
      var name := NameOf(caller);
      var answer := Reply(s.files, name, fd, fault);
      State(if answer.Opened? then s.files + {name} else s.files,
            s.callers[c := caller.(answers := caller.answers + [answer])])
    case Create(name) => s.(files := s.files + {name})
    case Remove(name) => s.(files := s.files - {name})
  }

  /** A run is possible if each step is enabled in the state the steps before it lead to. */
  predicate Possible(s: State, run: seq<Event>)
    decreases |run|, 0
  {
    run == [] ||
    (Possible(s, run[..|run| - 1]) && Enabled(After(s, run[..|run| - 1]), run[|run| - 1]))
  }

  function After(s: State, run: seq<Event>): (r: State)
    requires Possible(s, run)
    decreases |run|, 1
  {
    if run == [] then s else Apply(After(s, run[..|run| - 1]), run[|run| - 1])
  }

  lemma {:induction false} PrefixPossible(s: State, run: seq<Event>, n: nat)
    requires Possible(s, run) && n <= |run|
    ensures Possible(s, run[..n])
    decreases |run|
  {
    if n == |run| {
      assert run[..n] == run;
    } else {
      PrefixPossible(s, run[..|run| - 1], n);
      assert run[..|run| - 1][..n] == run[..n];
    }
  }

  /** The state after the first `n` steps. */
  function StateAt(s: State, run: seq<Event>, n: nat): (r: State)
    requires Possible(s, run) && n <= |run|
  {
    PrefixPossible(s, run, n);
    After(s, run[..n])
  }

  lemma StateAtInit(s: State, run: seq<Event>, n: nat)
    requires Possible(s, run) && n < |run|
    ensures Possible(s, run[..|run| - 1]) && StateAt(s, run, n) == StateAt(s, run[..|run| - 1], n)
  {
    assert run[..|run| - 1][..n] == run[..n];
  }

  lemma StateAtNext(s: State, run: seq<Event>, n: nat)
    requires Possible(s, run) && n < |run|
    ensures Enabled(StateAt(s, run, n), run[n]) && StateAt(s, run, n + 1) == Apply(StateAt(s, run, n), run[n])
  {
    PrefixPossible(s, run, n + 1);
    assert run[..n + 1][..n] == run[..n];
  }

  /** Step `i` is the caller's create of its candidate `k`, with that answer. */
  ghost predicate TriesAt(s: State, run: seq<Event>, c: Id, k: nat, i: nat)
    requires Possible(s, run) && c in After(s, run).callers && k < |After(s, run).callers[c].answers|
  {
    && |After(s, run).callers[c].template| >= 6
    && var name := Candidate(After(s, run).callers[c].template, k);
    && i < |run| && run[i].Try? && run[i].c == c && run[i].fault != Some(EEXIST)
    && c in StateAt(s, run, i).callers && NameOf(StateAt(s, run, i).callers[c]) == name
    && After(s, run).callers[c].answers[k] == Reply(StateAt(s, run, i).files, name, run[i].fd, run[i].fault)
  }

  /** Every answer a caller has came from a step of its own, on the candidate of that attempt. */
  lemma {:induction false} EachAnswerWasTried(s: State, run: seq<Event>, c: Id, k: nat) returns (i: nat)
    requires Possible(s, run) && c !in s.callers
    requires c in After(s, run).callers && k < |After(s, run).callers[c].answers|
    ensures TriesAt(s, run, c, k, i)
    decreases |run|
  {
    var last := |run| - 1;
    var t := After(s, run[..last]);
    if run[last].Try? && run[last].c == c && k == |t.callers[c].answers| {
      i := last;
      SearchMeans(t.callers[c].answers);
    } else {
      i := EachAnswerWasTried(s, run[..last], c, k);
      StateAtInit(s, run, i);
    }
  }

  /** The caller has returned a descriptor for the name. */
  predicate Won(s: State, c: Id, name: string)
  {
    && c in s.callers && |s.callers[c].template| >= 6 && NameOf(s.callers[c]) == name
    && Search(s.callers[c].answers).Finished? && Search(s.callers[c].answers).outcome.Fd?
  }

  /** Step `i` creates the name for the caller: it was not there before, and is there after. */
  ghost predicate CreatesAt(s: State, run: seq<Event>, c: Id, name: string, i: nat)
    requires Possible(s, run)
  {
    && i < |run| && run[i].Try? && run[i].c == c
    && name !in StateAt(s, run, i).files && name in StateAt(s, run, i + 1).files
  }

  /** A caller that returned a descriptor created the file itself, and found every earlier candidate. */
  lemma WinnerCreated(s: State, run: seq<Event>, c: Id, name: string) returns (i: nat)
    requires Possible(s, run) && c !in s.callers && Won(After(s, run), c, name)
    ensures CreatesAt(s, run, c, name, i)
  {
    var caller := After(s, run).callers[c];
    SearchMeans(caller.answers);
    var k := Search(caller.answers).attempt;
    i := EachAnswerWasTried(s, run, c, k);
    StateAtNext(s, run, i);
    assert caller.answers[k].Opened?;
  }

  lemma {:induction false} CreatedRemains(s: State, run: seq<Event>, from: nat, upTo: nat, name: string)
    requires Possible(s, run) && from <= upTo <= |run| && name in StateAt(s, run, from).files
    requires forall k :: from <= k < upTo ==> run[k] != Remove(name)
    ensures name in StateAt(s, run, upTo).files
    decreases upTo
  {
    if from == upTo {
    } else {
      CreatedRemains(s, run, from, upTo - 1, name);
      StateAtNext(s, run, upTo - 1);
      assert run[upTo - 1] != Remove(name);
    }
  }

  /**
   In every interleaving, two callers that both return a descriptor for one name did so with a
   removal of that file between their creates.
   */
  lemma TwoWinnersNeedRemoval(s: State, run: seq<Event>, c: Id, d: Id, name: string) returns (i: nat, j: nat)
    requires Possible(s, run) && c != d && c !in s.callers && d !in s.callers
    requires Won(After(s, run), c, name) && Won(After(s, run), d, name)
    ensures CreatesAt(s, run, c, name, i) && CreatesAt(s, run, d, name, j)
    ensures exists k :: (i < k < j || j < k < i) && run[k] == Remove(name)
  {
    i := WinnerCreated(s, run, c, name);
    j := WinnerCreated(s, run, d, name);
    var first, second := if i < j then i else j, if i < j then j else i;
    if forall k :: first < k < second ==> run[k] != Remove(name) {
      CreatedRemains(s, run, first + 1, second, name);
      assert false;
    }
  }

  /** A caller that reports EEXIST found each of its 46,656 candidates present at its own try. */
  lemma ExhaustedFoundAll(s: State, run: seq<Event>, c: Id, k: nat) returns (i: nat)
    requires Possible(s, run) && c !in s.callers && c in After(s, run).callers && k < 46_656
    requires Search(After(s, run).callers[c].answers).Finished?
    requires Search(After(s, run).callers[c].answers).outcome == Error(EEXIST)
    ensures |After(s, run).callers[c].template| >= 6
    ensures i < |run| && run[i].Try? && run[i].c == c
    ensures Candidate(After(s, run).callers[c].template, k) in StateAt(s, run, i).files
  {
    SearchMeans(After(s, run).callers[c].answers);
    i := EachAnswerWasTried(s, run, c, k);
  }

  // ---------- the directory and the callers, by the events alone ----------

  /** The name is there: it was before the run, or a create made it, and no removal came since. */
  ghost predicate Present(s: State, run: seq<Event>, name: string)
    requires Possible(s, run)
    decreases |run|
  {
    if run == [] then name in s.files
    else
      var init := run[..|run| - 1];
      match run[|run| - 1]
      case Create(made) => made == name || Present(s, init, name)
      case Remove(gone) => gone != name && Present(s, init, name)
      case Try(c, _, fault) => (fault.None? && NameOf(After(s, init).callers[c]) == name) || Present(s, init, name)
      case Start(_, _) => Present(s, init, name)
  }

  lemma {:induction false} DirectoryReflectsHistory(s: State, run: seq<Event>, name: string)
    requires Possible(s, run)
    ensures name in After(s, run).files <==> Present(s, run, name)
    decreases |run|
  {
    if run == [] {
    } else {
      DirectoryReflectsHistory(s, run[..|run| - 1], name);
    }
  }

  /** The template a caller started with. */
  function StartedWith(run: seq<Event>, c: Id): (r: Option<string>)
    decreases |run|
  {
    if run == [] then None
    else if run[|run| - 1].Start? && run[|run| - 1].c == c then Some(run[|run| - 1].template)
    else StartedWith(run[..|run| - 1], c)
  }

  /** How many creates it has made. */
  function Tries(run: seq<Event>, c: Id): (n: nat)
    decreases |run|
  {
    if run == [] then 0
    else Tries(run[..|run| - 1], c) + if run[|run| - 1].Try? && run[|run| - 1].c == c then 1 else 0
  }

  /**
   A caller works with the template it started with, has one answer for each create it made, and
   can make the next one as long as its search goes on.
   */
  lemma {:induction false} CallerReflectsHistory(s: State, run: seq<Event>, c: Id)
    requires Possible(s, run) && c !in s.callers
    ensures var r := After(s, run);
            match StartedWith(run, c)
            case None => c !in r.callers && Tries(run, c) == 0
            case Some(template) =>
              && c in r.callers && r.callers[c].template == template && |template| >= 6
              && |r.callers[c].answers| == Tries(run, c)
              && (Search(r.callers[c].answers).Trying? ==> forall fd: nat :: Enabled(r, Try(c, fd, None)))
    decreases |run|
  {
    if run == [] {
    } else {
      CallerReflectsHistory(s, run[..|run| - 1], c);
    }
  }
}
