/** The import graph of `scripts/architecture_checks.py`: names resolved to modules, the worklist
    `reachable`, and the rules over what a module reaches. */
module ImportGraph {
  import opened Wrappers

  // ---- resolving an imported name ----

  predicate StartsWith(s: string, prefix: string) {
    prefix <= s
  }

  predicate Matches(name: string, candidate: string) {
    name == candidate || StartsWith(name, candidate + ".")
  }

  /** `local_target`: the longest matching module, over the modules in any order. */
  function LocalTarget(modules: seq<string>, name: string): (r: Option<string>)
    ensures r.Some? ==> r.value in modules
  {
    if modules == [] then None
    else
      var best, last := LocalTarget(modules[..|modules| - 1], name), modules[|modules| - 1];
      if Matches(name, last) && (best.None? || |last| > |best.value|) then Some(last) else best
  }

  lemma {:induction false} TargetIsLongest(modules: seq<string>, name: string)
    ensures var r := LocalTarget(modules, name);
            && (r.Some? ==> Matches(name, r.value))
            && forall i | 0 <= i < |modules| && Matches(name, modules[i]) :: r.Some? && |modules[i]| <= |r.value|
  {
    hide Matches;
    if modules != [] {
      TargetIsLongest(modules[..|modules| - 1], name);
    }
  }

  /** The module is the name itself or stands in front of one of its dots. */
  predicate Encloses(m: string, name: string) {
    m == name || (m < name && name[|m|] == '.')
  }

  /** Of the modules that enclose a name, it stands for the innermost. */
  predicate IsTarget(modules: seq<string>, name: string, m: string) {
    m in modules && Encloses(m, name) && forall t | t in modules && Encloses(t, name) :: |t| <= |m|
  }

  lemma TargetIff(modules: seq<string>, name: string, m: string)
    ensures LocalTarget(modules, name) == Some(m) <==> IsTarget(modules, name, m)
  {
    TargetIsLongest(modules, name);
    forall t | t in modules ensures Encloses(t, name) <==> Matches(name, t) {
      EnclosesIff(t, name);
    }
    hide Encloses, Matches;
    var r := LocalTarget(modules, name);
    if m in modules && Encloses(m, name) {
      var i :| 0 <= i < |modules| && modules[i] == m;
      assert r.Some? && |m| <= |r.value|;
      OneOfLength(m, r.value, name);
    }
    forall t | t in modules && Encloses(t, name) ensures r.Some? && |t| <= |r.value| {
      var i :| 0 <= i < |modules| && modules[i] == t;
    }
  }

  lemma EnclosesIff(m: string, name: string)
    ensures Encloses(m, name) <==> Matches(name, m)
  {
    if m < name && name[|m|] == '.' {
      assert m + "." == name[..|m| + 1];
    }
  }

  lemma OneOfLength(m: string, t: string, name: string)
    requires Matches(name, m) && Matches(name, t)
    ensures |m| == |t| ==> m == t
  {
    assert m == name[..|m|] && t == name[..|t|];
  }

  /** The order of the modules plays no part: matches of one length are one and the same module. */
  lemma TargetIsUnique(a: seq<string>, b: seq<string>, name: string)
    requires forall m :: m in a <==> m in b
    ensures LocalTarget(a, name) == LocalTarget(b, name)
  {
    var r, t := LocalTarget(a, name), LocalTarget(b, name);
    TargetIsLongest(a, name);
    TargetIsLongest(b, name);
    if r.Some? || t.Some? {
      assert |r.value| == |t.value|;
      assert r.value == name[..|r.value|] && t.value == name[..|t.value|];
    }
  }

  // ---- the graph ----

  /** Every module of the package with the names it imports. */
  datatype Package = Package(modules: seq<string>, imports: map<string, seq<string>>)

  /** `graph[module]` */
  function Edges(p: Package, m: string): (targets: set<string>)
    ensures forall t | t in targets :: t in p.modules
  {
    if m in p.imports then
      set name | name in p.imports[m] && LocalTarget(p.modules, name).Some? :: LocalTarget(p.modules, name).value
    else {}
  }

  /** A module leads to those that the names it imports stand for. */
  lemma EdgeIff(p: Package, m: string, t: string)
    ensures t in Edges(p, m) <==> m in p.imports && exists name | name in p.imports[m] :: IsTarget(p.modules, name, t)
  {
    hide IsTarget, LocalTarget;
    if m in p.imports {
      forall name | name in p.imports[m]
        ensures LocalTarget(p.modules, name) == Some(t) <==> IsTarget(p.modules, name, t) {
        TargetIff(p.modules, name, t);
      }
    }
  }

  /** A walk along imports, of at least one step, that enters no stop node before its end. */
  ghost predicate IsPath(p: Package, stop: set<string>, path: seq<string>) {
    && |path| >= 2
    && (forall i | 0 < i < |path| :: path[i] in Edges(p, path[i - 1]))
    && (forall i | 0 < i < |path| - 1 :: path[i] !in stop)
  }

  ghost predicate Reaches(p: Package, stop: set<string>, start: string, end: string) {
    exists path :: IsPath(p, stop, path) && path[0] == start && path[|path| - 1] == end
  }

  lemma OneStep(p: Package, stop: set<string>, start: string, end: string)
    requires end in Edges(p, start)
    ensures Reaches(p, stop, start, end)
  {
    hide Edges;
    assert IsPath(p, stop, [start, end]);
  }

  lemma OneMoreStep(p: Package, stop: set<string>, start: string, middle: string, end: string)
    requires Reaches(p, stop, start, middle) && middle !in stop && end in Edges(p, middle)
    ensures Reaches(p, stop, start, end)
  {
    var path :| IsPath(p, stop, path) && path[0] == start && path[|path| - 1] == middle;
    PathExtends(p, stop, path, end);
  }

  lemma PathExtends(p: Package, stop: set<string>, path: seq<string>, end: string)
    requires IsPath(p, stop, path) && path[|path| - 1] !in stop && end in Edges(p, path[|path| - 1])
    ensures IsPath(p, stop, path + [end])
  {
    hide Edges;
    var longer := path + [end];
    forall i | 0 < i < |longer| ensures longer[i] in Edges(p, longer[i - 1]) {
      assert longer[i - 1] == path[i - 1];
      if i < |path| { assert longer[i] == path[i]; }
    }
  }

  /** A set as a list, in whatever order. */
  method ListOf(s: set<string>) returns (r: seq<string>)
    ensures forall t :: t in r <==> t in s
  {
    r := [];
    var left := s;
    while left != {}
      invariant left <= s && forall t :: t in r <==> t in s && t !in left
    {
      var t :| t in left;
      left := left - {t};
      r := r + [t];
    }
  }

  /** Nothing leads out of `seen` and `todo` except through a stop node. */
  ghost predicate Closed(p: Package, stop: set<string>, start: string, seen: set<string>, todo: set<string>) {
    && (forall t | t in Edges(p, start) :: t in seen || t in todo)
    && (forall s, t | s in seen && s !in stop && t in Edges(p, s) :: t in seen || t in todo)
  }

  lemma {:induction false} ClosedHoldsPath(p: Package, stop: set<string>, start: string, seen: set<string>,
                                           path: seq<string>)
    requires Closed(p, stop, start, seen, {}) && IsPath(p, stop, path) && path[0] == start
    ensures path[|path| - 1] in seen
    decreases |path|
  {
    hide Edges;
    var n := |path| - 1;
    if n > 1 {
      assert IsPath(p, stop, path[..n]);
      ClosedHoldsPath(p, stop, start, seen, path[..n]);
      assert path[n - 1] in seen && path[n - 1] !in stop;
    }
    assert path[n] in Edges(p, path[n - 1]);
  }

  function Members(s: seq<string>): set<string> {
    set x | x in s
  }

  ghost predicate Sound(p: Package, stop: set<string>, start: string, found: set<string>) {
    forall t | t in found :: Reaches(p, stop, start, t)
  }

  lemma EdgesAreSound(p: Package, stop: set<string>, start: string, item: string)
    requires item == start || (Reaches(p, stop, start, item) && item !in stop)
    ensures Sound(p, stop, start, Edges(p, item))
  {
    hide Edges, Reaches;
    forall t | t in Edges(p, item) ensures Reaches(p, stop, start, t) {
      if item == start { OneStep(p, stop, start, t); } else { OneMoreStep(p, stop, start, item, t); }
    }
  }

  lemma {:induction false} NothingLeft(p: Package, stop: set<string>, start: string, seen: set<string>)
    requires Closed(p, stop, start, seen, {})
    ensures forall t | Reaches(p, stop, start, t) :: t in seen
  {
    forall t | Reaches(p, stop, start, t) ensures t in seen {
      var path :| IsPath(p, stop, path) && path[0] == start && path[|path| - 1] == t;
      ClosedHoldsPath(p, stop, start, seen, path);
    }
  }

  /** What the worklist keeps from one round to the next. */
  ghost predicate Underway(p: Package, stop: set<string>, start: string, seen: set<string>, todo: set<string>) {
    && seen + todo <= Members(p.modules)
    && Sound(p, stop, start, seen + todo) && Closed(p, stop, start, seen, todo)
  }

  lemma Starts(p: Package, stop: set<string>, start: string)
    ensures Underway(p, stop, start, {}, Edges(p, start))
  {
    EdgesAreSound(p, stop, start, start);
    hide Edges, Reaches;
    assert {} + Edges(p, start) == Edges(p, start);
  }

  lemma TakesSeen(p: Package, stop: set<string>, start: string, seen: set<string>, todo: set<string>, item: string)
    requires Underway(p, stop, start, seen, todo + {item}) && item in seen
    ensures Underway(p, stop, start, seen, todo)
  {
    hide Edges, Reaches;
    assert seen + (todo + {item}) == seen + todo;
  }

  lemma TakesNew(p: Package, stop: set<string>, start: string, seen: set<string>, todo: set<string>, item: string)
    requires Underway(p, stop, start, seen, todo + {item}) && item !in seen
    ensures item in p.modules
    ensures item in stop ==> Underway(p, stop, start, seen + {item}, todo)
    ensures item !in stop ==>
              Underway(p, stop, start, seen + {item}, todo + (Edges(p, item) - (seen + {item})))
  {
    hide Edges, Reaches;
    assert item in seen + (todo + {item});
    assert (seen + {item}) + todo == seen + (todo + {item});
    if item !in stop {
      EdgesAreSound(p, stop, start, item);
    }
  }

  /** `reachable`. It ends on every graph, cyclic ones included, and returns exactly the nodes at the end
      of a path of one step or more whose interior avoids `stop_at`. */
  method Reachable(p: Package, start: string, stop: set<string>) returns (seen: set<string>)
    ensures forall t :: t in seen <==> Reaches(p, stop, start, t)
  {
    hide Edges, Reaches, Underway;
    seen := {};
    var todo := ListOf(Edges(p, start));
    assert Members(todo) == Edges(p, start);
    Starts(p, stop, start);
    while todo != []
      invariant Underway(p, stop, start, seen, Members(todo))
      decreases |Members(p.modules) - seen|, |todo|
    {
      var n := |todo| - 1;
      var item := todo[n];
      MembersSplit(todo);
      todo := todo[..n];
      if item in seen {
        TakesSeen(p, stop, start, seen, Members(todo), item);
        continue;
      }
      TakesNew(p, stop, start, seen, Members(todo), item);
      Shrinks(Members(p.modules), seen, item);
      seen := seen + {item};
      if item !in stop {
        var more := ListOf(Edges(p, item) - seen);
        MembersConcat(todo, more, Edges(p, item) - seen);
        todo := todo + more;
      }
    }
    Ends(p, stop, start, seen);
  }

  lemma MembersSplit(todo: seq<string>)
    requires todo != []
    ensures Members(todo) == Members(todo[..|todo| - 1]) + {todo[|todo| - 1]}
  {
    assert todo == todo[..|todo| - 1] + [todo[|todo| - 1]];
  }

  lemma MembersConcat(todo: seq<string>, more: seq<string>, s: set<string>)
    requires forall t :: t in more <==> t in s
    ensures Members(todo + more) == Members(todo) + s
  {
  }

  lemma Ends(p: Package, stop: set<string>, start: string, seen: set<string>)
    requires Underway(p, stop, start, seen, Members([]))
    ensures forall t :: t in seen <==> Reaches(p, stop, start, t)
  {
    hide Edges, Reaches;
    assert Members([]) == {};
    NothingLeft(p, stop, start, seen);
    assert seen + {} == seen;
  }

  lemma Shrinks(all: set<string>, seen: set<string>, item: string)
    requires item in all && item !in seen
    ensures |all - (seen + {item})| < |all - seen|
  {
    assert all - (seen + {item}) == (all - seen) - {item};
  }

  // ---- the rules ----

  predicate AnyPrefix(s: string, prefixes: seq<string>) {
    exists i | 0 <= i < |prefixes| :: StartsWith(s, prefixes[i])
  }

  const ENTRY_POINT_STOP := {"agent_core.bootstrap"}

  /** The first two dotted parts of a module name. */
  function TopTwo(name: string): string {
    name[..Dots(name, 2)]
  }

  /** Where the `k`-th dot stands, or the end. */
  function Dots(name: string, k: nat): (n: nat)
    ensures n <= |name|
    decreases |name|
  {
    if name == "" || (name[0] == '.' && k <= 1) then 0
    else 1 + Dots(name[1..], if name[0] == '.' then k - 1 else k)
  }

  /** What a module may not reach at all. */
  predicate Forbidden(m: string, target: string) {
    || (StartsWith(m, "agent_core.ports") && !AnyPrefix(target, ["agent_core.domain", "agent_core.ports"]))
    || (AnyPrefix(m, ["agent_core.runtime", "agent_core.application"])
        && !AnyPrefix(target, ["agent_core.domain", "agent_core.ports", "agent_core.model", TopTwo(m)]))
    || (StartsWith(m, "agent_core.tools") && StartsWith(target, "agent_core.models"))
    || (StartsWith(m, "agent_core.models") && StartsWith(target, "agent_core.tools"))
    || (StartsWith(m, "agent_core.policy") && AnyPrefix(target, ["agent_core.context", "agent_core.models"]))
    || (!StartsWith(m, "agent_core.evals") && StartsWith(target, "agent_core.evals"))
  }

  /** What an entry point may not reach without passing through the composition root. */
  predicate ForbiddenToEntry(m: string, target: string) {
    && AnyPrefix(m, ["agent_core.api", "agent_core.cli"])
    && AnyPrefix(target, ["agent_core.adapters", "agent_core.ports.repositories", "agent_core.runtime"])
  }

  /** `imported.split(".", 1)[0]` */
  function Root(name: string): string {
    name[..Dots(name, 1)]
  }

  lemma {:induction false} DotsBehind(a: string, rest: string, k: nat)
    requires '.' !in a
    ensures Dots(a + rest, k) == |a| + Dots(rest, k)
    ensures Dots(a, k) == |a|
  {
    if a != "" {
      assert a[0] != '.' && (a + rest)[1..] == a[1..] + rest;
      DotsBehind(a[1..], rest, k);
    } else {
      assert a + rest == rest;
    }
  }

  /** The first part of a name, and the first two. */
  lemma PartsAre(a: string, b: string, rest: string)
    requires '.' !in a && '.' !in b
    ensures Root(a) == a && Root(a + ("." + rest)) == a
    ensures TopTwo(a + ("." + b)) == a + ("." + b)
    ensures TopTwo(a + ("." + (b + ("." + rest)))) == a + ("." + b)
  {
    DotsBehind(a, "." + rest, 1);
    DotsBehind(a, "." + b, 2);
    DotsBehind(a, "." + (b + ("." + rest)), 2);
    DotsBehind(b, "." + rest, 1);
    assert ("." + b)[1..] == b && ("." + (b + ("." + rest)))[1..] == b + ("." + rest);
    assert (a + ("." + rest))[..|a|] == a;
    assert (a + ("." + (b + ("." + rest))))[..|a| + 1 + |b|] == a + ("." + b);
  }

  predicate ImportsRoot(p: Package, m: string, root: string) {
    m in p.imports && exists i | 0 <= i < |p.imports[m]| :: Root(p.imports[m][i]) == root
  }

  datatype Breach =
    | Reached(source: string, target: string)   // a module reaches what it must not
    | Surfaced(source: string, target: string)  // an entry point does, around the composition root
    | Framework(source: string)                 // the application reaches FastAPI

  ghost predicate IsBreach(p: Package, b: Breach) {
    b.source in p.modules &&
    match b
    case Reached(m, target) => Forbidden(m, target) && Reaches(p, {}, m, target)
    case Surfaced(m, target) => ForbiddenToEntry(m, target) && Reaches(p, ENTRY_POINT_STOP, m, target)
    case Framework(m) =>
      StartsWith(m, "agent_core.application") && (ImportsRoot(p, m, "fastapi") || ReachesFramework(p, m))
  }

  ghost predicate ReachesFramework(p: Package, m: string) {
    exists r :: Reaches(p, {}, m, r) && ImportsRoot(p, r, "fastapi")
  }

  /** What one module is reported for. */
  method ModuleErrors(p: Package, m: string) returns (errors: set<Breach>)
    requires m in p.modules
    ensures forall b :: b in errors <==> b.source == m && IsBreach(p, b)
  {
    hide Forbidden, ForbiddenToEntry, Reaches, ImportsRoot, StartsWith;
    var all := Reachable(p, m, {});
    var surface := Reachable(p, m, ENTRY_POINT_STOP);
    errors := (set t | t in all && Forbidden(m, t) :: Reached(m, t))
              + (set t | t in surface && ForbiddenToEntry(m, t) :: Surfaced(m, t));
    if StartsWith(m, "agent_core.application") {
      var reached := {m} + all;
      if exists r | r in reached :: ImportsRoot(p, r, "fastapi") {
        errors := errors + {Framework(m)};
      }
    }
  }

  /** The errors the reaching rules report: each forbidden target that some import path leads to, each
      application module from which one leads to an import of FastAPI, and no other. */
  method ReachErrors(p: Package) returns (errors: set<Breach>)
    ensures forall b :: b in errors <==> IsBreach(p, b)
  {
    hide IsBreach;
    errors := {};
    for i := 0 to |p.modules|
      invariant forall b :: b in errors <==> b.source in p.modules[..i] && IsBreach(p, b)
    {
      var here := ModuleErrors(p, p.modules[i]);
      errors := errors + here;
      assert p.modules[..i + 1] == p.modules[..i] + [p.modules[i]];
    }
    assert p.modules[..|p.modules|] == p.modules;
    assert forall b | IsBreach(p, b) :: b.source in p.modules by {
      BreachesAreLocal(p);
    }
  }

  lemma BreachesAreLocal(p: Package)
    ensures forall b | IsBreach(p, b) :: b.source in p.modules
  {
    hide Forbidden, ForbiddenToEntry, Reaches, ReachesFramework;
  }

  predicate InsidePorts(target: string) {
    AnyPrefix(target, ["agent_core.domain", "agent_core.ports"])
  }

  /** A report without a complaint about ports means that no import path out of a ports module ever leaves
      domain and ports, at its end or on its way, however long it is and whatever cycles it runs through;
      and such a complaint is raised whenever one does. */
  lemma PortsStayInsideIff(p: Package, errors: set<Breach>)
    requires forall b :: b in errors <==> IsBreach(p, b)
    ensures (forall b | b in errors && b.Reached? && StartsWith(b.source, "agent_core.ports") :: InsidePorts(b.target))
        <==> (forall path, i | IsPath(p, {}, path) && path[0] in p.modules && StartsWith(path[0], "agent_core.ports")
                               && 0 < i < |path| :: InsidePorts(path[i]))
  {
    hide InsidePorts, StartsWith, Edges, Forbidden, ForbiddenToEntry;
    if forall b | b in errors && b.Reached? && StartsWith(b.source, "agent_core.ports") :: InsidePorts(b.target) {
      forall path, i | IsPath(p, {}, path) && path[0] in p.modules && StartsWith(path[0], "agent_core.ports")
                       && 0 < i < |path|
        ensures InsidePorts(path[i]) {
        FrontReaches(p, path, i);
        var b := Reached(path[0], path[i]);
        OutsideIsForbidden(path[0], path[i]);
        assert b in errors <==> IsBreach(p, b);
      }
    }
    if forall path, i | IsPath(p, {}, path) && path[0] in p.modules && StartsWith(path[0], "agent_core.ports")
                        && 0 < i < |path| :: InsidePorts(path[i]) {
      forall b | b in errors && b.Reached? && StartsWith(b.source, "agent_core.ports") ensures InsidePorts(b.target) {
        assert IsBreach(p, b);
        var path :| IsPath(p, {}, path) && path[0] == b.source && path[|path| - 1] == b.target;
        assert 0 < |path| - 1 < |path|;
      }
    }
  }

  lemma FrontReaches(p: Package, path: seq<string>, i: nat)
    requires IsPath(p, {}, path) && 0 < i < |path|
    ensures Reaches(p, {}, path[0], path[i])
  {
    hide Edges;
    var front := path[..i + 1];
    assert IsPath(p, {}, front) && front[0] == path[0] && front[|front| - 1] == path[i];
  }

  lemma OutsideIsForbidden(m: string, target: string)
    requires StartsWith(m, "agent_core.ports")
    ensures !InsidePorts(target) ==> Forbidden(m, target)
  {
  }

  /** The report of the rules on what a module reaches is empty exactly when every import path keeps to what is
      allowed, and every one that avoids the composition root to what is allowed to entry points. */
  lemma CleanReportIff(p: Package, errors: set<Breach>)
    requires forall b :: b in errors <==> IsBreach(p, b)
    ensures (forall b | b in errors :: b.Framework?) <==>
            && (forall m, t | Reaches(p, {}, m, t) && m in p.modules :: Allowed(m, t))
            && (forall m, t | Reaches(p, {"agent_core.bootstrap"}, m, t) && m in p.modules :: AllowedToEntry(m, t))
  {
    hide Reaches, Forbidden, ForbiddenToEntry, Allowed, AllowedToEntry;
    forall m, t | Reaches(p, {}, m, t) && m in p.modules ensures Reached(m, t) in errors <==> !Allowed(m, t) {
      NotForbiddenIs(m, t);
      assert Reached(m, t) in errors <==> IsBreach(p, Reached(m, t));
    }
    forall m, t | Reaches(p, {"agent_core.bootstrap"}, m, t) && m in p.modules
      ensures Surfaced(m, t) in errors <==> !AllowedToEntry(m, t) {
      NotForbiddenToEntryIs(m, t);
      assert Surfaced(m, t) in errors <==> IsBreach(p, Surfaced(m, t));
    }
    forall b | b in errors && !b.Framework?
      ensures b.source in p.modules
      ensures Reaches(p, if b.Reached? then {} else {"agent_core.bootstrap"}, b.source, b.target) {
      assert IsBreach(p, b);
    }
  }

  /** What a module may reach, rule by rule. */
  predicate Allowed(m: string, t: string) {
    && ("agent_core.tools" <= m ==> !("agent_core.models" <= t))
    && ("agent_core.models" <= m ==> !("agent_core.tools" <= t))
    && ("agent_core.policy" <= m ==> !("agent_core.context" <= t) && !("agent_core.models" <= t))
    && ("agent_core.evals" <= t ==> "agent_core.evals" <= m)
    && ("agent_core.ports" <= m ==> "agent_core.domain" <= t || "agent_core.ports" <= t)
    && ("agent_core.runtime" <= m || "agent_core.application" <= m ==>
          "agent_core.domain" <= t || "agent_core.ports" <= t || "agent_core.model" <= t || TopTwo(m) <= t)
  }

  predicate AllowedToEntry(m: string, t: string) {
    "agent_core.api" <= m || "agent_core.cli" <= m ==>
      !("agent_core.adapters" <= t) && !("agent_core.ports.repositories" <= t) && !("agent_core.runtime" <= t)
  }

  lemma AnyOf(s: string, prefixes: seq<string>)
    ensures |prefixes| == 2 ==> (AnyPrefix(s, prefixes) <==> prefixes[0] <= s || prefixes[1] <= s)
    ensures |prefixes| == 3 ==>
              (AnyPrefix(s, prefixes) <==> prefixes[0] <= s || prefixes[1] <= s || prefixes[2] <= s)
    ensures |prefixes| == 4 ==>
              (AnyPrefix(s, prefixes) <==>
               prefixes[0] <= s || prefixes[1] <= s || prefixes[2] <= s || prefixes[3] <= s)
  {
  }

  lemma NotForbiddenIs(m: string, t: string)
    ensures Forbidden(m, t) <==> !Allowed(m, t)
  {
    hide AnyPrefix, TopTwo;
    AnyOf(t, ["agent_core.domain", "agent_core.ports"]);
    AnyOf(m, ["agent_core.runtime", "agent_core.application"]);
    AnyOf(t, ["agent_core.domain", "agent_core.ports", "agent_core.model", TopTwo(m)]);
    AnyOf(t, ["agent_core.context", "agent_core.models"]);
  }

  lemma NotForbiddenToEntryIs(m: string, t: string)
    ensures ForbiddenToEntry(m, t) <==> !AllowedToEntry(m, t)
  {
    hide AnyPrefix;
    AnyOf(m, ["agent_core.api", "agent_core.cli"]);
    AnyOf(t, ["agent_core.adapters", "agent_core.ports.repositories", "agent_core.runtime"]);
  }

  predicate IsApplication(m: string) {
    StartsWith(m, "agent_core.application")
  }

  /** A report without a complaint about FastAPI means that no module on any import path out of an
      application module imports it, the application module itself included. */
  lemma ApplicationStaysFreeIff(p: Package, errors: set<Breach>)
    requires forall b :: b in errors <==> IsBreach(p, b)
    ensures (forall b | b in errors :: !b.Framework?) <==>
            && (forall m | m in p.modules && IsApplication(m) :: !ImportsRoot(p, m, "fastapi"))
            && (forall path, i | IsPath(p, {}, path) && path[0] in p.modules && IsApplication(path[0])
                                 && 0 < i < |path| :: !ImportsRoot(p, path[i], "fastapi"))
  {
    hide ImportsRoot, StartsWith, Edges, Forbidden, ForbiddenToEntry;
    if forall b | b in errors :: !b.Framework? {
      forall m | m in p.modules && IsApplication(m) ensures !ImportsRoot(p, m, "fastapi") {
        assert Framework(m) in errors <==> IsBreach(p, Framework(m));
      }
      forall path, i | IsPath(p, {}, path) && path[0] in p.modules && IsApplication(path[0]) && 0 < i < |path|
        ensures !ImportsRoot(p, path[i], "fastapi") {
        FrontReaches(p, path, i);
        assert Framework(path[0]) in errors <==> IsBreach(p, Framework(path[0]));
      }
    }
    if exists b :: b in errors && b.Framework? {
      var b :| b in errors && b.Framework?;
      assert IsBreach(p, b);
      if !ImportsRoot(p, b.source, "fastapi") {
        var r :| Reaches(p, {}, b.source, r) && ImportsRoot(p, r, "fastapi");
        var path :| IsPath(p, {}, path) && path[0] == b.source && path[|path| - 1] == r;
        assert 0 < |path| - 1 < |path|;
      }
    }
  }
}
