/** `migration_graph_errors` of `scripts/architecture_checks.py`: what its counting of heads proves about
    the revisions, and what it leaves open. */
module Migrations {
  import opened Wrappers

  /** What a script assigns to `revision` or `down_revision`. */
  datatype Value = Absent | NoValue | NotLiteral | Null | Text(text: string) | Merge | Other

  datatype Script = Script(revision: Value, down: Value)

  datatype Error =
    | BadAssignment
    | MissingRevision
    | MergeForbidden
    | BadParent
    | Duplicate(revision: string)
    | NoRevisions
    | MissingParent(revision: string)
    | HeadCount(heads: nat)
    | WrongExpected

  /** Each revision with the one it follows. */
  type Revisions = map<string, Option<string>>

  predicate Assigned(v: Value) {
    !v.NoValue? && !v.NotLiteral?
  }

  /** A script that is registered without complaint. */
  predicate WellFormed(s: Script) {
    s.revision.Text? && (s.down.Text? || s.down.Null? || s.down.Absent?)
  }

  function ParentOf(s: Script): Option<string> {
    if s.down.Text? then Some(s.down.text) else None
  }

  /** The revisions of some scripts, and whether all were well-formed and distinct. */
  function Registered(scripts: seq<Script>): Revisions {
    if scripts == [] then map[]
    else
      var before, last := Registered(scripts[..|scripts| - 1]), scripts[|scripts| - 1];
      if last.revision.Text? && !last.down.Merge? && !last.down.Other? then before[last.revision.text := ParentOf(last)]
      else before
  }

  predicate AllRegistered(scripts: seq<Script>) {
    scripts == [] ||
    (var before, last := scripts[..|scripts| - 1], scripts[|scripts| - 1];
     AllRegistered(before) && WellFormed(last) && last.revision.text !in Registered(before))
  }

  // ---- the graph ----

  function Parents(revisions: Revisions): set<string> {
    set r | r in revisions && revisions[r].Some? :: revisions[r].value
  }

  function Heads(revisions: Revisions): set<string> {
    revisions.Keys - Parents(revisions)
  }

  function Roots(revisions: Revisions): set<string> {
    set r | r in revisions && revisions[r].None?
  }

  predicate ParentStands(revisions: Revisions, r: string) {
    r in revisions && (revisions[r].Some? ==> revisions[r].value in revisions)
  }

  /** What the graph part of the check tests. */
  predicate Passes(revisions: Revisions, expected: Option<string>) {
    && revisions != map[]
    && Parents(revisions) <= revisions.Keys
    && |Heads(revisions)| == 1
    && expected.Some? && expected.value in Heads(revisions)
  }

  /** A revision is reported whose parent is not there. */
  predicate IsOrphan(revisions: Revisions, e: Error) {
    e.MissingParent? && e.revision in revisions && !ParentStands(revisions, e.revision)
  }

  method MissingParents(revisions: Revisions) returns (errors: seq<Error>)
    ensures errors == [] <==> Parents(revisions) <= revisions.Keys
    ensures forall e :: e in errors <==> IsOrphan(revisions, e)
  {
    errors := [];
    var left := revisions.Keys;
    while left != {}
      invariant left <= revisions.Keys
      invariant errors == [] <==> forall r | r in revisions && r !in left :: ParentStands(revisions, r)
      invariant forall e :: e in errors <==> IsOrphan(revisions, e) && e.revision !in left
    {
      var r :| r in left;
      left := left - {r};
      if revisions[r].Some? && revisions[r].value !in revisions {
        errors := errors + [MissingParent(r)];
        assert !ParentStands(revisions, r);
      } else {
        assert ParentStands(revisions, r);
      }
    }
    if errors == [] {
      forall p | p in Parents(revisions) ensures p in revisions {
        var r :| r in revisions && revisions[r] == Some(p);
        assert ParentStands(revisions, r);
      }
    } else {
      var r :| r in revisions && !ParentStands(revisions, r);
      assert revisions[r].value in Parents(revisions);
    }
  }

  /** What is wrong with a script, coming after these. */
  predicate IsFault(before: seq<Script>, s: Script, e: Error) {
    match e
    case BadAssignment => !Assigned(s.revision) || !Assigned(s.down)
    case MissingRevision => !s.revision.Text?
    case MergeForbidden => s.revision.Text? && s.down.Merge?
    case BadParent => s.revision.Text? && s.down.Other?
    case Duplicate(r) => Registers(s, r) && exists i | 0 <= i < |before| :: Registers(before[i], r)
    case _ => false
  }

  /** The script names this revision, with a parent that can be one. */
  predicate Registers(s: Script, r: string) {
    s.revision == Text(r) && !s.down.Merge? && !s.down.Other?
  }

  predicate IsScriptError(scripts: seq<Script>, e: Error) {
    exists i | 0 <= i < |scripts| :: IsFault(scripts[..i], scripts[i], e)
  }

  lemma ScriptErrorsGrow(scripts: seq<Script>, n: nat)
    requires n < |scripts|
    ensures forall e :: IsScriptError(scripts[..n + 1], e) <==>
                        IsScriptError(scripts[..n], e) || IsFault(scripts[..n], scripts[n], e)
  {
    hide IsFault;
    var now, was := scripts[..n + 1], scripts[..n];
    forall i | 0 <= i <= n ensures now[..i] == scripts[..i] {
    }
    forall i | 0 <= i < n ensures was[..i] == scripts[..i] {
    }
    forall e ensures IsScriptError(now, e) <==> IsScriptError(was, e) || IsFault(was, scripts[n], e) {
      if IsFault(was, scripts[n], e) {
        assert IsFault(now[..n], now[n], e);
      }
      if IsScriptError(was, e) {
        var i :| 0 <= i < |was| && IsFault(was[..i], was[i], e);
        assert IsFault(now[..i], now[i], e);
      }
      if IsScriptError(now, e) {
        var i :| 0 <= i < |now| && IsFault(now[..i], now[i], e);
        assert i < n ==> IsFault(was[..i], was[i], e);
      }
    }
  }

  /** The last script that names a revision decides its parent. */
  lemma {:induction false} RegisteredIff(scripts: seq<Script>, r: string, parent: Option<string>)
    ensures r in Registered(scripts) && Registered(scripts)[r] == parent <==>
            exists i | 0 <= i < |scripts| ::
              && Registers(scripts[i], r)
              && parent == (if scripts[i].down.Text? then Some(scripts[i].down.text) else None)
              && forall j | i < j < |scripts| :: !Registers(scripts[j], r)
  {
    if scripts != [] {
      var n := |scripts| - 1;
      RegisteredIff(scripts[..n], r, parent);
      if !Registers(scripts[n], r) {
        if i :| 0 <= i < n && Registers(scripts[..n][i], r)
                && parent == (if scripts[..n][i].down.Text? then Some(scripts[..n][i].down.text) else None)
                && forall j | i < j < n :: !Registers(scripts[..n][j], r) {
          forall j | i < j <= n ensures !Registers(scripts[j], r) {
            assert j < n ==> scripts[..n][j] == scripts[j];
          }
        }
      }
    }
  }

  lemma {:induction false} NamedIff(scripts: seq<Script>, r: string)
    ensures r in Registered(scripts) <==> exists i | 0 <= i < |scripts| :: Registers(scripts[i], r)
  {
    if scripts != [] {
      var n := |scripts| - 1;
      NamedIff(scripts[..n], r);
      if Registers(scripts[n], r) {
        assert r in Registered(scripts);
      } else {
        assert r in Registered(scripts) <==> r in Registered(scripts[..n]);
        forall i | 0 <= i < n ensures scripts[..n][i] == scripts[i] {
        }
      }
    }
  }

  /** The loop over the script files. */
  method Register(scripts: seq<Script>) returns (revisions: Revisions, errors: seq<Error>)
    ensures revisions == Registered(scripts)
    ensures errors == [] <==> AllRegistered(scripts)
    ensures forall e :: e in errors <==> IsScriptError(scripts, e)
  {
    revisions, errors := map[], [];
    for i := 0 to |scripts|
      invariant revisions == Registered(scripts[..i])
      invariant errors == [] <==> AllRegistered(scripts[..i])
      invariant forall e :: e in errors <==> IsScriptError(scripts[..i], e)
    {
      var s := scripts[i];
      assert scripts[..i + 1][..i] == scripts[..i];
      ScriptErrorsGrow(scripts, i);
      if !Assigned(s.revision) {
        errors := errors + [BadAssignment];
      }
      if !Assigned(s.down) {
        errors := errors + [BadAssignment];
      }
      if !s.revision.Text? {
        errors := errors + [MissingRevision];
        continue;
      }
      if s.down.Merge? {
        errors := errors + [MergeForbidden];
        continue;
      }
      if s.down.Other? {
        errors := errors + [BadParent];
        continue;
      }
      NamedIff(scripts[..i], s.revision.text);
      if s.revision.text in revisions {
        errors := errors + [Duplicate(s.revision.text)];
      }
      revisions := revisions[s.revision.text := ParentOf(s)];
    }
    assert scripts[..|scripts|] == scripts;
  }

  /** `migration_graph_errors` */
  method GraphErrors(scripts: seq<Script>, expected: Option<string>) returns (errors: seq<Error>)
    ensures errors == [] <==> AllRegistered(scripts) && Passes(Registered(scripts), expected)
    ensures var revisions := Registered(scripts);
            if revisions == map[] then errors == [NoRevisions]
            else forall e :: e in errors <==>
              || IsScriptError(scripts, e) || IsOrphan(revisions, e)
              || (e == HeadCount(|Heads(revisions)|) && |Heads(revisions)| != 1)
              || (e == WrongExpected && |Heads(revisions)| == 1
                  && !(expected.Some? && expected.value in Heads(revisions)))
  {
    hide Registered, AllRegistered, Parents, Heads, IsScriptError, IsOrphan;
    var revisions: Revisions;
    revisions, errors := Register(scripts);
    if revisions == map[] {
      return [NoRevisions];
    }
    var missing := MissingParents(revisions);
    errors := errors + missing;
    var heads := Heads(revisions);
    if |heads| != 1 {
      errors := errors + [HeadCount(|heads|)];
    } else if expected.None? || expected.value !in heads {
      errors := errors + [WrongExpected];
    }
  }

  // ---- what passing means ----

  /** A map takes at most one value per key; if no fewer, it is one-to-one. */
  lemma {:induction false} ImageSize(m: map<string, string>)
    ensures |m.Values| <= |m.Keys|
    ensures |m.Values| == |m.Keys| ==> forall a, b | a in m && b in m && m[a] == m[b] :: a == b
    decreases |m.Keys|
  {
    if m.Keys != {} {
      var k :| k in m;
      var rest := m - {k};
      assert rest.Keys == m.Keys - {k};
      ImageSize(rest);
      forall a | a in m && a != k ensures a in rest && m[a] == rest[a] && m[a] in rest.Values {
        assert a in rest.Keys;
        assert rest[a] in rest.Values;
      }
      assert m.Values == rest.Values + {m[k]} by {
        assert rest.Values <= m.Values;
        forall v | v in m.Values ensures v in rest.Values + {m[k]} {
          var a :| a in m && m[a] == v;
        }
      }
    } else {
      assert m == map[];
    }
  }

  function Links(revisions: Revisions): map<string, string> {
    map r | r in revisions && revisions[r].Some? :: revisions[r].value
  }

  /** No revision has two children. */
  predicate Unbranched(revisions: Revisions) {
    forall a, b | a in revisions && b in revisions && revisions[a].Some? && revisions[a] == revisions[b] :: a == b
  }

  lemma CountLinks(revisions: Revisions)
    ensures Links(revisions).Values == Parents(revisions)
    ensures |Links(revisions).Keys| == |revisions.Keys| - |Roots(revisions)|
  {
    var m := Links(revisions);
    assert m.Values == Parents(revisions) by {
      forall v | v in Parents(revisions) ensures v in m.Values {
        var r :| r in revisions && revisions[r] == Some(v);
        assert r in m && m[r] == v;
      }
    }
    assert m.Keys == revisions.Keys - Roots(revisions);
    Disjoint(revisions.Keys, Roots(revisions));
  }

  lemma Disjoint(all: set<string>, part: set<string>)
    requires part <= all
    ensures |all - part| == |all| - |part|
  {
    assert all == (all - part) + part && (all - part) !! part;
  }

  /** A passing graph has at most one root, and if it has one, no revision has two children. */
  lemma PassingIsUnbranched(revisions: Revisions, expected: Option<string>)
    requires Passes(revisions, expected)
    ensures |Roots(revisions)| <= 1
    ensures |Roots(revisions)| == 1 ==> Unbranched(revisions)
  {
    var m := Links(revisions);
    CountLinks(revisions);
    ImageSize(m);
    Disjoint(revisions.Keys, Parents(revisions));
    if |Roots(revisions)| == 1 {
      forall a, b | a in revisions && b in revisions && revisions[a].Some? && revisions[a] == revisions[b]
        ensures a == b {
        assert a in m && b in m && m[a] == m[b];
      }
    }
  }

  /** Following parents from `r` ends at a root within `n` steps. */
  predicate Founded(revisions: Revisions, r: string, n: nat)
    decreases n
  {
    n > 0 && r in revisions && (revisions[r].None? || Founded(revisions, revisions[r].value, n - 1))
  }

  /** No revision descends from itself. The check does not look for this. */
  ghost predicate Acyclic(revisions: Revisions) {
    forall r | r in revisions :: exists n: nat :: Founded(revisions, r, n)
  }

  /** All revisions, each once, from the root to the head. */
  ghost predicate IsChain(revisions: Revisions, chain: seq<string>) {
    && chain != []
    && (forall i, j | 0 <= i < j < |chain| :: chain[i] != chain[j])
    && (forall r :: r in revisions <==> r in chain)
    && revisions[chain[0]].None?
    && forall i | 0 < i < |chain| :: revisions[chain[i]] == Some(chain[i - 1])
  }

  /** The ancestry of a revision, root first. */
  function Line(revisions: Revisions, r: string, n: nat): (line: seq<string>)
    requires Founded(revisions, r, n)
    ensures line != [] && line[|line| - 1] == r && line[0] in revisions && revisions[line[0]].None?
    decreases n
  {
    if revisions[r].None? then [r] else Line(revisions, revisions[r].value, n - 1) + [r]
  }

  lemma {:induction false} LineAt(revisions: Revisions, r: string, n: nat, i: nat) returns (k: nat)
    requires Founded(revisions, r, n) && i < |Line(revisions, r, n)|
    ensures var line := Line(revisions, r, n);
            && line[i] in revisions && (i > 0 ==> revisions[line[i]] == Some(line[i - 1]))
            && Founded(revisions, line[i], k) && Line(revisions, line[i], k) == line[..i + 1]
    decreases n
  {
    var line := Line(revisions, r, n);
    if i == |line| - 1 {
      k := n;
      assert line[..i + 1] == line;
    } else {
      k := LineAt(revisions, revisions[r].value, n - 1, i);
    }
  }

  lemma {:induction false} LineIsOne(revisions: Revisions, r: string, n: nat, k: nat)
    requires Founded(revisions, r, n) && Founded(revisions, r, k)
    ensures Line(revisions, r, n) == Line(revisions, r, k)
    decreases n
  {
    if revisions[r].Some? {
      LineIsOne(revisions, revisions[r].value, n - 1, k - 1);
    }
  }

  lemma LineIsDistinct(revisions: Revisions, r: string, n: nat)
    requires Founded(revisions, r, n)
    ensures var line := Line(revisions, r, n); forall i, j | 0 <= i < j < |line| :: line[i] != line[j]
  {
    var line := Line(revisions, r, n);
    forall i, j | 0 <= i < j < |line| ensures line[i] != line[j] {
      var a := LineAt(revisions, r, n, i);
      var b := LineAt(revisions, r, n, j);
      if line[i] == line[j] { LineIsOne(revisions, line[i], a, b); }
    }
  }

  /** A revision that follows nobody in `line` but is founded would need an ancestor outside for ever. */
  lemma {:induction false} NobodyOutside(revisions: Revisions, head: string, n: nat, x: string, k: nat)
    requires Founded(revisions, head, n) && Founded(revisions, x, k)
    requires Heads(revisions) == {head} && |Roots(revisions)| == 1 && Unbranched(revisions)
    ensures x in Line(revisions, head, n)
    decreases k
  {
    var line := Line(revisions, head, n);
    if revisions[x].None? {
      assert line[0] in Roots(revisions) && x in Roots(revisions);
      OnlyOne(Roots(revisions), line[0], x);
    } else {
      var p := revisions[x].value;
      NobodyOutside(revisions, head, n, p, k - 1);
      var i :| 0 <= i < |line| && line[i] == p;
      assert p in Parents(revisions) && p !in Heads(revisions);
      assert i < |line| - 1;
      var _ := LineAt(revisions, head, n, i + 1);
      assert revisions[line[i + 1]] == revisions[x];
    }
  }

  lemma OnlyOne(s: set<string>, a: string, b: string)
    requires |s| == 1 && a in s && b in s
    ensures a == b
  {
    assert s == {a} + (s - {a});
  }

  /** The linearity the check is for: a graph passes and has no cycle if and only if its revisions form one
      chain from the root to `EXPECTED_REVISION`. */
  lemma LinearIff(revisions: Revisions, expected: Option<string>)
    ensures Passes(revisions, expected) && Acyclic(revisions) <==>
            exists chain :: IsChain(revisions, chain) && expected == Some(chain[|chain| - 1])
  {
    if Passes(revisions, expected) && Acyclic(revisions) {
      var _ := TheChain(revisions, expected.value);
    }
    forall chain | IsChain(revisions, chain) && expected == Some(chain[|chain| - 1])
      ensures Passes(revisions, expected) && Acyclic(revisions) {
      ChainPasses(revisions, chain);
    }
  }

  lemma TheChain(revisions: Revisions, head: string) returns (chain: seq<string>)
    requires Passes(revisions, Some(head)) && Acyclic(revisions)
    ensures IsChain(revisions, chain) && chain[|chain| - 1] == head
  {
    PassingIsUnbranched(revisions, Some(head));
    assert Heads(revisions) == {head} by {
      forall h | h in Heads(revisions) ensures h == head { OnlyOne(Heads(revisions), h, head); }
    }
    var n: nat :| Founded(revisions, head, n);
    chain := Line(revisions, head, n);
    assert chain[0] in Roots(revisions);
    assert |Roots(revisions)| == 1 by {
      assert Roots(revisions) != {};
    }
    LineIsDistinct(revisions, head, n);
    forall i | 0 <= i < |chain|
      ensures chain[i] in revisions && (i > 0 ==> revisions[chain[i]] == Some(chain[i - 1])) {
      var _ := LineAt(revisions, head, n, i);
    }
    forall r | r in revisions ensures r in chain {
      var k: nat :| Founded(revisions, r, k);
      NobodyOutside(revisions, head, n, r, k);
    }
  }

  lemma {:induction false} FoundedInChain(revisions: Revisions, chain: seq<string>, i: nat)
    requires IsChain(revisions, chain) && i < |chain|
    ensures Founded(revisions, chain[i], i + 1)
  {
    assert chain[i] in revisions;
    if i > 0 {
      FoundedInChain(revisions, chain, i - 1);
    }
  }

  lemma ChainPasses(revisions: Revisions, chain: seq<string>)
    requires IsChain(revisions, chain)
    ensures Passes(revisions, Some(chain[|chain| - 1])) && Acyclic(revisions)
  {
    var head := chain[|chain| - 1];
    assert head in revisions && chain[0] in revisions;
    forall r | r in revisions ensures exists n: nat :: Founded(revisions, r, n) {
      var i :| 0 <= i < |chain| && chain[i] == r;
      FoundedInChain(revisions, chain, i);
    }
    forall p ensures p in Parents(revisions) <==> p in revisions && p != head {
      if p in Parents(revisions) {
        var r :| r in revisions && revisions[r] == Some(p);
        var i :| 0 <= i < |chain| && chain[i] == r;
        assert i > 0 && chain[i - 1] == p;
      }
      if p in revisions && p != head {
        var i :| 0 <= i < |chain| && chain[i] == p;
        assert chain[i + 1] in revisions && revisions[chain[i + 1]] == Some(p);
      }
    }
    assert Heads(revisions) == {head};
  }

  /** Without that hypothesis the check is satisfied by graphs that are no chain: a ring off which the head
      hangs, with no root at all ... */
  lemma RingUnderHeadPasses(a: string, b: string, c: string)
    requires a != b && a != c && b != c
    ensures var revisions: Revisions := map[a := Some(b), b := Some(a), c := Some(a)];
            Passes(revisions, Some(c)) && Roots(revisions) == {} && !Acyclic(revisions) && !Unbranched(revisions)
  {
    var revisions: Revisions := map[a := Some(b), b := Some(a), c := Some(a)];
    assert revisions[a] == Some(b) && revisions[b] == Some(a) && revisions[c] == Some(a);
    assert Parents(revisions) == {a, b};
    assert Heads(revisions) == {c};
    forall n: nat ensures !Founded(revisions, a, n) { RingIsUnfounded(revisions, a, b, n); }
    assert a in revisions;
  }

  /** ... and a ring beside a proper chain. */
  lemma RingBesideChainPasses(a: string, b: string, c: string, d: string)
    requires a != b && a != c && a != d && b != c && b != d && c != d
    ensures var revisions: Revisions := map[a := None, b := Some(a), c := Some(d), d := Some(c)];
            Passes(revisions, Some(b)) && Roots(revisions) == {a} && Unbranched(revisions) && !Acyclic(revisions)
  {
    var revisions: Revisions := map[a := None, b := Some(a), c := Some(d), d := Some(c)];
    assert revisions[a] == None && revisions[b] == Some(a) && revisions[c] == Some(d) && revisions[d] == Some(c);
    assert revisions.Keys == {a, b, c, d};
    assert Parents(revisions) == {a, c, d};
    assert Heads(revisions) == {b};
    forall n: nat ensures !Founded(revisions, c, n) { RingIsUnfounded(revisions, c, d, n); }
    assert c in revisions;
  }

  lemma {:induction false} RingIsUnfounded(revisions: Revisions, a: string, b: string, n: nat)
    requires a in revisions && b in revisions && revisions[a] == Some(b) && revisions[b] == Some(a)
    ensures !Founded(revisions, a, n) && !Founded(revisions, b, n)
  {
    if n > 0 {
      RingIsUnfounded(revisions, a, b, n - 1);
    }
  }
}
