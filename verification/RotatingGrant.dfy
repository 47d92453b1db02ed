/** The grant file of `src/svp_mcp/credential.py`, shared by any number of server processes: every step
    of `access_token` as one atomic action, in every interleaving, with failures and crashes. */
module RotatingGrant {
  import opened Wrappers

  const EXPIRY_SKEW_SECONDS := 60.0

  type Pid = nat

  /** The state file's document; client id and secret are never changed and left out here. */
  datatype Doc = Doc(refresh: string, access: string, expires: real)

  /** A file on disk: created and not yet fully written, or holding a whole document. */
  datatype File = Partial | Whole(doc: Doc)

  /** What the provider granted: RFC 6749, section 6, lets it issue a new refresh token or not. */
  datatype Grant = Grant(access: string, refresh: Option<string>, lifetime: real)

  /** Where a process stands in `access_token`. */
  datatype Pc =
    | Idle
    | Called(rejected: Option<string>)
    | Waiting(rejected: Option<string>)
    | Locked(rejected: Option<string>)
    | Looked(rejected: Option<string>, doc: Doc)
    | Reserved(rejected: Option<string>, doc: Doc)
    | Answered(rejected: Option<string>, doc: Doc, grant: Grant)
    | Written(rejected: Option<string>, doc: Doc, updated: Doc, clock: real)
    | Replaced(rejected: Option<string>, updated: Doc, clock: real)
    | Publishing(rejected: Option<string>, doc: Doc, clock: real)

  datatype Proc = Proc(pc: Pc, token: string, expires: real, temp: Option<File>)

  /** One finished call, with the clock reading its token was judged by. */
  datatype Return = Return(rejected: Option<string>, token: string, expires: real, clock: real)

  datatype State = State(
    file: File,                // the state file
    lock: Option<Pid>,         // who holds the lock file
    procs: map<Pid, Proc>,
    now: real,
    live: string,              // the refresh token the provider accepts
    spent: set<string>,        // refresh tokens it has replaced
    issued: set<string>,       // access tokens that exist
    replayed: bool,            // a spent refresh token has been presented
    lost: bool,                // a rotated token was dropped before it was saved
    replacements: nat,         // how often the state file was replaced
    handed: seq<Return>)

  datatype Action =
    | Call(asked: Option<string>)
    | UseCache
    | MissCache
    | Acquire
    | Read
    | TakeFile
    | Reserve
    | Present(answer: Option<Grant>)
    | Write
    | Replace
    | Unlock
    | Publish
    | Fail
    | Crash

  /** One process acts, or the clock moves. */
  datatype Event = Act(pid: Pid, action: Action) | Tick(time: real)

  predicate Usable(token: string, expires: real, rejected: Option<string>, now: real) {
    token != "" && Some(token) != rejected && expires - now > EXPIRY_SKEW_SECONDS
  }

  /** Inside `with self._exclusive()`. */
  predicate Holds(pc: Pc) {
    pc.Locked? || pc.Looked? || pc.Reserved? || pc.Answered? || pc.Written? || pc.Replaced?
  }

  function Updated(doc: Doc, grant: Grant, now: real): Doc {
    Doc(if grant.refresh.Some? then grant.refresh.value else doc.refresh, grant.access, now + grant.lifetime)
  }

  /** The provider rotated, and the token it now expects is in no file yet. */
  predicate Unsaved(pc: Pc) {
    || (pc.Answered? && pc.grant.refresh.Some? && pc.grant.refresh.value != pc.doc.refresh)
    || (pc.Written? && pc.updated.refresh != pc.doc.refresh)
  }

  /** A new grant: `_grant` lets only non-empty tokens and positive lifetimes through, and the
      provider never repeats itself. */
  predicate NewGrant(s: State, presented: string, g: Grant) {
    && g.access != "" && g.access !in s.issued && g.lifetime > 0.0
    && (g.refresh.Some? ==>
          g.refresh.value != "" && (g.refresh.value == presented || g.refresh.value !in s.spent + {s.live}))
  }

  predicate Enabled(s: State, e: Event) {
    match e
    case Tick(_) => true
    case Act(p, action) =>
      && p in s.procs
      && var me := s.procs[p];
         var pc := me.pc;
         match action
         case Call(asked) => pc.Idle? && (asked.Some? ==> asked.value in s.issued)
         case UseCache => pc.Called? && Usable(me.token, me.expires, pc.rejected, s.now)
         case MissCache => pc.Called? && !Usable(me.token, me.expires, pc.rejected, s.now)
         case Acquire => pc.Waiting? && s.lock.None?
         case Read => pc.Locked? && s.file.Whole?
         case TakeFile => pc.Looked? && Usable(pc.doc.access, pc.doc.expires, pc.rejected, s.now)
         case Reserve => pc.Looked? && !Usable(pc.doc.access, pc.doc.expires, pc.rejected, s.now)
         case Present(answer) =>
           pc.Reserved? && (answer.Some? ==> pc.doc.refresh == s.live && NewGrant(s, pc.doc.refresh, answer.value))
         case Write => pc.Answered?
         case Replace => pc.Written? && me.temp.Some?
         case Unlock => pc.Replaced?
         case Publish => pc.Publishing?
         case Fail => !pc.Idle? && !pc.Publishing?
         case Crash => true
  }

  function Set(s: State, p: Pid, me: Proc): State {
    s.(procs := s.procs[p := me])
  }

  /** An exception, or the end of the process: the lock is free again, a temporary file may stay. */
  function Leave(s: State, p: Pid, me: Proc): State
    requires p in s.procs
  {
    var pc := s.procs[p].pc;
    Set(s, p, me).(lock := if Holds(pc) then None else s.lock, lost := s.lost || Unsaved(pc))
  }

  function Apply(s: State, e: Event): State
    requires Enabled(s, e)
  {
    match e
    case Tick(time) => s.(now := time)
    case Act(p, action) =>
      var me := s.procs[p];
      var pc := me.pc;
      match action
      case Call(asked) => Set(s, p, me.(pc := Called(asked)))
      case UseCache =>
        Set(s, p, me.(pc := Idle)).(handed := s.handed + [Return(pc.rejected, me.token, me.expires, s.now)])
      case MissCache => Set(s, p, me.(pc := Waiting(pc.rejected)))
      case Acquire => Set(s, p, me.(pc := Locked(pc.rejected))).(lock := Some(p))
      case Read => Set(s, p, me.(pc := Looked(pc.rejected, s.file.doc)))
      case TakeFile => Set(s, p, me.(pc := Publishing(pc.rejected, pc.doc, s.now))).(lock := None)
      case Reserve => Set(s, p, me.(pc := Reserved(pc.rejected, pc.doc), temp := Some(Partial)))
      case Present(None) =>
        Leave(s, p, me.(pc := Idle, temp := None)).(replayed := s.replayed || pc.doc.refresh in s.spent)
      case Present(Some(grant)) =>
        var rotated := grant.refresh.Some? && grant.refresh.value != s.live;
        Set(s, p, me.(pc := Answered(pc.rejected, pc.doc, grant))).(
          live := if rotated then grant.refresh.value else s.live,
          spent := if rotated then s.spent + {s.live} else s.spent,
          issued := s.issued + {grant.access},
          replayed := s.replayed || pc.doc.refresh in s.spent)
      case Write =>
        var updated := Updated(pc.doc, pc.grant, s.now);
        Set(s, p, me.(pc := Written(pc.rejected, pc.doc, updated, s.now), temp := Some(Whole(updated))))
      case Replace =>
        Set(s, p, me.(pc := Replaced(pc.rejected, pc.updated, pc.clock), temp := None)).(
          file := me.temp.value, replacements := s.replacements + 1)
      case Unlock => Set(s, p, me.(pc := Publishing(pc.rejected, pc.updated, pc.clock))).(lock := None)
      case Publish =>
        Set(s, p, me.(pc := Idle, token := pc.doc.access, expires := pc.doc.expires)).(
          handed := s.handed + [Return(pc.rejected, pc.doc.access, pc.doc.expires, pc.clock)])
      case Fail => Leave(s, p, me.(pc := Idle, temp := None))
      case Crash => Leave(s, p, Proc(Idle, "", 0.0, me.temp))
  }

  // ---- runs ----

  /** Where a schedule of events leads; None when it asks for a step that is not there to take. */
  function After(s: State, events: seq<Event>): Option<State> {
    if events == [] then Some(s)
    else
      var last := events[|events| - 1];
      match After(s, events[..|events| - 1])
      case None => None
      case Some(before) => if Enabled(before, last) then Some(Apply(before, last)) else None
  }

  predicate Initial(s: State) {
    && s.file.Whole? && s.file.doc.refresh != ""
    && s.lock.None? && s.live == s.file.doc.refresh && s.spent == {}
    && s.issued == {s.file.doc.access}
    && !s.replayed && !s.lost && s.replacements == 0 && s.handed == []
    && forall p | p in s.procs :: s.procs[p] == Proc(Idle, "", 0.0, None)
  }

  // ---- the invariant ----

  /** What one process's program counter says about the shared state. */
  ghost predicate Consistent(s: State, p: Pid) {
    && p in s.procs && s.file.Whole?
    && var me := s.procs[p];
       && (Holds(me.pc) <==> s.lock == Some(p))
       && (me.pc.Looked? || me.pc.Reserved? || me.pc.Answered? || me.pc.Written? ==> me.pc.doc == s.file.doc)
       && (me.pc.Reserved? || me.pc.Answered? ==> me.temp == Some(Partial))
       && (me.pc.Written? ==> me.temp == Some(Whole(me.pc.updated)) && me.pc.updated.refresh != "")
       && (me.pc.Replaced? ==> s.file.doc == me.pc.updated)
       && (me.pc.Answered? ==>
             me.pc.grant.access != "" && (me.pc.grant.refresh.Some? ==> me.pc.grant.refresh.value != ""))
       && (me.pc.Called? || me.pc.Waiting? || Holds(me.pc) ==>
             me.pc.rejected.Some? ==> me.pc.rejected.value in s.issued)
  }

  /** The refresh token that must reach the file: the one held in an unsaved grant, or the file's own. */
  function Expected(s: State): string {
    if s.file.Partial? then ""
    else if s.lock.Some? && s.lock.value in s.procs then
      match s.procs[s.lock.value].pc
      case Answered(_, doc, grant) => Updated(doc, grant, 0.0).refresh
      case Written(_, _, updated, _) => updated.refresh
      case _ => s.file.doc.refresh
    else s.file.doc.refresh
  }

  /** The part that is about the provider and the file. */
  ghost predicate TokensInOrder(s: State) {
    && s.file.Whole? && s.file.doc.refresh != ""
    && (s.lock.Some? ==> s.lock.value in s.procs)
    && s.live !in s.spent
    && (if s.lost then s.file.doc.refresh in s.spent && Expected(s) == s.file.doc.refresh
        else s.live == Expected(s)
             && if InWindow(s) then s.file.doc.refresh in s.spent else s.file.doc.refresh == s.live)
    && (s.replayed ==> s.lost)
  }

  ghost predicate Inv(s: State) {
    TokensInOrder(s) && forall p | p in s.procs :: Consistent(s, p)
  }

  /** Some process holds a rotated token that is not in the file yet. */
  predicate InWindow(s: State) {
    s.lock.Some? && s.lock.value in s.procs && Unsaved(s.procs[s.lock.value].pc)
  }

  lemma InitialInv(s: State)
    requires Initial(s)
    ensures Inv(s)
  {
  }

  /** An event of one process changes no other, and takes no issued token back. */
  lemma OthersUntouched(s: State, e: Event)
    requires Enabled(s, e)
    ensures var s' := Apply(s, e);
            && s'.procs.Keys == s.procs.Keys && s.issued <= s'.issued
            && forall q | q in s.procs && (e.Act? ==> q != e.pid) :: s'.procs[q] == s.procs[q]
  {
  }

  lemma OthersStay(s: State, e: Event, q: Pid)
    requires Inv(s) && Enabled(s, e) && e.Act? && q in s.procs && q != e.pid
    ensures Consistent(Apply(s, e), q)
  {
    assert Consistent(s, q);
    assert Consistent(s, e.pid);
  }

  predicate OutsideTheLock(action: Action) {
    action.Call? || action.UseCache? || action.MissCache? || action.Acquire? || action.Publish?
  }

  lemma OwnOutside(s: State, e: Event)
    requires Inv(s) && Enabled(s, e) && e.Act? && OutsideTheLock(e.action)
    ensures Consistent(Apply(s, e), e.pid)
  {
    assert Consistent(s, e.pid);
  }

  lemma OwnSpending(s: State, e: Event)
    requires Inv(s) && Enabled(s, e) && e.Act? && (e.action.Present? || e.action.Write? || e.action.Replace?)
    ensures Consistent(Apply(s, e), e.pid)
  {
    assert Consistent(s, e.pid);
  }

  lemma OwnInside(s: State, e: Event)
    requires Inv(s) && Enabled(s, e) && e.Act? && !OutsideTheLock(e.action)
    requires !e.action.Present? && !e.action.Write? && !e.action.Replace?
    ensures Consistent(Apply(s, e), e.pid)
  {
    assert Consistent(s, e.pid);
  }

  lemma OwnStep(s: State, e: Event)
    requires Inv(s) && Enabled(s, e) && e.Act?
    ensures Consistent(Apply(s, e), e.pid)
  {
    hide Apply, Enabled, Consistent, TokensInOrder;
    if OutsideTheLock(e.action) {
      OwnOutside(s, e);
    } else if e.action.Present? || e.action.Write? || e.action.Replace? {
      OwnSpending(s, e);
    } else {
      OwnInside(s, e);
    }
  }

  lemma OutsideKeepsTokens(s: State, e: Event)
    requires Inv(s) && Enabled(s, e) && e.Act? && OutsideTheLock(e.action)
    ensures TokensInOrder(Apply(s, e))
  {
    assert Consistent(s, e.pid);
  }

  lemma InsideKeepsTokens(s: State, e: Event)
    requires Inv(s) && Enabled(s, e) && e.Act? && !OutsideTheLock(e.action)
    requires !e.action.Present? && !e.action.Fail? && !e.action.Crash?
    ensures TokensInOrder(Apply(s, e))
  {
    assert Consistent(s, e.pid);
  }

  lemma LeavingKeepsTokens(s: State, e: Event)
    requires Inv(s) && Enabled(s, e) && e.Act? && (e.action.Fail? || e.action.Crash?)
    ensures TokensInOrder(Apply(s, e))
  {
    assert Consistent(s, e.pid);
  }

  lemma PresentKeepsTokens(s: State, e: Event)
    requires Inv(s) && Enabled(s, e) && e.Act? && e.action.Present?
    ensures TokensInOrder(Apply(s, e))
  {
    assert Consistent(s, e.pid);
  }

  /** Every step of every process keeps the invariant. */
  lemma StepKeepsInv(s: State, e: Event)
    requires Inv(s) && Enabled(s, e)
    ensures Inv(Apply(s, e))
  {
    var s' := Apply(s, e);
    if e.Act? {
      OwnStep(s, e);
      if e.action.Present? {
        PresentKeepsTokens(s, e);
      } else if e.action.Fail? || e.action.Crash? {
        LeavingKeepsTokens(s, e);
      } else if OutsideTheLock(e.action) {
        OutsideKeepsTokens(s, e);
      } else {
        InsideKeepsTokens(s, e);
      }
      forall q | q in s'.procs ensures Consistent(s', q) {
        if q != e.pid { OthersStay(s, e, q); }
      }
    } else {
      forall q | q in s.procs ensures Consistent(s', q) {
        assert Consistent(s, q);
      }
    }
  }

  // ---- safety over whole runs ----

  lemma {:induction false} RunKeepsInv(s: State, events: seq<Event>)
    requires Inv(s) && After(s, events).Some?
    ensures Inv(After(s, events).value)
  {
    if events != [] {
      var before := After(s, events[..|events| - 1]).value;
      RunKeepsInv(s, events[..|events| - 1]);
      StepKeepsInv(before, events[|events| - 1]);
    }
  }

  /** Rotating grant safety, in every interleaving of any number of processes with failures and crashes.
      The state file is always one whole document; at most one process is inside the lock; outside the
      window between the provider's rotation and `os.replace`, the file holds the live refresh token
      exactly when no such window was ever broken off; and a spent token is presented only after that. */
  lemma GrantSafety(s0: State, events: seq<Event>)
    requires Initial(s0) && After(s0, events).Some?
    ensures var s := After(s0, events).value;
            && s.file.Whole? && s.file.doc.refresh != ""
            && (forall p, q | p in s.procs && q in s.procs && Holds(s.procs[p].pc) && Holds(s.procs[q].pc) :: p == q)
            && (!InWindow(s) ==> (s.file.doc.refresh == s.live <==> !s.lost))
            && (s.replayed ==> s.lost)
  {
    InitialInv(s0);
    RunKeepsInv(s0, events);
    var s := After(s0, events).value;
    forall p, q | p in s.procs && q in s.procs && Holds(s.procs[p].pc) && Holds(s.procs[q].pc) ensures p == q {
      assert Consistent(s, p) && Consistent(s, q);
    }
  }

  /** A process that holds a rotated token no file holds yet fails or crashes. */
  predicate BreaksOff(s: State, e: Event) {
    e.Act? && (e.action.Fail? || e.action.Crash?) && e.pid in s.procs && Unsaved(s.procs[e.pid].pc)
  }

  /** The window is broken off by one kind of event only ... */
  lemma {:induction false} LostMeansBrokenOff(s0: State, events: seq<Event>) returns (i: nat)
    requires !s0.lost && After(s0, events).Some? && After(s0, events).value.lost
    ensures i < |events| && After(s0, events[..i]).Some? && BreaksOff(After(s0, events[..i]).value, events[i])
  {
    var n := |events| - 1;
    if After(s0, events[..n]).value.lost {
      i := LostMeansBrokenOff(s0, events[..n]);
      assert events[..n][..i] == events[..i];
    } else {
      i := n;
    }
  }

  /** ... and every event of that kind breaks it off for good. */
  lemma {:induction false} BreakingOffLoses(s0: State, events: seq<Event>, i: nat)
    requires After(s0, events).Some? && i < |events| && After(s0, events[..i]).Some?
    requires BreaksOff(After(s0, events[..i]).value, events[i])
    ensures After(s0, events).value.lost
    decreases |events|
  {
    var n := |events| - 1;
    if i < n {
      assert events[..n][..i] == events[..i];
      BreakingOffLoses(s0, events[..n], i);
    }
  }

  /** The grant is lost if and only if somewhere in the run a process in the window failed or crashed. */
  lemma LostIff(s0: State, events: seq<Event>)
    requires !s0.lost && After(s0, events).Some?
    ensures After(s0, events).value.lost <==>
            exists i :: 0 <= i < |events| && After(s0, events[..i]).Some?
                        && BreaksOff(After(s0, events[..i]).value, events[i])
  {
    hide After, BreaksOff;
    if After(s0, events).value.lost {
      var i := LostMeansBrokenOff(s0, events);
    }
    forall i | 0 <= i < |events| && After(s0, events[..i]).Some? && BreaksOff(After(s0, events[..i]).value, events[i])
      ensures After(s0, events).value.lost {
      BreakingOffLoses(s0, events, i);
    }
  }

  /** It can happen wherever a process has reserved its file: the provider rotates, the process crashes, and
      the file is left with a token the provider no longer takes. */
  lemma CrashInWindowLoses(s: State, p: Pid, grant: Grant)
    requires Inv(s) && p in s.procs && s.procs[p].pc.Reserved? && s.procs[p].pc.doc.refresh == s.live
    requires NewGrant(s, s.live, grant) && grant.refresh.Some? && grant.refresh.value != s.live
    ensures var end := After(s, [Act(p, Present(Some(grant))), Act(p, Crash)]);
            && end.Some? && end.value.lost && end.value.file.Whole?
            && end.value.file.doc.refresh in end.value.spent && end.value.live == grant.refresh.value
  {
    var a, b := Act(p, Present(Some(grant))), Act(p, Crash);
    assert Consistent(s, p);
    AfterOne(s, [], a);
    assert [] + [a] == [a];
    AfterOne(s, [a], b);
    assert [a] + [b] == [a, b];
  }

  /** A lost grant stays lost: the provider grants nothing any more, and whoever asks presents a spent
      token. */
  lemma LostGrantIsOver(s: State, e: Event)
    requires Inv(s) && s.lost && Enabled(s, e) && e.Act? && e.action.Present?
    ensures e.action.answer.None? && Apply(s, e).replayed && Apply(s, e).file == s.file
  {
    assert Consistent(s, e.pid);
  }

  // ---- reserve first, spend second ----

  /** No event of this process from here on. */
  predicate Quiet(events: seq<Event>, from: nat, p: Pid) {
    forall j | from <= j < |events| :: !(events[j].Act? && events[j].pid == p)
  }

  /** Nothing this process does from here on presents a refresh token. */
  predicate PresentsNothing(events: seq<Event>, from: nat, p: Pid) {
    forall j | from <= j < |events| :: !(events[j].Act? && events[j].pid == p && events[j].action.Present?)
  }

  /** What the last event of a run did to one process. */
  lemma LastEvent(s0: State, events: seq<Event>, p: Pid)
    requires events != [] && After(s0, events).Some? && p in After(s0, events).value.procs
    ensures var n := |events| - 1;
            var s := After(s0, events[..n]);
            && s.Some? && Enabled(s.value, events[n]) && After(s0, events).value == Apply(s.value, events[n])
            && p in s.value.procs
            && (events[n].Tick? || events[n].pid != p ==> After(s0, events).value.procs[p] == s.value.procs[p])
  {
    hide Apply, Enabled;
    var n := |events| - 1;
    OthersUntouched(After(s0, events[..n]).value, events[n]);
  }

  /** A process has its temporary file reserved because its latest event was a successful reserve. */
  lemma {:induction false} ReservedByReserve(s0: State, events: seq<Event>, p: Pid) returns (i: nat)
    requires Initial(s0) && After(s0, events).Some? && p in After(s0, events).value.procs
    requires After(s0, events).value.procs[p].pc.Reserved?
    ensures i < |events| && events[i] == Act(p, Reserve) && Quiet(events, i + 1, p)
  {
    if events == [] {
      assert false;
    } else {
      var n := |events| - 1;
      LastEvent(s0, events, p);
      if events[n].Act? && events[n].pid == p {
        i := n;
      } else {
        i := ReservedByReserve(s0, events[..n], p);
      }
    }
  }

  /** Reserve first, spend second: in every run, a process presents the refresh token only right after its
      own successful reserve, and with the reserved file still in place. */
  lemma PresentFollowsReserve(s0: State, events: seq<Event>, n: nat) returns (i: nat)
    requires Initial(s0) && n < |events| && events[n].Act? && events[n].action.Present?
    requires After(s0, events[..n + 1]).Some?
    ensures i < n && events[i] == Act(events[n].pid, Reserve) && Quiet(events[..n], i + 1, events[n].pid)
    ensures After(s0, events[..n]).Some? && events[n].pid in After(s0, events[..n]).value.procs
    ensures After(s0, events[..n]).value.procs[events[n].pid].temp == Some(Partial)
  {
    var p := events[n].pid;
    assert events[..n + 1][..n] == events[..n];
    var s := After(s0, events[..n]).value;
    InitialInv(s0);
    RunKeepsInv(s0, events[..n]);
    assert Consistent(s, p);
    i := ReservedByReserve(s0, events[..n], p);
    assert events[..n][i] == events[i];
  }

  /** Before the refresh: looking, waiting, locked, and with or without the reserved file. */
  predicate BeforeSpending(pc: Pc) {
    pc.Called? || pc.Waiting? || pc.Locked? || pc.Looked? || pc.Reserved?
  }

  lemma {:induction false} CallSoFar(s0: State, events: seq<Event>, p: Pid) returns (i: nat)
    requires Initial(s0) && After(s0, events).Some? && p in After(s0, events).value.procs
    requires BeforeSpending(After(s0, events).value.procs[p].pc)
    ensures i < |events| && events[i].Act? && events[i].pid == p && events[i].action.Call?
    ensures PresentsNothing(events, i, p)
  {
    if events == [] {
      assert false;
    } else {
      var n := |events| - 1;
      LastEvent(s0, events, p);
      if events[n].Act? && events[n].pid == p && events[n].action.Call? {
        i := n;
      } else {
        if events[n].Act? && events[n].pid == p {
          StaysBeforeSpending(After(s0, events[..n]).value, events[n]);
        }
        i := CallSoFar(s0, events[..n], p);
      }
    }
  }

  lemma StaysBeforeSpending(s: State, e: Event)
    requires Enabled(s, e) && e.Act? && !e.action.Call? && BeforeSpending(Apply(s, e).procs[e.pid].pc)
    ensures BeforeSpending(s.procs[e.pid].pc) && !e.action.Present?
  {
  }

  /** Failing early spends nothing: a call that fails or crashes while it waits, reads or reserves has presented
      no token since it began, and leaves provider and file as they were. */
  lemma FailingEarlySpendsNothing(s0: State, events: seq<Event>, e: Event) returns (i: nat)
    requires Initial(s0) && After(s0, events).Some? && Enabled(After(s0, events).value, e)
    requires e.Act? && (e.action.Fail? || e.action.Crash?)
    requires BeforeSpending(After(s0, events).value.procs[e.pid].pc)
    ensures i < |events| && events[i].Act? && events[i].pid == e.pid && events[i].action.Call?
    ensures PresentsNothing(events + [e], i, e.pid)
    ensures var s, s' := After(s0, events).value, After(s0, events + [e]);
            s'.Some? && s'.value.live == s.live && s'.value.spent == s.spent && s'.value.file == s.file
            && s'.value.lost == s.lost && s'.value.replayed == s.replayed
  {
    AfterOne(s0, events, e);
    i := CallSoFar(s0, events, e.pid);
  }

  lemma FiveSteps(s0: State, p: Pid)
    requires Initial(s0) && p in s0.procs && s0.file.doc.expires - s0.now <= EXPIRY_SKEW_SECONDS
    ensures var events := [Act(p, Call(None)), Act(p, MissCache), Act(p, Acquire), Act(p, Read), Act(p, Reserve)];
            var s := After(s0, events);
            && s.Some? && p in s.value.procs && s.value.procs[p].pc == Reserved(None, s0.file.doc)
            && s.value.live == s0.file.doc.refresh && s.value.issued == s0.issued
  {
    var a, b, c, d, e := Act(p, Call(None)), Act(p, MissCache), Act(p, Acquire), Act(p, Read), Act(p, Reserve);
    AfterOne(s0, [], a);
    assert [] + [a] == [a];
    AfterOne(s0, [a], b);
    assert [a] + [b] == [a, b];
    AfterOne(s0, [a, b], c);
    assert [a, b] + [c] == [a, b, c];
    AfterOne(s0, [a, b, c], d);
    assert [a, b, c] + [d] == [a, b, c, d];
    AfterOne(s0, [a, b, c, d], e);
    assert [a, b, c, d] + [e] == [a, b, c, d, e];
  }

  /** A call that finds the token in the file expired does get to reserve. */
  lemma ExpiredFileIsReserved(s0: State, p: Pid)
    requires Initial(s0) && p in s0.procs && s0.file.doc.expires - s0.now <= EXPIRY_SKEW_SECONDS
    ensures var events := [Act(p, Call(None)), Act(p, MissCache), Act(p, Acquire), Act(p, Read), Act(p, Reserve)];
            var s := After(s0, events);
            && s.Some? && Inv(s.value) && p in s.value.procs && s.value.procs[p].pc == Reserved(None, s0.file.doc)
            && s.value.live == s0.file.doc.refresh && s.value.issued == s0.issued
  {
    hide After, Initial, Inv;
    FiveSteps(s0, p);
    InitialInv(s0);
    RunKeepsInv(s0, [Act(p, Call(None)), Act(p, MissCache), Act(p, Acquire), Act(p, Read), Act(p, Reserve)]);
  }

  // ---- what a call hands out ----

  /** A token fit to be returned: not the rejected one, and good for the skew at its check. */
  predicate Fit(rejected: Option<string>, token: string, expires: real, clock: real) {
    token != "" && Some(token) != rejected && expires - clock > EXPIRY_SKEW_SECONDS
  }

  predicate IsFit(r: Return) {
    Fit(r.rejected, r.token, r.expires, r.clock)
  }

  /** Whatever its lifetime, not the token that was rejected. */
  predicate IsOther(r: Return) {
    r.token != "" && Some(r.token) != r.rejected
  }

  ghost predicate AllOther(s: State) {
    forall i | 0 <= i < |s.handed| :: IsOther(s.handed[i])
  }

  ghost predicate AllFit(s: State) {
    forall i | 0 <= i < |s.handed| :: IsFit(s.handed[i])
  }

  function OwedAfter(owed: Option<real>, action: Action): Option<real> {
    match action
    case Present(Some(grant)) => Some(grant.lifetime)
    case Write => owed
    case Replace => owed
    case Unlock => owed
    case _ => None
  }

  /** The lifetime of the grant that a process obtained in its current call and has not handed out yet. */
  function Owed(events: seq<Event>, p: Pid): Option<real> {
    if events == [] then None
    else
      var last, before := events[|events| - 1], Owed(events[..|events| - 1], p);
      if last.Act? && last.pid == p then OwedAfter(before, last.action) else before
  }

  /** Some call hands out a grant that did not outlive the skew when it was obtained. */
  predicate HandsOutShort(events: seq<Event>) {
    events != [] &&
    var last, before := events[|events| - 1], events[..|events| - 1];
    || HandsOutShort(before)
    || (&& last.Act? && last.action.Publish? && Owed(before, last.pid).Some?
        && Owed(before, last.pid).value <= EXPIRY_SKEW_SECONDS)
  }

  /** What a process carries towards its return. */
  predicate Carries(pc: Pc, owed: Option<real>) {
    match pc
    case Answered(rejected, _, grant) =>
      owed == Some(grant.lifetime) && grant.access != "" && Some(grant.access) != rejected
    case Written(rejected, _, updated, clock) => CarriesDoc(rejected, updated, clock, owed) && owed.Some?
    case Replaced(rejected, updated, clock) => CarriesDoc(rejected, updated, clock, owed) && owed.Some?
    case Publishing(rejected, doc, clock) => CarriesDoc(rejected, doc, clock, owed)
    case _ => true
  }

  /** A granted token keeps its lifetime from the clock reading on; one from the file was checked. */
  predicate CarriesDoc(rejected: Option<string>, doc: Doc, clock: real, owed: Option<real>) {
    && doc.access != "" && Some(doc.access) != rejected
    && if owed.Some? then doc.expires - clock == owed.value else doc.expires - clock > EXPIRY_SKEW_SECONDS
  }

  lemma CarriesOn(s: State, e: Event, owed: Option<real>)
    requires Inv(s) && Enabled(s, e) && e.Act? && Carries(s.procs[e.pid].pc, owed)
    ensures Carries(Apply(s, e).procs[e.pid].pc, OwedAfter(owed, e.action))
  {
    assert Consistent(s, e.pid);
  }

  /** What one event adds to the record of returns. */
  lemma HandsOver(s: State, e: Event, owed: Option<real>)
    requires Enabled(s, e) && (e.Act? ==> Carries(s.procs[e.pid].pc, owed))
    ensures var before, after := s.handed, Apply(s, e).handed;
            if e.Act? && (e.action.UseCache? || e.action.Publish?) then
              && |after| == |before| + 1 && after == before + [after[|before|]] && IsOther(after[|before|])
              && (IsFit(after[|before|]) <==>
                    !(e.action.Publish? && owed.Some? && owed.value <= EXPIRY_SKEW_SECONDS))
            else after == before
  {
  }

  lemma OneMoreFit(before: seq<Return>, r: Return)
    ensures (forall i | 0 <= i < |before + [r]| :: IsFit((before + [r])[i])) <==>
            (forall i | 0 <= i < |before| :: IsFit(before[i])) && IsFit(r)
  {
    hide IsFit;
    var after := before + [r];
    assert after[|before|] == r;
    assert forall i | 0 <= i < |before| :: after[i] == before[i];
  }

  lemma HandsOut(s: State, e: Event, owed: Option<real>)
    requires Enabled(s, e) && (e.Act? ==> Carries(s.procs[e.pid].pc, owed))
    ensures AllFit(Apply(s, e)) <==>
            AllFit(s) && !(e.Act? && e.action.Publish? && owed.Some? && owed.value <= EXPIRY_SKEW_SECONDS)
    ensures AllOther(s) ==> AllOther(Apply(s, e))
  {
    hide Apply, Enabled, Carries, IsFit, IsOther;
    HandsOver(s, e, owed);
    var before, after := s.handed, Apply(s, e).handed;
    if after != before {
      OneMoreFit(before, after[|before|]);
    }
  }

  lemma {:induction false} RunCarries(s0: State, events: seq<Event>, p: Pid)
    requires Initial(s0) && After(s0, events).Some? && p in After(s0, events).value.procs
    ensures Carries(After(s0, events).value.procs[p].pc, Owed(events, p))
  {
    hide Carries, OwedAfter, Apply, Enabled;
    if events == [] {
      IdleCarries(None);
    } else {
      var n := |events| - 1;
      LastEvent(s0, events, p);
      RunCarries(s0, events[..n], p);
      if events[n].Act? && events[n].pid == p {
        InitialInv(s0);
        RunKeepsInv(s0, events[..n]);
        CarriesOn(After(s0, events[..n]).value, events[n], Owed(events[..n], p));
      }
    }
  }

  lemma IdleCarries(owed: Option<real>)
    ensures Carries(Idle, owed)
  {
  }

  /** Every token that any call of any process returns differs from the one it was told is rejected and
      outlives the skew at the moment it was checked or granted, exactly when no call hands out a grant that
      was shorter than the skew to begin with; the first half always holds. */
  lemma {:induction false} ReturnsAreFitIff(s0: State, events: seq<Event>)
    requires Initial(s0) && After(s0, events).Some?
    ensures AllOther(After(s0, events).value)
    ensures AllFit(After(s0, events).value) <==> !HandsOutShort(events)
  {
    hide Carries, Owed, Apply, Enabled, AllFit, AllOther;
    if events == [] {
      NothingHanded(s0);
    } else {
      var n := |events| - 1;
      var s, e := After(s0, events[..n]).value, events[n];
      ReturnsAreFitIff(s0, events[..n]);
      if e.Act? {
        ActsInside(s, e);
        RunCarries(s0, events[..n], e.pid);
      }
      HandsOut(s, e, if e.Act? then Owed(events[..n], e.pid) else None);
    }
  }

  lemma ActsInside(s: State, e: Event)
    requires Enabled(s, e) && e.Act?
    ensures e.pid in s.procs
  {
  }

  lemma NothingHanded(s: State)
    requires Initial(s)
    ensures AllFit(s) && AllOther(s)
  {
  }

  /** Grants outlive the skew. */
  predicate LongLived(events: seq<Event>) {
    forall i | 0 <= i < |events| ::
      events[i].Act? && events[i].action.Present? && events[i].action.answer.Some? ==>
        events[i].action.answer.value.lifetime > EXPIRY_SKEW_SECONDS
  }

  lemma {:induction false} LongGrantsOwed(events: seq<Event>, p: Pid)
    requires LongLived(events)
    ensures Owed(events, p).Some? ==> Owed(events, p).value > EXPIRY_SKEW_SECONDS
  {
    if events != [] {
      LongGrantsOwed(events[..|events| - 1], p);
    }
  }

  lemma {:induction false} LongGrantsOnly(events: seq<Event>)
    requires LongLived(events)
    ensures !HandsOutShort(events)
  {
    hide Owed;
    if events != [] {
      var n := |events| - 1;
      LongGrantsOnly(events[..n]);
      if events[n].Act? {
        LongGrantsOwed(events[..n], events[n].pid);
      }
    }
  }

  /** In particular, it is so while every grant outlives the skew. */
  lemma ReturnedTokensAreFit(s0: State, events: seq<Event>)
    requires Initial(s0) && After(s0, events).Some? && LongLived(events)
    ensures AllFit(After(s0, events).value)
  {
    hide AllFit, LongLived, HandsOutShort;
    ReturnsAreFitIff(s0, events);
    LongGrantsOnly(events);
  }

  /** The condition can fail: a refreshed token is not looked at again, so a grant shorter than
      the skew is returned although the next check will refuse it at once. */
  lemma ShortGrantIsReturned(s: State, p: Pid, lifetime: real, access: string)
    requires Inv(s) && p in s.procs && s.procs[p].pc.Reserved? && s.procs[p].pc.doc.refresh == s.live
    requires 0.0 < lifetime <= EXPIRY_SKEW_SECONDS && access != "" && access !in s.issued
    ensures var events := [Act(p, Present(Some(Grant(access, None, lifetime)))), Act(p, Write), Act(p, Replace),
                           Act(p, Unlock), Act(p, Publish)];
            var end := After(s, events);
            && end.Some? && |end.value.handed| == |s.handed| + 1
            && var r := end.value.handed[|s.handed|];
               && r.token == access && !Fit(r.rejected, r.token, r.expires, r.clock)
               && !Usable(end.value.procs[p].token, end.value.procs[p].expires, None, end.value.now)
  {
    var a := Act(p, Present(Some(Grant(access, None, lifetime))));
    var b, c, d, e := Act(p, Write), Act(p, Replace), Act(p, Unlock), Act(p, Publish);
    assert Consistent(s, p);
    AfterOne(s, [], a);
    assert [] + [a] == [a];
    AfterOne(s, [a], b);
    assert [a] + [b] == [a, b];
    AfterOne(s, [a, b], c);
    assert [a, b] + [c] == [a, b, c];
    AfterOne(s, [a, b, c], d);
    assert [a, b, c] + [d] == [a, b, c, d];
    AfterOne(s, [a, b, c, d], e);
    assert [a, b, c, d] + [e] == [a, b, c, d, e];
  }

  lemma AfterOne(s: State, events: seq<Event>, e: Event)
    requires After(s, events).Some? && Enabled(After(s, events).value, e)
    ensures After(s, events + [e]) == Some(Apply(After(s, events).value, e))
  {
    assert (events + [e])[..|events|] == events;
  }

  // ---- every token in circulation was issued ----

  ghost predicate KnownAt(s: State, p: Pid) {
    && p in s.procs
    && var me := s.procs[p];
       && (me.token == "" || me.token in s.issued)
       && match me.pc
          case Looked(_, doc) => doc.access in s.issued
          case Reserved(_, doc) => doc.access in s.issued
          case Answered(_, _, grant) => grant.access in s.issued
          case Written(_, _, updated, _) => updated.access in s.issued && me.temp == Some(Whole(updated))
          case Replaced(_, updated, _) => updated.access in s.issued
          case Publishing(_, doc, _) => doc.access in s.issued
          case _ => true
  }

  ghost predicate Known(s: State) {
    && (s.file.Whole? ==> s.file.doc.access in s.issued)
    && (forall p | p in s.procs :: KnownAt(s, p))
    && forall i | 0 <= i < |s.handed| :: s.handed[i].token in s.issued
  }

  lemma SpenderStaysKnown(s: State, e: Event)
    requires Known(s) && Enabled(s, e) && e.Act? && (e.action.Present? || e.action.Write? || e.action.Replace?)
    ensures KnownAt(Apply(s, e), e.pid)
  {
    assert KnownAt(s, e.pid);
  }

  lemma ActorStaysKnown(s: State, e: Event)
    requires Known(s) && Enabled(s, e) && e.Act? && !e.action.Present? && !e.action.Write? && !e.action.Replace?
    ensures KnownAt(Apply(s, e), e.pid)
  {
    assert KnownAt(s, e.pid);
  }

  lemma RecordStaysKnown(s: State, e: Event)
    requires Known(s) && Enabled(s, e)
    ensures var s' := Apply(s, e);
            && s.issued <= s'.issued
            && (s'.file.Whole? ==> s'.file.doc.access in s'.issued)
            && forall i | 0 <= i < |s'.handed| :: s'.handed[i].token in s'.issued
  {
    if e.Act? {
      assert KnownAt(s, e.pid);
    }
  }

  lemma OtherStaysKnown(s: State, e: Event, p: Pid)
    requires Known(s) && Enabled(s, e) && p in s.procs && (e.Act? ==> p != e.pid)
    ensures KnownAt(Apply(s, e), p)
  {
    OthersUntouched(s, e);
    hide Apply, Enabled;
    assert KnownAt(s, p);
  }

  lemma StepKeepsKnown(s: State, e: Event)
    requires Known(s) && Enabled(s, e)
    ensures Known(Apply(s, e))
  {
    hide KnownAt, Apply, Enabled;
    var s' := Apply(s, e);
    OthersUntouched(s, e);
    RecordStaysKnown(s, e);
    if e.Act? {
      if e.action.Present? || e.action.Write? || e.action.Replace? {
        SpenderStaysKnown(s, e);
      } else {
        ActorStaysKnown(s, e);
      }
    }
    forall p | p in s'.procs ensures KnownAt(s', p) {
      if e.Tick? || p != e.pid {
        OtherStaysKnown(s, e, p);
      }
    }
  }

  lemma {:induction false} RunKeepsKnown(s0: State, events: seq<Event>)
    requires Initial(s0) && After(s0, events).Some?
    ensures Known(After(s0, events).value)
  {
    if events != [] {
      RunKeepsKnown(s0, events[..|events| - 1]);
      StepKeepsKnown(After(s0, events[..|events| - 1]).value, events[|events| - 1]);
    }
  }

  // ---- single flight ----

  /** All processes are between calls, and whatever they hold is the token in the file. */
  ghost predicate Shared(s: State) {
    && Inv(s) && s.file.doc.access in s.issued
    && forall p | p in s.procs ::
         s.procs[p].pc.Idle?
         && (|| s.procs[p].token == ""
             || (s.procs[p].token == s.file.doc.access && s.procs[p].expires == s.file.doc.expires))
  }

  predicate Stale(doc: Doc, now: real) {
    doc.expires - now <= EXPIRY_SKEW_SECONDS
  }

  /** Every call of the schedule holds the same token, as expired or as rejected; the clock moves
      forward, up to `end`; and grants last beyond that. */
  predicate SameToken(a: Doc, start: real, end: real, now: real, e: Event) {
    match e
    case Tick(time) => now <= time <= end
    case Act(_, Call(asked)) => asked == Some(a.access) || (asked.None? && Stale(a, now))
    case Act(_, Present(Some(g))) => g.lifetime > end - start + EXPIRY_SKEW_SECONDS
    case _ => true
  }

  predicate AllSameToken(s0: State, events: seq<Event>, end: real)
    requires s0.file.Whole?
  {
    events != [] ==>
      var before := After(s0, events[..|events| - 1]);
      && AllSameToken(s0, events[..|events| - 1], end)
      && before.Some? && SameToken(s0.file.doc, s0.now, end, before.value.now, events[|events| - 1])
  }

  /** One process of the schedule, before the file was replaced (`b` is None) and after (`b` is the
      new document). */
  ghost predicate Flight(a: Doc, start: real, end: real, now: real, b: Option<Doc>, me: Proc) {
    var pc := me.pc;
    && (me.token == "" || (me.token == a.access && me.expires == a.expires)
        || (b.Some? && me.token == b.value.access && me.expires == b.value.expires))
    && (pc.Called? || pc.Waiting? || Holds(pc) || pc.Publishing? ==>
          pc.rejected == Some(a.access) || (pc.rejected.None? && Stale(a, now)))
    && (pc.Looked? ==> pc.doc == if b.Some? then b.value else a)
    && (b.Some? ==> !pc.Reserved? && !pc.Answered? && !pc.Written?)
    && (b.None? ==> !pc.Replaced? && !pc.Publishing?)
    && (pc.Replaced? ==> pc.updated == b.value)
    && (pc.Publishing? ==> pc.doc == b.value)
    && (pc.Answered? ==> pc.grant.access != a.access && pc.grant.access != ""
                         && pc.grant.lifetime > end - start + EXPIRY_SKEW_SECONDS)
    && (pc.Written? ==> Fresh(a, end, pc.updated))
  }

  /** The document of a completed refresh: another token, good throughout. */
  predicate Fresh(a: Doc, end: real, b: Doc) {
    b.access != a.access && b.access != "" && b.expires > end + EXPIRY_SKEW_SECONDS
  }

  ghost predicate OneFlight(s0: State, end: real, s: State)
    requires s0.file.Whole?
  {
    Inv(s) && FileInFlight(s0, end, s) && forall p | p in s.procs :: InFlight(s0, end, s, p)
  }

  /** The new document once the file has been replaced. */
  function NewDoc(s0: State, s: State): Option<Doc>
    requires s.file.Whole?
  {
    if s.replacements == s0.replacements then None else Some(s.file.doc)
  }

  ghost predicate InFlight(s0: State, end: real, s: State, p: Pid) {
    s0.file.Whole? && s.file.Whole? && p in s.procs &&
    Flight(s0.file.doc, s0.now, end, s.now, NewDoc(s0, s), s.procs[p])
  }

  lemma FlightOfSpender(s0: State, end: real, s: State, e: Event)
    requires s0.file.Whole? && s0.now <= end && OneFlight(s0, end, s) && Enabled(s, e) && e.Act?
    requires SameToken(s0.file.doc, s0.now, end, s.now, e)
    requires e.action.Present? || e.action.Write? || e.action.Replace?
    ensures InFlight(s0, end, Apply(s, e), e.pid)
  {
    assert Consistent(s, e.pid);
    assert InFlight(s0, end, s, e.pid);
  }

  predicate IsEarly(action: Action) {
    action.Call? || action.UseCache? || action.MissCache? || action.Acquire? || action.Read? || action.Reserve?
  }

  lemma FlightOfReader(s0: State, end: real, s: State, e: Event)
    requires s0.file.Whole? && s0.now <= end && OneFlight(s0, end, s) && Enabled(s, e) && e.Act?
    requires SameToken(s0.file.doc, s0.now, end, s.now, e) && IsEarly(e.action)
    ensures InFlight(s0, end, Apply(s, e), e.pid)
  {
    assert Consistent(s, e.pid);
    assert InFlight(s0, end, s, e.pid);
  }

  lemma FlightOfLeaver(s0: State, end: real, s: State, e: Event)
    requires s0.file.Whole? && s0.now <= end && OneFlight(s0, end, s) && Enabled(s, e) && e.Act?
    requires SameToken(s0.file.doc, s0.now, end, s.now, e)
    requires e.action.TakeFile? || e.action.Unlock? || e.action.Publish? || e.action.Fail? || e.action.Crash?
    ensures InFlight(s0, end, Apply(s, e), e.pid)
  {
    assert Consistent(s, e.pid);
    assert InFlight(s0, end, s, e.pid);
  }

  lemma FlightOfOther(s0: State, end: real, s: State, e: Event, q: Pid)
    requires s0.file.Whole? && s0.now <= end && OneFlight(s0, end, s) && Enabled(s, e)
    requires SameToken(s0.file.doc, s0.now, end, s.now, e)
    requires q in s.procs && (e.Act? ==> q != e.pid)
    ensures InFlight(s0, end, Apply(s, e), q)
  {
    assert Consistent(s, q);
    assert InFlight(s0, end, s, q);
    if e.Act? {
      assert Consistent(s, e.pid);
      assert InFlight(s0, end, s, e.pid);
    }
  }

  /** The part of `OneFlight` that is about the file and the record of calls. */
  ghost predicate FileInFlight(s0: State, end: real, s: State)
    requires s0.file.Whole?
  {
    && s.file.Whole? && s0.file.doc.access in s.issued && s0.now <= s.now <= end
    && |s0.handed| <= |s.handed|
    && if s.replacements == s0.replacements then s.file == s0.file && |s.handed| == |s0.handed|
       else s.replacements == s0.replacements + 1 && Fresh(s0.file.doc, end, s.file.doc)
            && forall i | |s0.handed| <= i < |s.handed| :: s.handed[i].token == s.file.doc.access
  }

  predicate Reports(e: Event) {
    e.Act? && (e.action.UseCache? || e.action.Publish?)
  }

  lemma FlightOfReport(s0: State, end: real, s: State, e: Event)
    requires s0.file.Whole? && s0.now <= end && OneFlight(s0, end, s) && Enabled(s, e)
    requires SameToken(s0.file.doc, s0.now, end, s.now, e) && Reports(e)
    ensures FileInFlight(s0, end, Apply(s, e))
  {
    assert Consistent(s, e.pid);
    assert InFlight(s0, end, s, e.pid);
  }

  lemma FlightOfFile(s0: State, end: real, s: State, e: Event)
    requires s0.file.Whole? && s0.now <= end && OneFlight(s0, end, s) && Enabled(s, e)
    requires SameToken(s0.file.doc, s0.now, end, s.now, e) && e.Act? && e.action.Replace?
    ensures FileInFlight(s0, end, Apply(s, e))
  {
    assert Consistent(s, e.pid);
    assert InFlight(s0, end, s, e.pid);
  }

  lemma FlightOfRest(s0: State, end: real, s: State, e: Event)
    requires s0.file.Whole? && s0.now <= end && OneFlight(s0, end, s) && Enabled(s, e)
    requires SameToken(s0.file.doc, s0.now, end, s.now, e) && !Reports(e) && (e.Act? ==> !e.action.Replace?)
    ensures FileInFlight(s0, end, Apply(s, e))
  {
    hide Consistent, TokensInOrder, InFlight, Fresh;
    var s' := Apply(s, e);
    assert s'.file == s.file && s'.handed == s.handed && s'.replacements == s.replacements && s.issued <= s'.issued;
  }

  lemma FlightStep(s0: State, end: real, s: State, e: Event)
    requires s0.file.Whole? && s0.now <= end && OneFlight(s0, end, s) && Enabled(s, e)
    requires SameToken(s0.file.doc, s0.now, end, s.now, e)
    ensures OneFlight(s0, end, Apply(s, e))
  {
    hide TokensInOrder, Unsaved, Usable, Inv, Apply, Flight, Enabled, InFlight, FileInFlight;
    var s' := Apply(s, e);
    OthersUntouched(s, e);
    StepKeepsInv(s, e);
    if Reports(e) {
      FlightOfReport(s0, end, s, e);
    } else if e.Act? && e.action.Replace? {
      FlightOfFile(s0, end, s, e);
    } else {
      FlightOfRest(s0, end, s, e);
    }
    forall q | q in s'.procs ensures InFlight(s0, end, s', q) {
      if e.Act? && q == e.pid {
        if IsEarly(e.action) {
          FlightOfReader(s0, end, s, e);
        } else if e.action.Present? || e.action.Write? || e.action.Replace? {
          FlightOfSpender(s0, end, s, e);
        } else {
          FlightOfLeaver(s0, end, s, e);
        }
      } else {
        FlightOfOther(s0, end, s, e, q);
      }
    }
  }

  /** Single flight. However many callers in however many processes hold the same expired or rejected
      token, the state file is replaced at most once; no call returns before that; and every call that
      returns then hands out the one new token. */
  lemma {:induction false} SingleFlight(s0: State, events: seq<Event>, end: real)
    requires Shared(s0) && s0.now <= end && AllSameToken(s0, events, end) && After(s0, events).Some?
    ensures OneFlight(s0, end, After(s0, events).value)
    ensures var s := After(s0, events).value;
            && s0.replacements <= s.replacements <= s0.replacements + 1
            && (|s.handed| > |s0.handed| ==> s.replacements == s0.replacements + 1)
            && forall i | |s0.handed| <= i < |s.handed| ::
                 s.handed[i].token == s.file.doc.access && s.handed[i].token != s0.file.doc.access
  {
    if events != [] {
      var n := |events| - 1;
      SingleFlight(s0, events[..n], end);
      FlightStep(s0, end, After(s0, events[..n]).value, events[n]);
    }
  }
}
