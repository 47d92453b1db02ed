/** `CredentialStore.access_token` in its own order of steps, run against the shared grant while other
    processes take any steps they like between any two of its own. */
module CredentialStore {
  import opened Wrappers
  import opened RotatingGrant

  /** Where the others take the shared state while one process does nothing. */
  function Others(s: State, me: Pid, events: seq<Event>): State {
    if events == [] then s
    else
      var before, e := Others(s, me, events[..|events| - 1]), events[|events| - 1];
      if (e.Tick? || e.pid != me) && Enabled(before, e) then Apply(before, e) else before
  }

  function Waited(s: State, me: Pid, waits: seq<seq<Event>>): State {
    if waits == [] then s else Others(Waited(s, me, waits[..|waits| - 1]), me, waits[|waits| - 1])
  }

  /** The shared state was this one at some moment of a run from its `from`-th event on. */
  ghost predicate Seen(start: State, trace: seq<Event>, from: nat, s: State) {
    exists k | from <= k <= |trace| :: After(start, trace[..k]) == Some(s)
  }

  lemma SeenStays(start: State, was: seq<Event>, now: seq<Event>, from: nat, s: State)
    requires Seen(start, was, from, s) && was <= now
    ensures Seen(start, now, from, s)
  {
    hide After;
    var k :| from <= k <= |was| && After(start, was[..k]) == Some(s);
    assert now[..k] == was[..k];
  }

  lemma SeenSooner(start: State, trace: seq<Event>, from: nat, sooner: nat, s: State)
    requires Seen(start, trace, from, s) && sooner <= from
    ensures Seen(start, trace, sooner, s)
  {
  }

  lemma SeenNow(start: State, trace: seq<Event>, from: nat, s: State)
    requires After(start, trace) == Some(s) && from <= |trace|
    ensures Seen(start, trace, from, s)
  {
    assert trace[..|trace|] == trace;
  }

  /** A token that may be handed out: there, not the rejected one, and good for more than a minute. */
  predicate Good(token: string, expires: real, rejected: Option<string>, now: real) {
    token != "" && rejected != Some(token) && expires - now > 60.0
  }

  /** What became of the file once it was judged: left alone while its token was good, and otherwise replaced
      by the grant. */
  predicate Judged(s: State, rejected: Option<string>, answer: Option<Grant>, doc: Doc) {
    && s.file.Whole?
    && if Good(s.file.doc.access, s.file.doc.expires, rejected, s.now) then doc == s.file.doc
       else answer.Some? && IsGranted(s.file.doc, answer.value, doc)
  }

  /** The document that a grant makes of the one before, up to when the token expires. */
  predicate IsGranted(before: Doc, grant: Grant, after: Doc) {
    && after.access == grant.access
    && after.refresh == if grant.refresh.Some? then grant.refresh.value else before.refresh
  }

  /** No refresh came of this: the provider answered with no new grant, or the file's token was not live. */
  predicate NotGranted(s: State, answer: Option<Grant>) {
    answer.None? || (s.file.Whole? && s.file.doc.refresh != s.live) || !NewGrant(s, s.live, answer.value)
  }

  /** Disk, lock file, provider and clock, with everything that has happened to them. */
  class Machine {
    var state: State
    ghost const start: State
    ghost var trace: seq<Event>

    ghost predicate Valid()
      reads this
    {
      Initial(start) && After(start, trace) == Some(state)
    }

    constructor (s: State)
      requires Initial(s)
      ensures Valid() && state == s && trace == []
    {
      state, start, trace := s, s, [];
    }

    /** One atomic step of some process. */
    method Do(e: Event)
      requires Valid() && Enabled(state, e)
      modifies this
      ensures Valid() && state == Apply(old(state), e) && trace == old(trace) + [e]
    {
      AfterOne(start, trace, e);
      state := Apply(state, e);
      trace := trace + [e];
    }

    /** Whatever part of `others` can happen without process `me` happens. */
    method Interfere(me: Pid, others: seq<Event>)
      requires Valid() && me in state.procs
      modifies this
      ensures Valid() && me in state.procs && state.procs[me] == old(state.procs[me])
      ensures state == Others(old(state), me, others)
      ensures old(trace) <= trace && old(state.handed) <= state.handed && old(state.issued) <= state.issued
    {
      hide Initial, After, NewGrant, Usable, Unsaved;
      for i := 0 to |others|
        invariant Valid() && me in state.procs && state.procs[me] == old(state.procs[me])
        invariant state == Others(old(state), me, others[..i])
        invariant old(trace) <= trace && old(state.handed) <= state.handed && old(state.issued) <= state.issued
      {
        var e := others[i];
        assert others[..i + 1][..i] == others[..i];
        if (e.Tick? || e.pid != me) && Enabled(state, e) {
          Do(e);
        }
      }
      assert others[..|others|] == others;
    }

    lemma Invariant()
      requires Valid()
      ensures Inv(state) && Known(state) && AllOther(state) && (LongLived(trace) ==> AllFit(state))
    {
      RunKeepsKnown(start, trace);
      InitialInv(start);
      RunKeepsInv(start, trace);
      ReturnsAreFitIff(start, trace);
      if LongLived(trace) {
        ReturnedTokensAreFit(start, trace);
      }
    }
  }

  /** Which of the call's own steps fail, what the provider answers, who runs in between, and who runs
      while the call waits for the lock. */
  datatype Env = Env(
    lockOpens: bool, readable: bool, reserves: bool, answer: Option<Grant>, saves: bool, swaps: bool,
    synced: bool, others: seq<seq<Event>>, waits: seq<seq<Event>>)
  {
    function Between(i: nat): seq<Event> {
      if i < |others| then others[i] else []
    }

    /** The steps behind the reserved file, if it comes to a refresh. */
    predicate CanSave() {
      reserves && saves && swaps && synced
    }
  }

  datatype Error = CredentialInvalid | RefreshFailed

  /** How far a call has come by the end of a schedule; `Blocked` is still inside `flock`. */
  datatype Outcome<T> = Returned(value: T) | Raised(error: Error) | Blocked

  class CredentialStore {
    const machine: Machine
    const pid: Pid
    var token: string
    var expiresAt: real

    /** Between calls: the cache is what the machine knows this process to hold. */
    ghost predicate Valid()
      reads this, machine
    {
      machine.Valid() && pid in machine.state.procs && machine.state.procs[pid] == Proc(Idle, token, expiresAt, Temp())
    }

    ghost function Temp(): Option<File>
      reads machine
    {
      if pid in machine.state.procs then machine.state.procs[pid].temp else None
    }

    /** Inside a call, with the cache untouched so far. */
    ghost predicate At(pc: Pc)
      reads this, machine
    {
      machine.Valid() && pid in machine.state.procs && machine.state.procs[pid] == Proc(pc, token, expiresAt, Temp())
    }

    constructor (machine: Machine, pid: Pid)
      requires machine.Valid() && pid in machine.state.procs
      requires var me := machine.state.procs[pid]; me.pc.Idle? && me.token == "" && me.expires == 0.0
      ensures Valid() && this.machine == machine && this.pid == pid
    {
      this.machine, this.pid := machine, pid;
      token, expiresAt := "", 0.0;
    }

    method Fail(ghost pc: Pc)
      requires At(pc) && !pc.Idle? && !pc.Publishing?
      modifies machine
      ensures Valid() && old(machine.trace) <= machine.trace && machine.state.handed == old(machine.state.handed)
      ensures machine.state == Apply(old(machine.state), Act(pid, RotatingGrant.Fail))
    {
      machine.Do(Act(pid, RotatingGrant.Fail));
    }

    /** `_refreshed`: reserve a temporary file, spend the refresh token, then save what came back. */
    method Refreshed(rejected: Option<string>, doc: Doc, env: Env) returns (r: Result<Doc, Error>)
      requires At(Looked(rejected, doc)) && !Usable(doc.access, doc.expires, rejected, machine.state.now)
      modifies machine
      ensures old(machine.trace) <= machine.trace && old(machine.state.handed) <= machine.state.handed
      ensures r.Success? ==> exists clock :: At(Publishing(rejected, r.value, clock))
      ensures r.Failure? ==> Valid()
      ensures r == Failure(CredentialInvalid) ==> !env.CanSave()
      ensures r == Failure(RefreshFailed) ==> Unanswered(machine.trace, |old(machine.trace)|, env.answer)
      ensures r.Success? ==> Holding(r.value) && env.answer.Some? && IsGranted(doc, env.answer.value, r.value)
      ensures r.Success? ==> WrittenAt(machine.trace, |old(machine.trace)|, env.answer.value, r.value)
    {
      hide Initial, After, Inv, Known, AllFit, AllOther, LongLived, Usable, Seen, NewGrant, NotGranted, IsGranted;
      if !env.reserves {
        Fail(Looked(rejected, doc));
        return Failure(CredentialInvalid);
      }
      machine.Do(Act(pid, Reserve));
      ghost var from := |machine.trace|;
      var granted := Ask(rejected, doc, env);
      if !granted {
        UnansweredSooner(machine.trace, from, |old(machine.trace)|, env.answer);
        return Failure(RefreshFailed);
      }
      from := |machine.trace|;
      r := Saved(rejected, doc, env.answer.value, env);
      if r.Success? {
        WrittenSooner(machine.trace, from, |old(machine.trace)|, env.answer.value, r.value);
      }
    }

    /** `oauth.refresh`: the provider grants a new token for the live one, if it answers at all. */
    method Ask(rejected: Option<string>, doc: Doc, env: Env) returns (granted: bool)
      requires At(Reserved(rejected, doc))
      modifies machine
      ensures old(machine.trace) <= machine.trace && old(machine.state.handed) <= machine.state.handed
      ensures granted ==> env.answer.Some? && At(Answered(rejected, doc, env.answer.value))
      ensures !granted ==> Valid() && Unanswered(machine.trace, |old(machine.trace)|, env.answer)
    {
      hide Initial, After, Inv, Known, AllFit, AllOther, LongLived, Usable, Seen, NewGrant;
      machine.Interfere(pid, env.Between(4));
      ghost var before, from, s := machine.trace, |old(machine.trace)|, machine.state;
      ReservedFile(rejected, doc, from);
      granted := env.answer.Some? && doc.refresh == machine.state.live
                 && NewGrant(machine.state, doc.refresh, env.answer.value);
      if granted {
        machine.Do(Act(pid, Present(Some(env.answer.value))));
      } else {
        machine.Do(Act(pid, Present(None)));
        SeenStays(machine.start, before, machine.trace, from, s);
      }
    }

    lemma WrittenSooner(trace: seq<Event>, from: nat, sooner: nat, grant: Grant, doc: Doc)
      requires WrittenAt(trace, from, grant, doc) && sooner <= from
      ensures WrittenAt(trace, sooner, grant, doc)
    {
      hide Seen;
      var s :| Seen(machine.start, trace, from, s)
               && pid in s.procs && s.procs[pid].pc.Answered? && doc.expires == s.now + grant.lifetime;
      SeenSooner(machine.start, trace, from, sooner, s);
    }

    /** A refresh token was presented, and no grant came back. */
    ghost predicate Unanswered(trace: seq<Event>, from: nat, answer: Option<Grant>) {
      exists s | Seen(machine.start, trace, from, s) ::
        pid in s.procs && s.procs[pid].pc.Reserved? && NotGranted(s, answer)
    }

    /** The grant was written down at some moment, from which it is good for its lifetime. */
    ghost predicate WrittenAt(trace: seq<Event>, from: nat, grant: Grant, doc: Doc) {
      exists s | Seen(machine.start, trace, from, s) ::
        pid in s.procs && s.procs[pid].pc.Answered? && doc.expires == s.now + grant.lifetime
    }

    /** The state file holds this document. */
    ghost predicate Holding(doc: Doc)
      reads machine
    {
      machine.state.file == Whole(doc)
    }

    lemma UnansweredSooner(trace: seq<Event>, from: nat, sooner: nat, answer: Option<Grant>)
      requires Unanswered(trace, from, answer) && sooner <= from
      ensures Unanswered(trace, sooner, answer)
    {
      hide Seen, NotGranted;
      var s :| Seen(machine.start, trace, from, s)
               && pid in s.procs && s.procs[pid].pc.Reserved? && NotGranted(s, answer);
      SeenSooner(machine.start, trace, from, sooner, s);
    }

    lemma ReservedFile(rejected: Option<string>, doc: Doc, from: nat)
      requires At(Reserved(rejected, doc)) && from <= |machine.trace|
      ensures machine.state.file == Whole(doc)
      ensures Seen(machine.start, machine.trace, from, machine.state)
    {
      hide After;
      machine.Invariant();
      assert Consistent(machine.state, pid);
      SeenNow(machine.start, machine.trace, from, machine.state);
    }

    lemma ReplacedFile(rejected: Option<string>, doc: Doc, clock: real)
      requires At(Replaced(rejected, doc, clock))
      ensures machine.state.file == Whole(doc)
    {
      machine.Invariant();
      assert Consistent(machine.state, pid);
    }

    lemma LookedFile(rejected: Option<string>, doc: Doc, from: nat)
      requires At(Looked(rejected, doc)) && from <= |machine.trace|
      ensures machine.state.file == Whole(doc)
      ensures Seen(machine.start, machine.trace, from, machine.state)
    {
      hide After;
      machine.Invariant();
      assert Consistent(machine.state, pid);
      SeenNow(machine.start, machine.trace, from, machine.state);
    }

    /** The second half of `_refreshed`: write the temporary file, replace the state file, sync. */
    method Saved(rejected: Option<string>, doc: Doc, grant: Grant, env: Env) returns (r: Result<Doc, Error>)
      requires At(Answered(rejected, doc, grant))
      modifies machine
      ensures old(machine.trace) <= machine.trace && old(machine.state.handed) <= machine.state.handed
      ensures r.Success? ==> exists clock :: At(Publishing(rejected, r.value, clock))
      ensures r.Failure? ==> Valid() && r.error == CredentialInvalid && !(env.saves && env.swaps && env.synced)
      ensures r.Success? ==> Holding(r.value) && IsGranted(doc, grant, r.value)
      ensures r.Success? ==> WrittenAt(machine.trace, |old(machine.trace)|, grant, r.value)
    {
      hide Initial, After, Inv, Known, AllFit, AllOther, LongLived, NewGrant, Usable, Seen;
      machine.Interfere(pid, env.Between(5));
      if !env.saves {
        Fail(Answered(rejected, doc, grant));
        return Failure(CredentialInvalid);
      }
      var clock := machine.state.now;
      var updated := Updated(doc, grant, clock);
      ghost var from, before, s := |old(machine.trace)|, machine.trace, machine.state;
      SeenNow(machine.start, before, from, s);
      machine.Do(Act(pid, Write));
      r := Swapped(rejected, doc, updated, clock, env);
      SeenStays(machine.start, before, machine.trace, from, s);
    }

    /** `os.replace` and the directory sync. */
    method Swapped(rejected: Option<string>, doc: Doc, updated: Doc, clock: real, env: Env)
      returns (r: Result<Doc, Error>)
      requires At(Written(rejected, doc, updated, clock)) && machine.state.procs[pid].temp.Some?
      modifies machine
      ensures old(machine.trace) <= machine.trace && old(machine.state.handed) <= machine.state.handed
      ensures r.Success? ==> exists clock :: At(Publishing(rejected, r.value, clock))
      ensures r.Failure? ==> Valid() && r.error == CredentialInvalid && !(env.swaps && env.synced)
      ensures r.Success? ==> Holding(r.value) && r.value == updated
    {
      hide Initial, After, Inv, Known, AllFit, AllOther, LongLived, NewGrant, Usable;
      machine.Interfere(pid, env.Between(6));
      if !env.swaps {
        Fail(Written(rejected, doc, updated, clock));
        return Failure(CredentialInvalid);
      }
      machine.Do(Act(pid, Replace));
      machine.Interfere(pid, env.Between(7));
      if !env.synced {
        Fail(Replaced(rejected, updated, clock));
        return Failure(CredentialInvalid);
      }
      ReplacedFile(rejected, updated, clock);
      machine.Do(Act(pid, Unlock));
      assert At(Publishing(rejected, updated, clock));
      r := Success(updated);
    }

    /** The locked section: take the token in the file, or refresh it. */
    method FromFile(rejected: Option<string>, env: Env) returns (r: Outcome<Doc>)
      requires At(Waiting(rejected))
      modifies machine
      ensures old(machine.trace) <= machine.trace && old(machine.state.handed) <= machine.state.handed
      ensures r.Returned? ==> exists clock :: At(Publishing(rejected, r.value, clock))
      ensures r.Raised? ==> Valid()
      ensures r.Blocked? ==> At(Waiting(rejected)) && HeldByAnother()
      ensures r.Blocked? ==> machine.state == Waited(old(machine.state), pid, env.waits)
      ensures r == Raised(CredentialInvalid) ==> !env.lockOpens || !env.readable || !env.CanSave()
      ensures r == Raised(RefreshFailed) ==> Unanswered(machine.trace, |old(machine.trace)|, env.answer)
      ensures r.Returned? ==>
                Holding(r.value) && JudgedSince(machine.trace, |old(machine.trace)|, rejected, env.answer, r.value)
    {
      if !env.lockOpens {
        Fail(Waiting(rejected));
        return Raised(CredentialInvalid);
      }
      WaitForLock(rejected, env);
      if machine.state.lock.Some? {
        NotOurs(rejected);
        return Blocked;
      }
      machine.Do(Act(pid, Acquire));
      ghost var from := |machine.trace|;
      var doc := UnderLock(rejected, env);
      r := if doc.Success? then Returned(doc.value) else Raised(doc.error);
      if doc == Failure(RefreshFailed) {
        UnansweredSooner(machine.trace, from, |old(machine.trace)|, env.answer);
      }
      if doc.Success? {
        JudgedSooner(machine.trace, from, |old(machine.trace)|, rejected, env.answer, doc.value);
      }
    }

    lemma JudgedSooner(trace: seq<Event>, from: nat, sooner: nat, rejected: Option<string>, answer: Option<Grant>,
                       doc: Doc)
      requires JudgedSince(trace, from, rejected, answer, doc) && sooner <= from
      ensures JudgedSince(trace, sooner, rejected, answer, doc)
    {
      hide Seen, Judged, WrittenAt;
      var s :| Seen(machine.start, trace, from, s)
               && pid in s.procs && s.procs[pid].pc.Looked? && Judged(s, rejected, answer, doc)
               && (s.file != Whole(doc) && answer.Some? ==> WrittenAt(trace, from, answer.value, doc));
      SeenSooner(machine.start, trace, from, sooner, s);
      if s.file != Whole(doc) && answer.Some? {
        WrittenSooner(trace, from, sooner, answer.value, doc);
      }
    }

    /** The file was judged at some moment of this call. */
    ghost predicate JudgedSince(trace: seq<Event>, from: nat, rejected: Option<string>, answer: Option<Grant>,
                                doc: Doc)
    {
      exists s | Seen(machine.start, trace, from, s) ::
        && pid in s.procs && s.procs[pid].pc.Looked? && Judged(s, rejected, answer, doc)
        && (s.file != Whole(doc) && answer.Some? ==> WrittenAt(trace, from, answer.value, doc))
    }

    /** `flock`: the others run on until the lock is free, or the schedule ends. */
    method WaitForLock(rejected: Option<string>, env: Env)
      requires At(Waiting(rejected))
      modifies machine
      ensures At(Waiting(rejected))
      ensures old(machine.trace) <= machine.trace && old(machine.state.handed) <= machine.state.handed
      ensures machine.state.lock.Some? ==> machine.state == Waited(old(machine.state), pid, env.waits)
    {
      var i := 0;
      while i < |env.waits| && machine.state.lock.Some?
        invariant At(Waiting(rejected)) && 0 <= i <= |env.waits|
        invariant machine.state == Waited(old(machine.state), pid, env.waits[..i])
        invariant old(machine.trace) <= machine.trace && old(machine.state.handed) <= machine.state.handed
      {
        machine.Interfere(pid, env.waits[i]);
        assert env.waits[..i + 1][..i] == env.waits[..i];
        i := i + 1;
      }
      assert env.waits[..|env.waits|] == env.waits;
    }

    ghost predicate HeldByAnother()
      reads machine
    {
      machine.state.lock.Some? && machine.state.lock.value in machine.state.procs && machine.state.lock != Some(pid)
    }

    lemma NotOurs(rejected: Option<string>)
      requires At(Waiting(rejected)) && machine.state.lock.Some?
      ensures HeldByAnother()
    {
      machine.Invariant();
      assert Consistent(machine.state, pid);
    }

    /** The body of `with self._exclusive()`. */
    method UnderLock(rejected: Option<string>, env: Env) returns (r: Result<Doc, Error>)
      requires At(Locked(rejected))
      modifies machine
      ensures old(machine.trace) <= machine.trace && old(machine.state.handed) <= machine.state.handed
      ensures r.Success? ==> exists clock :: At(Publishing(rejected, r.value, clock))
      ensures r.Failure? ==> Valid()
      ensures r == Failure(CredentialInvalid) ==> !env.readable || !env.CanSave()
      ensures r == Failure(RefreshFailed) ==> Unanswered(machine.trace, |old(machine.trace)|, env.answer)
      ensures r.Success? ==>
                Holding(r.value) && JudgedSince(machine.trace, |old(machine.trace)|, rejected, env.answer, r.value)
    {
      hide Initial, After, Known, AllFit, AllOther, LongLived, NewGrant, Updated, Unsaved, Seen, Judged, NotGranted;
      machine.Interfere(pid, env.Between(2));
      if !env.readable {
        Fail(Locked(rejected));
        return Failure(CredentialInvalid);
      }
      machine.Invariant();
      machine.Do(Act(pid, Read));
      machine.Interfere(pid, env.Between(3));
      ghost var before := |machine.trace|;
      r := Decide(rejected, machine.state.procs[pid].pc.doc, env);
      if r == Failure(RefreshFailed) {
        UnansweredSooner(machine.trace, before, |old(machine.trace)|, env.answer);
      }
      if r.Success? {
        JudgedSooner(machine.trace, before, |old(machine.trace)|, rejected, env.answer, r.value);
      }
    }

    /** With the file read: its token, or a refreshed one. */
    method Decide(rejected: Option<string>, doc: Doc, env: Env) returns (r: Result<Doc, Error>)
      requires At(Looked(rejected, doc))
      modifies machine
      ensures old(machine.trace) <= machine.trace && old(machine.state.handed) <= machine.state.handed
      ensures r.Success? ==> exists clock :: At(Publishing(rejected, r.value, clock))
      ensures r.Failure? ==> Valid()
      ensures r == Failure(CredentialInvalid) ==> !env.CanSave()
      ensures r == Failure(RefreshFailed) ==> Unanswered(machine.trace, |old(machine.trace)|, env.answer)
      ensures r.Success? ==>
                Holding(r.value) && JudgedSince(machine.trace, |old(machine.trace)|, rejected, env.answer, r.value)
    {
      hide Initial, After, Known, AllFit, AllOther, LongLived, NewGrant, Updated, Unsaved, Seen, IsGranted, NotGranted;
      ghost var from, before, s := |old(machine.trace)|, machine.trace, machine.state;
      LookedFile(rejected, doc, from);
      if Usable(doc.access, doc.expires, rejected, machine.state.now) {
        ghost var clock := machine.state.now;
        machine.Do(Act(pid, TakeFile));
        assert At(Publishing(rejected, doc, clock));
        r := Success(doc);
      } else {
        r := Refreshed(rejected, doc, env);
      }
      SeenStays(machine.start, before, machine.trace, from, s);
    }

    /** The call just finished returned the cached token, which is on record, is not the rejected one and,
        as long as grants outlive the skew, was good for the skew when checked or granted. */
    ghost predicate JustReturned(rejected: Option<string>)
      reads this, machine
    {
      && Valid() && token in machine.state.issued && token != "" && Some(token) != rejected
      && (LongLived(machine.trace) ==>
            exists clock :: Fit(rejected, token, expiresAt, clock)
                            && Return(rejected, token, expiresAt, clock) in machine.state.handed)
    }

    /** After the lock is released: fill the cache and return. */
    method Finish(rejected: Option<string>, doc: Doc, env: Env)
      requires exists clock :: At(Publishing(rejected, doc, clock))
      modifies this, machine
      ensures JustReturned(rejected) && token == doc.access && expiresAt == doc.expires
      ensures old(machine.trace) <= machine.trace && old(machine.state.handed) <= machine.state.handed
    {
      hide Initial, After, Inv, Known, AllFit, AllOther, LongLived;
      ghost var clock :| At(Publishing(rejected, doc, clock));
      machine.Interfere(pid, env.Between(8));
      machine.Do(Act(pid, Publish));
      token, expiresAt := doc.access, doc.expires;
      Recorded(rejected, clock);
    }

    /** The first look, before any lock file: the cached token if it will do. */
    method FromCache(rejected: Option<string>, env: Env) returns (hit: bool)
      requires Valid() && (rejected.Some? ==> rejected.value in machine.state.issued)
      modifies machine
      ensures hit ==> JustReturned(rejected)
      ensures !hit ==> At(Waiting(rejected))
      ensures old(machine.trace) <= machine.trace && old(machine.state.handed) <= machine.state.handed
      ensures LookedUp(machine.trace, |old(machine.trace)|, rejected, token, expiresAt, hit)
    {
      hide Initial, After, Inv, Known, AllFit, AllOther, LongLived, Seen;
      machine.Do(Act(pid, Call(rejected)));
      machine.Interfere(pid, env.Between(0));
      ghost var before, from, s := machine.trace, |old(machine.trace)|, machine.state;
      SeenNow(machine.start, before, from, s) by { machine.Invariant(); }
      hit := Usable(token, expiresAt, rejected, machine.state.now);
      if hit {
        ghost var clock := machine.state.now;
        machine.Do(Act(pid, UseCache));
        Recorded(rejected, clock);
      } else {
        machine.Do(Act(pid, MissCache));
      }
      SeenStays(machine.start, before, machine.trace, from, s);
    }

    /** The cached token was looked at in the course of this call, and found good or not. */
    ghost predicate LookedUp(trace: seq<Event>, from: nat, rejected: Option<string>, cached: string, until: real,
                             hit: bool) {
      exists s | Seen(machine.start, trace, from, s) ::
        pid in s.procs && s.procs[pid].pc == Called(rejected) && hit == Good(cached, until, rejected, s.now)
    }

    /** The state file held this document in the course of this call. */
    ghost predicate HeldSince(trace: seq<Event>, from: nat, doc: Doc) {
      exists s | Seen(machine.start, trace, from, s) :: s.file == Whole(doc)
    }

    /** The token now cached is that of the file, which held it after it had been judged. */
    ghost predicate TakenFromFile(trace: seq<Event>, from: nat, rejected: Option<string>, answer: Option<Grant>)
      reads this
    {
      exists doc | JudgedSince(trace, from, rejected, answer, doc) ::
        token == doc.access && expiresAt == doc.expires && HeldSince(trace, from, doc)
    }

    lemma LookedUpStays(was: seq<Event>, now: seq<Event>, from: nat, rejected: Option<string>, cached: string,
                        until: real, hit: bool)
      requires LookedUp(was, from, rejected, cached, until, hit) && was <= now
      ensures LookedUp(now, from, rejected, cached, until, hit)
    {
      hide Seen;
      var s :| Seen(machine.start, was, from, s) && pid in s.procs && s.procs[pid].pc == Called(rejected)
               && hit == Good(cached, until, rejected, s.now);
      SeenStays(machine.start, was, now, from, s);
    }

    lemma SinceStays(was: seq<Event>, now: seq<Event>, from: nat, rejected: Option<string>, answer: Option<Grant>,
                     doc: Doc)
      requires JudgedSince(was, from, rejected, answer, doc) && HeldSince(was, from, doc) && was <= now
      ensures JudgedSince(now, from, rejected, answer, doc) && HeldSince(now, from, doc)
    {
      hide Seen, Judged, WrittenAt;
      var s :| Seen(machine.start, was, from, s) && s.file == Whole(doc);
      SeenStays(machine.start, was, now, from, s);
      var t :| Seen(machine.start, was, from, t) && pid in t.procs && t.procs[pid].pc.Looked?
               && Judged(t, rejected, answer, doc)
               && (t.file != Whole(doc) && answer.Some? ==> WrittenAt(was, from, answer.value, doc));
      SeenStays(machine.start, was, now, from, t);
      if t.file != Whole(doc) && answer.Some? {
        WrittenStays(was, now, from, answer.value, doc);
      }
    }

    lemma WrittenStays(was: seq<Event>, now: seq<Event>, from: nat, grant: Grant, doc: Doc)
      requires WrittenAt(was, from, grant, doc) && was <= now
      ensures WrittenAt(now, from, grant, doc)
    {
      hide Seen;
      var s :| Seen(machine.start, was, from, s)
               && pid in s.procs && s.procs[pid].pc.Answered? && doc.expires == s.now + grant.lifetime;
      SeenStays(machine.start, was, now, from, s);
    }

    lemma HoldingSeen(from: nat, doc: Doc)
      requires machine.Valid() && Holding(doc) && from <= |machine.trace|
      ensures HeldSince(machine.trace, from, doc)
    {
      hide After;
      SeenNow(machine.start, machine.trace, from, machine.state);
    }

    /** `access_token`. Whatever the other processes do meanwhile, a call that raises leaves the cache as
        it was, and a call that returns hands out its cached token under the promise above; it is stuck
        only while another process holds the lock. */
    method AccessToken(rejected: Option<string>, env: Env) returns (r: Outcome<string>)
      requires Valid() && (rejected.Some? ==> rejected.value in machine.state.issued)
      modifies this, machine
      ensures old(machine.trace) <= machine.trace && old(machine.state.handed) <= machine.state.handed
      ensures !r.Returned? ==> token == old(token) && expiresAt == old(expiresAt)
      ensures r.Returned? ==> r.value == token && JustReturned(rejected)
      ensures r.Raised? ==> Valid()
      ensures r.Blocked? ==> At(Waiting(rejected)) && HeldByAnother()
      ensures r == Raised(CredentialInvalid) ==> !env.lockOpens || !env.readable || !env.CanSave()
      ensures r == Raised(RefreshFailed) ==> Unanswered(machine.trace, |old(machine.trace)|, env.answer)
      ensures exists hit :: LookedUp(machine.trace, |old(machine.trace)|, rejected, old(token), old(expiresAt), hit)
                            && if hit then r == Returned(old(token)) && expiresAt == old(expiresAt)
                               else r.Returned? ==>
                                      TakenFromFile(machine.trace, |old(machine.trace)|, rejected, env.answer)
    {
      hide Initial, After, Inv, Known, AllFit, AllOther, LongLived, Seen;
      ghost var from := |old(machine.trace)|;
      var hit := FromCache(rejected, env);
      if hit {
        return Returned(token);
      }
      ghost var before, looked := |machine.trace|, machine.trace;
      machine.Interfere(pid, env.Between(1));
      ghost var later := |machine.trace|;
      var doc := FromFile(rejected, env);
      LookedUpStays(looked, machine.trace, from, rejected, old(token), old(expiresAt), hit);
      if doc == Raised(RefreshFailed) {
        UnansweredSooner(machine.trace, later, from, env.answer);
      }
      if !doc.Returned? {
        return if doc.Raised? then Raised(doc.error) else Blocked;
      }
      JudgedSooner(machine.trace, later, from, rejected, env.answer, doc.value);
      looked := machine.trace;
      HoldingSeen(from, doc.value);
      Finish(rejected, doc.value, env);
      SinceStays(looked, machine.trace, from, rejected, env.answer, doc.value);
      LookedUpStays(looked, machine.trace, from, rejected, old(token), old(expiresAt), hit);
      r := Returned(token);
    }

    /** What the record of finished calls says about the call just finished. */
    lemma Recorded(rejected: Option<string>, clock: real)
      requires machine.Valid() && machine.state.handed != []
      requires machine.state.handed[|machine.state.handed| - 1] == Return(rejected, token, expiresAt, clock)
      ensures token in machine.state.issued && token != "" && Some(token) != rejected
      ensures Return(rejected, token, expiresAt, clock) in machine.state.handed
      ensures LongLived(machine.trace) ==> Fit(rejected, token, expiresAt, clock)
    {
      machine.Invariant();
    }
  }

  // ---- the caller of the store ----

  /** `SvpClient._read`, given the statuses the service would answer: at most two requests, the second
      only after a 401 and never with the token just refused. */
  method ReadWithRetry(tokens: CredentialStore, first: int, second: int, env: Env, retry: Env)
    returns (sent: seq<string>, r: Outcome<int>)
    requires tokens.Valid()
    modifies tokens, tokens.machine
    ensures |sent| <= 2 && (|sent| == 2 ==> first == 401 && sent[0] != sent[1] && r == Returned(second))
    ensures r.Returned? ==> |sent| == if first == 401 then 2 else 1
    ensures r.Returned? ==> r.value == if first == 401 then second else first
    ensures r.Blocked? ==> tokens.HeldByAnother()
    ensures !r.Blocked? ==> tokens.Valid()
  {
    sent := [];
    var token := tokens.AccessToken(None, env);
    if !token.Returned? {
      return sent, if token.Raised? then Raised(token.error) else Blocked;
    }
    sent := [token.value];
    if first == 401 {
      tokens.machine.Invariant();
      var replacement := tokens.AccessToken(Some(token.value), retry);
      if !replacement.Returned? {
        return sent, if replacement.Raised? then Raised(replacement.error) else Blocked;
      }
      sent := sent + [replacement.value];
      return sent, Returned(second);
    }
    r := Returned(first);
  }
}
