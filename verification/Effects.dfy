/** Dispatch safety of the Gmail client: `_token`, `_request` and `modify_labels` of `src/gmail_mcp/client.py`
    and the `effect_status` that `_call` of `src/gmail_mcp/server.py` reports for a failure. */
module Effects {
  import opened Wrappers
  import opened Characters
  import opened GmailText

  datatype Body = TooLarge | NotJson | NotObject | Object

  /** What comes back from one dispatch; `Broken` is any transport error, also while reading. */
  datatype Reply = Broken | Response(status: int, body: Body)

  /** A dispatch as the provider sees it: its reply, and whether the request took effect. */
  datatype Exchange = Exchange(path: string, mutating: bool, reply: Reply, applied: bool)

  /** The token endpoint's answer; `Unusable` is a body without a token and a positive lifetime. */
  datatype TokenReply = TokenBroken | TokenResponse(status: int, body: TokenBody)
  datatype TokenBody = TooLong | Unusable | Usable(token: string, lifetime: real)

  function TokenFault(reply: TokenReply): Option<Code> {
    match reply
    case TokenBroken => Some(ProviderUnavailable)
    case TokenResponse(status, body) =>
      if 300 <= status < 400 then Some(ProviderRejected)
      else if status in {400, 401, 403} then Some(CredentialRejected)
      else if status == 429 then Some(RateLimited)
      else if status >= 500 then Some(ProviderUnavailable)
      else if status >= 400 || body.TooLong? then Some(ProviderRejected)
      else if body.Unusable? || body.token == "" || body.lifetime <= 0.0 then Some(ProviderOutputInvalid)
      else None
  }

  /** Statuses that mean the provider refused: 3xx, and 4xx other than 401 and 429. */
  predicate Refuses(status: int) {
    300 <= status < 500 && status != 401 && status != 429
  }

  /** The provider's side of the bargain: a refused request has no effect, and a read never has one. */
  predicate Honest(x: Exchange) {
    x.applied ==> x.mutating && !(x.reply.Response? && Refuses(x.reply.status))
  }

  /** Refused in so many words: the reply was read to its end and its status says so. */
  predicate KnownRefusal(reply: Reply) {
    reply.Response? && !reply.body.TooLarge? && Refuses(reply.status)
  }

  predicate Delivered(reply: Reply) {
    reply.Response? && reply.status < 300 && reply.body.Object?
  }

  datatype Next = Done | Raise(code: Code) | Reauthenticate

  /** What `_request` makes of a reply. */
  function Judge(reply: Reply, mutating: bool, mayRetry: bool): Next {
    match reply
    case Broken => Raise(if mutating then OutcomeUnknown else ProviderUnavailable)
    case Response(_, TooLarge) => Raise(if mutating then OutcomeUnknown else ProviderOutputInvalid)
    case Response(status, body) =>
      if status == 401 then
        if mutating then Raise(OutcomeUnknown) else if mayRetry then Reauthenticate else Raise(CredentialRejected)
      else if status == 429 then Raise(if mutating then OutcomeUnknown else RateLimited)
      else if status >= 500 then Raise(if mutating then OutcomeUnknown else ProviderUnavailable)
      else if status == 404 && !mutating then Raise(ResourceNotFound)
      else if status >= 300 then Raise(ProviderRejected)
      else if !body.Object? then Raise(if mutating then OutcomeUnknown else ProviderOutputInvalid)
      else Done
  }

  /** For a mutating request the code is exact: it is done when delivered, a known failure when refused in so
      many words, and unknown in every other case. */
  lemma MutatingVerdict(reply: Reply, mayRetry: bool)
    ensures var next := Judge(reply, true, mayRetry);
            && (next.Done? <==> Delivered(reply))
            && (next == Raise(OutcomeUnknown) <==> !Delivered(reply) && !KnownRefusal(reply))
            && (next.Raise? && next.code != OutcomeUnknown <==> KnownRefusal(reply))
            && !next.Reauthenticate?
  {
  }

  /** For a read, each answer has its code: the credential is renewed once on a 401 and given up on the second,
      and what was not refused is either delivered or no usable output. */
  lemma ReadVerdict(reply: Reply, mayRetry: bool)
    ensures var next, read := Judge(reply, false, mayRetry), reply.Response? && !reply.body.TooLarge?;
            && (next.Done? <==> Delivered(reply))
            && (next.Reauthenticate? <==> read && reply.status == 401 && mayRetry)
            && (next == Raise(CredentialRejected) <==> read && reply.status == 401 && !mayRetry)
            && (next == Raise(RateLimited) <==> read && reply.status == 429)
            && (next == Raise(ResourceNotFound) <==> read && reply.status == 404)
            && (next == Raise(ProviderUnavailable) <==> reply.Broken? || (read && reply.status >= 500))
            && (next == Raise(ProviderRejected) <==>
                  read && 300 <= reply.status < 500 && reply.status !in {401, 404, 429})
            && (next == Raise(ProviderOutputInvalid) <==>
                  reply.Response? && (reply.body.TooLarge? || (reply.status < 300 && !reply.body.Object?)))
  {
  }

  /** The token endpoint's answers: a token is taken from a success with a usable body alone. */
  lemma TokenVerdict(reply: TokenReply)
    ensures var fault := TokenFault(reply);
            && (fault.None? <==> reply.TokenResponse? && reply.status < 300 && reply.body.Usable?
                                 && reply.body.token != "" && reply.body.lifetime > 0.0)
            && (fault == Some(CredentialRejected) <==> reply.TokenResponse? && reply.status in {400, 401, 403})
            && (fault == Some(RateLimited) <==> reply.TokenResponse? && reply.status == 429)
            && (fault == Some(ProviderUnavailable) <==> reply.TokenBroken? || reply.status >= 500)
            && (fault == Some(ProviderOutputInvalid) <==>
                  && reply.TokenResponse? && reply.status < 300 && !reply.body.TooLong?
                  && (reply.body.Usable? ==> reply.body.token == "" || reply.body.lifetime <= 0.0))
            && (fault.Some? ==> fault.value in {CredentialRejected, RateLimited, ProviderUnavailable,
                                                ProviderOutputInvalid, ProviderRejected})
  {
  }

  class GmailClient {
    var accessToken: Option<string>
    var expiresAt: real
    var tokenCalls: nat
    var sent: seq<Exchange>
    const provider: (nat, string, bool) -> (Reply, bool)
    const tokens: nat -> TokenReply

    constructor (provider: (nat, string, bool) -> (Reply, bool), tokens: nat -> TokenReply)
      ensures sent == [] && this.provider == provider && this.tokens == tokens
    {
      accessToken, expiresAt, tokenCalls, sent := None, 0.0, 0, [];
      this.provider, this.tokens := provider, tokens;
    }

    /** `_token`, at some moment: the cached one while it has more than 30 seconds left. */
    method Token(now: real) returns (r: Result<string, Code>)
      modifies this`accessToken, this`expiresAt, this`tokenCalls
      ensures r.Success? ==> accessToken == Some(r.value)
      ensures r.Failure? ==> accessToken == old(accessToken) && expiresAt == old(expiresAt) && r.error != OutcomeUnknown
      ensures old(accessToken).Some? && old(expiresAt) > now + 30.0 ==>
                (r == Success(old(accessToken).value) && tokenCalls == old(tokenCalls))
      ensures tokenCalls
           == old(tokenCalls) + if old(accessToken).Some? && old(expiresAt) > now + 30.0 then 0 else 1
      ensures tokenCalls > old(tokenCalls) ==>
                var reply := tokens(old(tokenCalls));
                if TokenFault(reply).Some? then r == Failure(TokenFault(reply).value)
                else r == Success(reply.body.token) && expiresAt == now + reply.body.lifetime
      ensures tokenCalls == old(tokenCalls) ==> r.Success? && expiresAt == old(expiresAt) > now + 30.0
    {
      if accessToken.Some? && expiresAt > now + 30.0 {
        return Success(accessToken.value);
      }
      var reply := tokens(tokenCalls);
      tokenCalls := tokenCalls + 1;
      var fault := TokenFault(reply);
      if fault.Some? {
        return Failure(fault.value);
      }
      accessToken, expiresAt := Some(reply.body.token), now + reply.body.lifetime;
      r := Success(reply.body.token);
    }

    method Dispatch(path: string, mutating: bool) returns (reply: Reply)
      modifies this`sent
      ensures |sent| == |old(sent)| + 1 && sent[..|old(sent)|] == old(sent)
      ensures var x := sent[|old(sent)|]; x.path == path && x.mutating == mutating && x.reply == reply
    {
      var (answer, applied) := provider(|sent|, path, mutating);
      sent := sent + [Exchange(path, mutating, answer, applied)];
      reply := answer;
    }

    /** The last call of the token endpoint gave no token, and that is what failed. */
    ghost predicate NoToken(r: Result<(), Code>)
      reads this
    {
      tokenCalls > 0 && TokenFault(tokens(tokenCalls - 1)).Some?
      && r == Failure(TokenFault(tokens(tokenCalls - 1)).value)
    }

    /** `_request`. A mutating request is dispatched at most once, a read at most twice, and only a read
        that was told 401 is dispatched again. */
    method Request(path: string, mutating: bool, mayRetry: bool, now: real) returns (r: Result<(), Code>)
      modifies this
      decreases mayRetry
      ensures Grew(old(sent), sent, path, mutating)
      ensures |sent| <= |old(sent)| + if mutating || !mayRetry then 1 else 2
      ensures |sent| == |old(sent)| + 2 ==>
                sent[|old(sent)|].reply.Response? && sent[|old(sent)|].reply.status == 401
      ensures mutating || !mayRetry ==>
                tokenCalls == old(tokenCalls) + if old(accessToken).Some? && old(expiresAt) > now + 30.0 then 0 else 1
      ensures |sent| == |old(sent)| + 2 ==>
                tokenCalls == old(tokenCalls) + if old(accessToken).Some? && old(expiresAt) > now + 30.0 then 1 else 2
      ensures |sent| == |old(sent)| ==> r.Failure? && r.error != OutcomeUnknown
      ensures r.Success? ==> Delivered(sent[|sent| - 1].reply)
      ensures mutating && |sent| > |old(sent)| && r.Failure? ==>
                (r.error != OutcomeUnknown <==> KnownRefusal(sent[|old(sent)|].reply))
      ensures !mutating && r.Failure? ==> r.error != OutcomeUnknown
      ensures tokenCalls >= old(tokenCalls) && (|sent| == |old(sent)| ==> tokenCalls > old(tokenCalls) && NoToken(r))
      ensures !mutating && |sent| > |old(sent)| ==>
                var next := Judge(sent[|sent| - 1].reply, false, mayRetry && |sent| == |old(sent)| + 1);
                && (next.Done? ==> r.Success?) && (next.Raise? ==> r == Failure(next.code))
                && (next.Reauthenticate? ==> tokenCalls > old(tokenCalls) && NoToken(r))
    {
      var token := Token(now);
      if token.Failure? {
        return Failure(token.error);
      }
      var reply := Dispatch(path, mutating);
      match Judge(reply, mutating, mayRetry)
      case Done => r := Success(());
      case Raise(code) => r := Failure(code);
      case Reauthenticate =>
        accessToken, expiresAt := None, 0.0;
        r := Request(path, false, false, now);
    }

    /** `modify_labels`, its arguments already found valid: one request per thread, in order. */
    method ModifyThreads(threads: seq<string>, now: real) returns (r: Result<seq<string>, Code>)
      modifies this
      ensures old(sent) <= sent && Told(sent[|old(sent)|..], threads, r)
    {
      ghost var was := sent;
      var changed: seq<string> := [];
      for i := 0 to |threads|
        invariant was <= sent && changed == threads[..i] && DeliveredAll(sent[|was|..], threads[..i])
      {
        ghost var before := sent;
        var done := Request(threads[i], true, true, now);
        ghost var tail := sent[|before|..];
        assert sent[|was|..] == before[|was|..] + tail;
        if done.Failure? {
          FailureIsTold(before[|was|..], tail, threads, i, done.error);
          return Failure(if changed != [] then OutcomeUnknown else done.error);
        }
        OneMoreDelivered(before[|was|..], tail, threads, i);
        changed := changed + [threads[i]];
      }
      assert threads[..|threads|] == threads;
      r := Success(changed);
    }

    /** `modify_labels` */
    method ModifyLabels(threads: seq<string>, additions: seq<string>, removals: seq<string>, now: real)
      returns (r: Result<seq<string>, Code>)
      modifies this
      ensures !ValidArguments(threads, additions, removals) ==> r == Failure(ArgumentsInvalid) && sent == old(sent)
      ensures old(sent) <= sent && Told(sent[|old(sent)|..], threads, r)
    {
      if !ValidArguments(threads, additions, removals) {
        assert sent[|old(sent)|..] == [];
        return Failure(ArgumentsInvalid);
      }
      r := ModifyThreads(threads, now);
    }
  }

  /** `after` extends `before` by dispatches of this one request. */
  ghost predicate Grew(before: seq<Exchange>, after: seq<Exchange>, path: string, mutating: bool) {
    && before <= after
    && forall i | |before| <= i < |after| :: after[i].path == path && after[i].mutating == mutating
  }

  predicate ValidArguments(threads: seq<string>, additions: seq<string>, removals: seq<string>) {
    && 1 <= |threads| <= 25 && (forall i, j | 0 <= i < j < |threads| :: threads[i] != threads[j])
    && (forall i | 0 <= i < |threads| :: RequiredText(threads[i], 1024))
    && (additions != [] || removals != []) && |additions| <= 100 && |removals| <= 100
    && (forall i | 0 <= i < |additions| :: RequiredText(additions[i], 1024))
    && (forall i | 0 <= i < |removals| :: RequiredText(removals[i], 1024))
  }

  predicate HasBlank(texts: seq<string>) {
    exists i | 0 <= i < |texts| :: Blank(texts[i]) || |texts[i]| > 1024 || '\0' in texts[i]
  }

  /** What makes `modify_labels` fail before it sends anything: no thread or more than 25, one named twice, no
      label or more than 100 to add or to remove, or a blank, overlong or broken text among them. */
  lemma RejectedIff(threads: seq<string>, additions: seq<string>, removals: seq<string>)
    ensures !ValidArguments(threads, additions, removals) <==>
            || threads == [] || |threads| > 25 || (additions == [] && removals == [])
            || |additions| > 100 || |removals| > 100
            || HasBlank(threads) || HasBlank(additions) || HasBlank(removals)
            || exists i, j | 0 <= i < j < |threads| :: threads[i] == threads[j]
  {
    hide Blank;
  }

  /** One delivered dispatch per thread, in order. */
  ghost predicate DeliveredAll(new_: seq<Exchange>, threads: seq<string>) {
    && |new_| == |threads|
    && forall i | 0 <= i < |new_| :: new_[i].path == threads[i] && new_[i].mutating && Delivered(new_[i].reply)
  }

  lemma OneMoreDelivered(new_: seq<Exchange>, tail: seq<Exchange>, threads: seq<string>, i: nat)
    requires i < |threads| && DeliveredAll(new_, threads[..i])
    requires |tail| == 1 && tail[0].path == threads[i] && tail[0].mutating && Delivered(tail[0].reply)
    ensures DeliveredAll(new_ + tail, threads[..i + 1])
  {
  }

  lemma FailureIsTold(new_: seq<Exchange>, tail: seq<Exchange>, threads: seq<string>, i: nat, code: Code)
    requires i < |threads| && DeliveredAll(new_, threads[..i]) && |tail| <= 1
    requires tail == [] ==> code != OutcomeUnknown
    requires tail != [] ==> tail[0].path == threads[i] && tail[0].mutating
                            && (code != OutcomeUnknown <==> KnownRefusal(tail[0].reply))
    ensures Told(new_ + tail, threads, Failure(if i > 0 then OutcomeUnknown else code))
  {
    hide Delivered, KnownRefusal;
    assert forall k | 0 <= k < i :: (new_ + tail)[k] == new_[k] && threads[..i][k] == threads[k];
    if i == 0 {
      assert new_ + tail == tail;
    }
  }

  /** How the dispatches of one `modify_labels` call and what it returns go together. */
  ghost predicate Told(new_: seq<Exchange>, threads: seq<string>, r: Result<seq<string>, Code>) {
    && |new_| <= |threads| && (forall i | 0 <= i < |new_| :: new_[i].path == threads[i] && new_[i].mutating)
    && (r.Success? ==> r.value == threads && |new_| == |threads|
                       && forall i | 0 <= i < |new_| :: Delivered(new_[i].reply))
    && (r.Failure? && r.error != OutcomeUnknown ==> |new_| <= 1 && (new_ != [] ==> KnownRefusal(new_[0].reply)))
    && (r.Failure? && r.error == OutcomeUnknown ==> new_ != [])
  }

  // ---- what is reported ----

  datatype Effect = NotApplied | Unknown

  /** `_call` */
  function EffectStatus(code: Code): Effect {
    if code == OutcomeUnknown then Unknown else NotApplied
  }

  /** Effect reporting is sound: a `modify_labels` call that fails as `not_applied` changed no thread, and
      one that fails as `unknown` did dispatch a request. */
  lemma ReportIsSound(new_: seq<Exchange>, threads: seq<string>, r: Result<seq<string>, Code>)
    requires Told(new_, threads, r) && r.Failure? && forall i | 0 <= i < |new_| :: Honest(new_[i])
    ensures EffectStatus(r.error) == NotApplied ==> forall i | 0 <= i < |new_| :: !new_[i].applied
    ensures EffectStatus(r.error) == Unknown ==> new_ != []
  {
  }

  /** The tools that send one request, `create_draft`, `send_message`, `trash_thread` and `untrash_thread`,
      report through the same table; and a read, dispatched twice or not, never has an effect to report. */
  method CallOnce(client: GmailClient, path: string, mutating: bool, argumentsValid: bool, now: real)
    returns (failed: Option<Effect>)
    modifies client
    ensures old(client.sent) <= client.sent
    ensures |client.sent| <= |old(client.sent)| + if mutating then 1 else 2
    ensures (forall i | |old(client.sent)| <= i < |client.sent| :: Honest(client.sent[i]))
            && failed == Some(NotApplied) ==>
              forall i | |old(client.sent)| <= i < |client.sent| :: !client.sent[i].applied
    ensures failed.None? ==> |client.sent| > |old(client.sent)| && Delivered(client.sent[|client.sent| - 1].reply)
    ensures failed == Some(Unknown) ==> mutating && |client.sent| == |old(client.sent)| + 1
    ensures !argumentsValid ==> client.sent == old(client.sent) && failed == Some(NotApplied)
  {
    if !argumentsValid {
      return Some(EffectStatus(ArgumentsInvalid));
    }
    var r := client.Request(path, mutating, true, now);
    if r.Failure? {
      failed := Some(EffectStatus(r.error));
    } else {
      failed := None;
    }
  }
}
