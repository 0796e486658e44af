/** The `useRagnaChat` hook: the conversation state a chat widget renders
    (`messages`, `isLoading`), the `onMessage` updater that reconciles what
    the client publishes with that state, and `sendMessage`, which sequences
    the state changes around one client call. */
module ChatHook {
  import opened Common
  import opened StreamClient

  /** The role the updater's duplicate check looks for. */
  const AssistantRole: string := "assistant"

  /** What `onMessage` may be called with: a whole message list, or a single
      message. */
  datatype Update = Replace(list: seq<Msg>) | Single(msg: Msg)

  /** The user turn `sendMessage` appends, holding the input as given. */
  function UserTurn(input: string): Msg {
    Msg(UserRole, input)
  }

  /** The last message is an "assistant" turn with the content of `m`; the
      role of `m` itself plays no part. */
  predicate RepeatsLast(prev: seq<Msg>, m: Msg) {
    |prev| > 0 && prev[|prev| - 1].role == AssistantRole && prev[|prev| - 1].content == m.content
  }

  /** The updater passed to `setMessages` for one `onMessage` call: a list
      replaces the state wholesale; a single message is appended unless it
      repeats the last assistant turn. */
  function Reduce(prev: seq<Msg>, update: Update): (next: seq<Msg>)
    ensures update.Replace? ==> next == update.list
    ensures update.Single? ==> prev <= next && |next| <= |prev| + 1
  {
    match update
    case Replace(list) => list
    case Single(m) => if RepeatsLast(prev, m) then prev else prev + [m]
  }

  /** The state after the updaters of successive `onMessage` calls, applied
      in call order. */
  function ApplyAll(start: seq<Msg>, updates: seq<Update>): seq<Msg>
    decreases |updates|
  {
    if updates == [] then start
    else Reduce(ApplyAll(start, updates[..|updates| - 1]), updates[|updates| - 1])
  }

  /** The client's `onMessage` arguments as updates: it always passes
      arrays. */
  function AsUpdates(snaps: seq<seq<Msg>>): seq<Update> {
    seq(|snaps|, k requires 0 <= k < |snaps| => Replace(snaps[k]))
  }

  /** What a render sees: the two state variables. */
  datatype View = View(messages: seq<Msg>, isLoading: bool)

  /** The state after each `onMessage` call of an exchange. */
  function DeliveryViews(start: seq<Msg>, snaps: seq<seq<Msg>>): (vs: seq<View>)
    ensures |vs| == |snaps|
    decreases |snaps|
  {
    if snaps == [] then []
    else DeliveryViews(start, snaps[..|snaps| - 1]) + [View(ApplyAll(start, AsUpdates(snaps)), true)]
  }

  /** The states `sendMessage` passes through, one per state change: loading
      set, user turn appended, each published snapshot applied, and, when
      the client call resolves, loading cleared. */
  function SendViews(prev: seq<Msg>, input: string, snaps: seq<seq<Msg>>, resolved: bool): seq<View> {
    var start := prev + [UserTurn(input)];
    [View(prev, true), View(start, true)] + DeliveryViews(start, snaps)
    + (if resolved then [View(ApplyAll(start, AsUpdates(snaps)), false)] else [])
  }

  /** The state of one mounted `useRagnaChat` and the client it was given. */
  class RagnaChat {
    const client: RagnaClient
    var messages: seq<Msg>
    var isLoading: bool
    /** The state after each update, oldest first. */
    ghost var views: seq<View>

    constructor(client: RagnaClient)
      ensures this.client == client
      ensures messages == [] && !isLoading && views == [View([], false)]
    {
      this.client := client;
      messages := [];
      isLoading := false;
      views := [View([], false)];
    }

    /** `sendMessage(input)`: the client call is answered by `response`, and
        `parse` stands for `JSON.parse(..).chunk`. Resolves when the client
        call resolves and rejects with its error otherwise. */
    method SendMessage(input: string, response: Response, parse: string -> Option<string>)
      returns (outcome: Result<()>)
      modifies this
      ensures var start := old(messages) + [UserTurn(input)];
        var snaps := Published(client.stream, input, response, parse);
        messages == ApplyAll(start, AsUpdates(snaps))
        && views == old(views) + SendViews(old(messages), input, snaps, outcome.Ok?)
      ensures outcome == if Outcome(input, response, parse).Ok? then Ok(())
                         else Err(Outcome(input, response, parse).error)
      ensures isLoading == outcome.Err?
    {
      ghost var prev, before := messages, views;
      isLoading := true;
      views := views + [View(messages, isLoading)];
      messages := messages + [UserTurn(input)];
      views := views + [View(messages, isLoading)];
      var result, snaps := client.SendMessage(input, response, parse);
      ApplyPublished(snaps);
      ViewsSoFar(before, prev, input, snaps);
      if result.Err? {
        return Err(result.error);
      }
      isLoading := false;
      views := views + [View(messages, isLoading)];
      outcome := Ok(());
    }

    /** The `onMessage` calls of one client call, each applying its updater
        to the state; they happen while the client call is pending. */
    method ApplyPublished(snaps: seq<seq<Msg>>)
      requires isLoading
      modifies this
      ensures messages == ApplyAll(old(messages), AsUpdates(snaps))
      ensures views == old(views) + DeliveryViews(old(messages), snaps)
      ensures isLoading
    {
      ghost var start, base := messages, views;
      var k := 0;
      while k < |snaps|
        invariant 0 <= k <= |snaps|
        invariant messages == ApplyAll(start, AsUpdates(snaps[..k]))
        invariant views == base + DeliveryViews(start, snaps[..k])
        invariant isLoading
      {
        ApplyAllStep(start, snaps, k);
        DeliveryViewsStep(start, snaps, k);
        messages := Reduce(messages, Replace(snaps[k]));
        views := views + [View(messages, isLoading)];
        k := k + 1;
      }
      assert snaps[..|snaps|] == snaps;
    }
  }

  lemma ViewsSoFar(before: seq<View>, prev: seq<Msg>, input: string, snaps: seq<seq<Msg>>)
    ensures var start := prev + [UserTurn(input)];
      before + [View(prev, true)] + [View(start, true)] + DeliveryViews(start, snaps)
        == before + SendViews(prev, input, snaps, false)
      && before + [View(prev, true)] + [View(start, true)] + DeliveryViews(start, snaps)
           + [View(ApplyAll(start, AsUpdates(snaps)), false)]
        == before + SendViews(prev, input, snaps, true)
  {
  }

  lemma ApplyAllStep(start: seq<Msg>, snaps: seq<seq<Msg>>, k: nat)
    requires k < |snaps|
    ensures ApplyAll(start, AsUpdates(snaps[..k + 1]))
      == Reduce(ApplyAll(start, AsUpdates(snaps[..k])), Replace(snaps[k]))
  {
    assert AsUpdates(snaps[..k + 1])[..k] == AsUpdates(snaps[..k]);
  }

  lemma DeliveryViewsStep(start: seq<Msg>, snaps: seq<seq<Msg>>, k: nat)
    requires k < |snaps|
    ensures DeliveryViews(start, snaps[..k + 1])
      == DeliveryViews(start, snaps[..k]) + [View(ApplyAll(start, AsUpdates(snaps[..k + 1])), true)]
  {
    assert snaps[..k + 1][..k] == snaps[..k];
  }

  // ---------------------------------------------------------------------
  // The updater

  /** An array update yields that array, whatever the state was. */
  lemma ReplaceIgnoresState(prev: seq<Msg>, other: seq<Msg>, list: seq<Msg>)
    ensures Reduce(prev, Replace(list)) == Reduce(other, Replace(list)) == list
  {
  }

  /** A single message is dropped exactly when it repeats the last
      assistant turn, and appended at the end otherwise. */
  lemma SingleUpdate(prev: seq<Msg>, m: Msg)
    ensures Reduce(prev, Single(m)) == prev <==> RepeatsLast(prev, m)
    ensures !RepeatsLast(prev, m) <==> Reduce(prev, Single(m)) == prev + [m]
    ensures !RepeatsLast(prev, m) ==> |Reduce(prev, Single(m))| == |prev| + 1
  {
    assert |prev + [m]| == |prev| + 1;
  }

  /** Applying the same update twice is applying it once, for arrays and for
      single "assistant" messages. */
  lemma ReduceIdempotent(prev: seq<Msg>, u: Update)
    requires u.Replace? || u.msg.role == AssistantRole
    ensures Reduce(Reduce(prev, u), u) == Reduce(prev, u)
  {
    if u.Single? && !RepeatsLast(prev, u.msg) {
      var next := prev + [u.msg];
      assert next[|next| - 1] == u.msg;
      assert RepeatsLast(next, u.msg);
    }
  }

  /** A single "user" message is not deduplicated: unless the list already
      ends with an assistant turn of the same content, sent twice it is
      appended twice. */
  lemma UserSingleNotIdempotent(prev: seq<Msg>, content: string)
    requires !RepeatsLast(prev, UserTurn(content))
    ensures var u := Single(UserTurn(content));
      Reduce(Reduce(prev, u), u) == prev + [UserTurn(content), UserTurn(content)]
      && Reduce(Reduce(prev, u), u) != Reduce(prev, u)
  {
    var m := UserTurn(content);
    assert UserRole != AssistantRole by {
      assert UserRole[0] != AssistantRole[0];
    }
    assert !RepeatsLast(prev + [m], m) by {
      assert (prev + [m])[|prev + [m]| - 1] == m;
    }
    assert prev + [m] + [m] == prev + [m, m];
  }

  /** The duplicate check compares the last message's role and the
      incoming content only: once the list ends with an assistant turn, a
      single message of any role with that content is dropped. */
  lemma DedupeIgnoresUpdateRole(prev: seq<Msg>, content: string, role: string)
    requires |prev| > 0 && prev[|prev| - 1] == Msg(AssistantRole, content)
    ensures Reduce(prev, Single(Msg(role, content))) == prev
  {
  }

  /** A "model" turn, the role the client uses, is never taken for a
      duplicate of itself: sent twice as a single message, it is appended
      twice. */
  lemma ModelTurnNotDeduplicated(prev: seq<Msg>, content: string)
    requires !RepeatsLast(prev, Msg(ModelRole, content))
    ensures var u := Single(Msg(ModelRole, content));
      Reduce(Reduce(prev, u), u) == prev + [Msg(ModelRole, content), Msg(ModelRole, content)]
  {
    var m := Msg(ModelRole, content);
    assert ModelRole != AssistantRole by {
      assert ModelRole[0] != AssistantRole[0];
    }
    assert !RepeatsLast(prev + [m], m) by {
      assert (prev + [m])[|prev + [m]| - 1] == m;
    }
    assert prev + [m] + [m] == prev + [m, m];
  }

  // ---------------------------------------------------------------------
  // Folding updates

  lemma {:induction false} ApplyAllAppend(start: seq<Msg>, a: seq<Update>, b: seq<Update>)
    ensures ApplyAll(start, a + b) == ApplyAll(ApplyAll(start, a), b)
    decreases |b|
  {
    if b == [] {
      assert a + b == a;
    } else {
      var n := |b|;
      assert (a + b)[..|a + b| - 1] == a + b[..n - 1];
      assert (a + b)[|a + b| - 1] == b[n - 1];
      ApplyAllAppend(start, a, b[..n - 1]);
    }
  }

  /** Single-message updates only ever append: the state before them is a
      prefix of the state after, which is longer by at most one message per
      update. */
  lemma {:induction false} SinglesOnlyAppend(start: seq<Msg>, updates: seq<Update>)
    requires forall k :: 0 <= k < |updates| ==> updates[k].Single?
    ensures start <= ApplyAll(start, updates)
    ensures |ApplyAll(start, updates)| <= |start| + |updates|
    decreases |updates|
  {
    if updates != [] {
      var n := |updates|;
      SinglesOnlyAppend(start, updates[..n - 1]);
      var mid := ApplyAll(start, updates[..n - 1]);
      assert mid <= Reduce(mid, updates[n - 1]);
    }
  }

  /** After array updates, the state is the last array delivered; with none
      it is left as it was. */
  lemma LastArrayWins(start: seq<Msg>, snaps: seq<seq<Msg>>)
    ensures ApplyAll(start, AsUpdates(snaps)) == if snaps == [] then start else snaps[|snaps| - 1]
  {
    if snaps != [] {
      assert AsUpdates(snaps)[|snaps| - 1] == Replace(snaps[|snaps| - 1]);
    }
  }

  // ---------------------------------------------------------------------
  // The hook driven by the client

  /** The conversation after one `sendMessage`. */
  function AfterSend(prev: seq<Msg>, input: string, stream: bool, response: Response,
                     parse: string -> Option<string>): seq<Msg> {
    ApplyAll(prev + [UserTurn(input)], AsUpdates(Published(stream, input, response, parse)))
  }

  /** The client delivers only arrays, so the updater never reaches its
      single-message branch, and those arrays never hold an "assistant"
      turn, so its duplicate check could not fire even if it were reached. */
  lemma ClientTakesReplaceBranch(stream: bool, input: string, response: Response,
                                 parse: string -> Option<string>)
    ensures var us := AsUpdates(Published(stream, input, response, parse));
      forall k :: 0 <= k < |us| ==> us[k].Replace?
    ensures forall s, m :: (s in Published(stream, input, response, parse) && m in s)
                           ==> m.role != AssistantRole
  {
    OnlyUserAndModelRoles(stream, input, response, parse);
    assert UserRole != AssistantRole by {
      assert UserRole[0] != AssistantRole[0];
    }
    assert ModelRole != AssistantRole by {
      assert ModelRole[0] != AssistantRole[0];
    }
  }

  /** Once the client has published, the conversation is just the current
      exchange, `[user, model]`, after every `onMessage` call and at the
      end: every earlier turn is replaced. When the call resolves, that is
      exactly the value it resolved with. */
  lemma ExchangeReplacesHistory(prev: seq<Msg>, input: string, stream: bool, response: Response,
                                parse: string -> Option<string>)
    requires Published(stream, input, response, parse) != []
    ensures var after := AfterSend(prev, input, stream, response, parse);
      |after| == 2 && after[0] == UserTurn(input) && after[1].role == ModelRole
    ensures Outcome(input, response, parse).Ok?
      ==> AfterSend(prev, input, stream, response, parse) == Outcome(input, response, parse).value
    ensures var snaps := Published(stream, input, response, parse);
      var vs := DeliveryViews(prev + [UserTurn(input)], snaps);
      forall k :: 0 <= k < |snaps| ==>
        vs[k].messages == snaps[k] && |snaps[k]| == 2
        && snaps[k][0] == UserTurn(input) && snaps[k][1].role == ModelRole
  {
    var start := prev + [UserTurn(input)];
    var snaps := Published(stream, input, response, parse);
    LastArrayWins(start, snaps);
    if stream {
      StreamPublication(input, response, parse);
    } else {
      BufferedPublication(input, response, parse);
    }
    forall k | 0 <= k < |snaps|
      ensures DeliveryViews(start, snaps)[k].messages == snaps[k]
    {
      DeliveryViewLoading(start, snaps, k);
      LastArrayWins(start, snaps[..k + 1]);
    }
  }

  /** When nothing was published, the conversation keeps the earlier turns
      and the new user turn, with no model turn: this is what a stream
      without an accepted chunk, or a request that fails, leaves. */
  lemma NothingPublishedKeepsUserTurn(prev: seq<Msg>, input: string, stream: bool, response: Response,
                                      parse: string -> Option<string>)
    requires !response.Body? || (stream && ReadChunks(response.received, parse) == [])
    ensures AfterSend(prev, input, stream, response, parse) == prev + [UserTurn(input)]
  {
    if !response.Body? {
      RejectedBeforePublishing(stream, input, response, parse);
    }
    LastArrayWins(prev + [UserTurn(input)], Published(stream, input, response, parse));
  }

  /** A read that fails in stream mode leaves the content published before
      it on screen; without streaming nothing of the reply is shown. */
  lemma FailedReadKeepsPartialContent(prev: seq<Msg>, input: string, stream: bool, received: seq<string>,
                                      error: string, parse: string -> Option<string>)
    requires stream ==> ReadChunks(received, parse) != []
    ensures var after := AfterSend(prev, input, stream, Body(received, Some(error)), parse);
      after == if stream then Exchange(input, Concat(ReadChunks(received, parse)))
               else prev + [UserTurn(input)]
  {
    var response := Body(received, Some(error));
    var snaps := Published(stream, input, response, parse);
    LastArrayWins(prev + [UserTurn(input)], snaps);
    if stream {
      var cs := ReadChunks(received, parse);
      SnapshotAt(input, cs, |cs| - 1);
      assert cs[..|cs|] == cs;
    }
  }

  /** `isLoading` is set in every state from the start of `sendMessage` until
      the client call resolves, and cleared in the last state after it; if
      the call rejects it stays set. The second state is the first one with
      the user turn appended at the end. */
  lemma LoadingUntilResolved(prev: seq<Msg>, input: string, snaps: seq<seq<Msg>>, resolved: bool)
    ensures var vs := SendViews(prev, input, snaps, resolved);
      |vs| == |snaps| + 2 + (if resolved then 1 else 0)
      && (forall k :: 0 <= k < |snaps| + 2 ==> vs[k].isLoading)
      && (resolved ==> !vs[|vs| - 1].isLoading)
      && vs[1].messages == prev + [UserTurn(input)]
  {
    var start := prev + [UserTurn(input)];
    forall k | 0 <= k < |snaps| ensures DeliveryViews(start, snaps)[k].isLoading {
      DeliveryViewLoading(start, snaps, k);
    }
  }

  lemma {:induction false} DeliveryViewLoading(start: seq<Msg>, snaps: seq<seq<Msg>>, k: nat)
    requires k < |snaps|
    ensures DeliveryViews(start, snaps)[k] == View(ApplyAll(start, AsUpdates(snaps[..k + 1])), true)
    decreases |snaps|
  {
    if k < |snaps| - 1 {
      DeliveryViewLoading(start, snaps[..|snaps| - 1], k);
      assert snaps[..|snaps| - 1][..k + 1] == snaps[..k + 1];
    } else {
      assert snaps[..k + 1] == snaps;
    }
  }
}
