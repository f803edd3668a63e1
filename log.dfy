/** The log consumer: the same start-up and shut-down discipline as the
    server over five collaborators (HTTP client first), and a persist loop
    that so far only decodes what it takes off the queue. */
module Log {
  import opened Errors
  import Lifecycle
  import Stream

  /** Http, Queue, Ssh, Storage, Watchdog. */
  const InitOrder: seq<Lifecycle.Component> :=
    [Lifecycle.Http, Lifecycle.Queue, Lifecycle.Ssh, Lifecycle.Storage, Lifecycle.Watchdog]

  /** Shut-down runs start-up backwards. */
  const DeinitOrder: seq<Lifecycle.Component> := Lifecycle.Reverse(InitOrder)

  /** `Init`: the start-up chain over `InitOrder`. */
  method Init(env: Lifecycle.Collaborators) returns (err: Option<Error>)
    modifies env
    ensures Lifecycle.Outcome(env.calls, err) == Lifecycle.InitChain(old(env.calls), InitOrder, env.initFails)
  {
    // What is left of the chain after each step that succeeded.
    ghost var whole := Lifecycle.InitChain(env.calls, InitOrder, env.initFails);
    ghost var pending := InitOrder;
    var e: Option<Error>;
    e := env.Init(Lifecycle.Http);
    if e.Some? {
      return Some(Wrap("failed to init http", e.value));
    }
    pending := pending[1..];
    assert whole == Lifecycle.InitChain(env.calls, pending, env.initFails);
    e := env.Init(Lifecycle.Queue);
    if e.Some? {
      return Some(Wrap("failed to init queue", e.value));
    }
    pending := pending[1..];
    assert whole == Lifecycle.InitChain(env.calls, pending, env.initFails);
    e := env.Init(Lifecycle.Ssh);
    if e.Some? {
      return Some(Wrap("failed to init ssh", e.value));
    }
    pending := pending[1..];
    assert whole == Lifecycle.InitChain(env.calls, pending, env.initFails);
    e := env.Init(Lifecycle.Storage);
    if e.Some? {
      return Some(Wrap("failed to init storage", e.value));
    }
    pending := pending[1..];
    assert whole == Lifecycle.InitChain(env.calls, pending, env.initFails);
    e := env.Init(Lifecycle.Watchdog);
    if e.Some? {
      return Some(Wrap("failed to init watchdog", e.value));
    }
    return None;
  }

  /** Once a collaborator fails, no collaborator after it in `InitOrder`
      is initialised. */
  lemma InitLeavesLaterUntouched(done: seq<Lifecycle.Call>, fails: map<Lifecycle.Component, Error>, j: int)
    requires Lifecycle.FirstFailure(InitOrder, fails) < j < |InitOrder|
    ensures |done| <= |Lifecycle.InitChain(done, InitOrder, fails).calls|
    ensures Lifecycle.InitCall(InitOrder[j]) !in Lifecycle.InitChain(done, InitOrder, fails).calls[|done|..]
  {
    Lifecycle.LaterUntouched(done, InitOrder, fails, j);
  }

  /** `Deinit`: every collaborator once, in `DeinitOrder`, whatever each
      answers; always nil. */
  method Deinit(env: Lifecycle.Collaborators) returns (err: Option<Error>)
    modifies env
    ensures env.calls == old(env.calls) + Lifecycle.DeinitCalls(DeinitOrder)
    ensures err == None
  {
    var _ := env.Deinit(Lifecycle.Watchdog);
    var _ := env.Deinit(Lifecycle.Storage);
    var _ := env.Deinit(Lifecycle.Ssh);
    var _ := env.Deinit(Lifecycle.Queue);
    var _ := env.Deinit(Lifecycle.Http);
    return None;
  }

  /** `postEvent`: take the queue's stream and decode its items in order,
      stopping at the first that does not decode and returning that error;
      nil once the stream ends. `consumed` counts the items taken. */
  method PostEvent(stream: Result<seq<Stream.Item>>, decode: Stream.Decoder)
    returns (err: Option<Error>, consumed: nat)
    ensures stream.Err? ==> err == Some(Wrap("failed to get queue", stream.error)) && consumed == 0
    ensures stream.Ok? ==>
              var items, k := stream.value, Stream.FirstUndecodable(stream.value, decode);
              if k < |items| then err == Some(decode(items[k]).error) && consumed == k + 1
              else err == None && consumed == |items|
  {
    if stream.Err? {
      return Some(Wrap("failed to get queue", stream.error)), 0;
    }
    var items := stream.value;
    var i := 0;
    while i < |items|
      invariant 0 <= i <= |items|
      invariant i <= Stream.FirstUndecodable(items, decode)
    {
      var r := decode(items[i]);
      if r.Err? {
        return Some(r.error), i + 1;
      }
      i := i + 1;
    }
    return None, i;
  }
}
