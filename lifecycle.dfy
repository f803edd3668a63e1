/** What the two orchestrators (`server` and `log`) do with their
    collaborators at start-up and shut-down: initialise them one after the
    other, stopping at the first failure and naming it, and deinitialise
    them one after the other, ignoring every failure. The collaborators
    themselves (queue, SSH session, watchdog, HTTP surface) are seen only
    through a recording double that answers as it is configured. */
module Lifecycle {
  import opened Errors

  /** The collaborators, plus the server's own two HTTP steps
      (`initHttp` and `listenHttp`), which it runs in the same chain. */
  datatype Component = Http | Queue | Ssh | Storage | Watchdog | HttpEngine | HttpListener

  /** The context a failed start-up step is wrapped with. */
  function InitContext(c: Component): string
  {
    match c
    case Http => "failed to init http"
    case Queue => "failed to init queue"
    case Ssh => "failed to init ssh"
    case Storage => "failed to init storage"
    case Watchdog => "failed to init watchdog"
    case HttpEngine => "failed to init http"
    case HttpListener => "failed to listen http"
  }

  datatype Call = InitCall(c: Component) | DeinitCall(c: Component)

  /** The configured answer of a component: its error, or None (Go's nil). */
  function Answer(fails: map<Component, Error>, c: Component): Option<Error>
  {
    if c in fails then Some(fails[c]) else None
  }

  /** A recording stand-in for the collaborators: every `Init` and `Deinit`
      made on it is appended to `calls`, and each answers as configured. */
  class Collaborators {
    const initFails: map<Component, Error>
    const deinitFails: map<Component, Error>
    var calls: seq<Call>

    constructor (initFails: map<Component, Error>, deinitFails: map<Component, Error>)
      ensures this.initFails == initFails && this.deinitFails == deinitFails
      ensures calls == []
    {
      this.initFails := initFails;
      this.deinitFails := deinitFails;
      calls := [];
    }

    method Init(c: Component) returns (err: Option<Error>)
      modifies this
      ensures calls == old(calls) + [InitCall(c)]
      ensures err == Answer(initFails, c)
    {
      calls := calls + [InitCall(c)];
      err := Answer(initFails, c);
    }

    method Deinit(c: Component) returns (err: Option<Error>)
      modifies this
      ensures calls == old(calls) + [DeinitCall(c)]
      ensures err == Answer(deinitFails, c)
    {
      calls := calls + [DeinitCall(c)];
      err := Answer(deinitFails, c);
    }
  }

  /** The calls recorded after a start-up chain, and the error it returns. */
  datatype Outcome = Outcome(calls: seq<Call>, err: Option<Error>)

  /** Initialising `order` one by one after the calls `done`: the first
      component that fails ends the chain, and its error comes back wrapped
      with its context. */
  function InitChain(done: seq<Call>, order: seq<Component>, fails: map<Component, Error>): Outcome
    decreases |order|
  {
    if order == [] then Outcome(done, None)
    else if order[0] in fails then
      Outcome(done + [InitCall(order[0])], Some(Wrap(InitContext(order[0]), fails[order[0]])))
    else InitChain(done + [InitCall(order[0])], order[1..], fails)
  }

  function InitCalls(order: seq<Component>): seq<Call>
  {
    seq(|order|, i requires 0 <= i < |order| => InitCall(order[i]))
  }

  function DeinitCalls(order: seq<Component>): seq<Call>
  {
    seq(|order|, i requires 0 <= i < |order| => DeinitCall(order[i]))
  }

  /** The components in the opposite order. */
  function Reverse(order: seq<Component>): (r: seq<Component>)
    ensures |r| == |order|
    ensures forall i :: 0 <= i < |order| ==> r[i] == order[|order| - 1 - i]
  {
    if order == [] then [] else Reverse(order[1..]) + [order[0]]
  }

  /** The position of the first component configured to fail, or |order|. */
  function FirstFailure(order: seq<Component>, fails: map<Component, Error>): (k: nat)
    ensures k <= |order|
    ensures forall i :: 0 <= i < k ==> order[i] !in fails
    ensures k < |order| ==> order[k] in fails
  {
    if order == [] || order[0] in fails then 0 else 1 + FirstFailure(order[1..], fails)
  }

  /** The chain initialises exactly the components up to and including the
      first failing one, in order, and returns that one's error wrapped with
      its name; with no failure it initialises all and returns nil. */
  lemma {:induction false} InitStopsAtFirstFailure(done: seq<Call>, order: seq<Component>, fails: map<Component, Error>)
    ensures var k := FirstFailure(order, fails);
            InitChain(done, order, fails)
            == if k < |order| then Outcome(done + InitCalls(order[..k + 1]), Some(Wrap(InitContext(order[k]), fails[order[k]])))
               else Outcome(done + InitCalls(order), None)
    decreases |order|
  {
    if order != [] && order[0] !in fails {
      var head := [InitCall(order[0])];
      InitStopsAtFirstFailure(done + head, order[1..], fails);
      var k := FirstFailure(order[1..], fails);
      var n := if k < |order| - 1 then k + 1 else k;
      assert order[1..][..n] == order[1..n + 1];
      assert InitCalls(order[..n + 1]) == head + InitCalls(order[1..n + 1]);
      assert done + head + InitCalls(order[1..n + 1]) == done + InitCalls(order[..n + 1]);
      if k == |order| - 1 {
        assert order[..n + 1] == order;
      }
    } else if order != [] {
      assert InitCalls(order[..1]) == [InitCall(order[0])];
    }
  }

  /** Start-up returns nil exactly when no component fails. */
  lemma InitNilIffAllSucceed(done: seq<Call>, order: seq<Component>, fails: map<Component, Error>)
    ensures InitChain(done, order, fails).err.None? <==> forall i :: 0 <= i < |order| ==> order[i] !in fails
  {
    InitStopsAtFirstFailure(done, order, fails);
  }

  /** Start-up only adds calls, and components after the failing one are
      never touched (when no component appears twice in the order). */
  lemma LaterUntouched(done: seq<Call>, order: seq<Component>, fails: map<Component, Error>, j: int)
    requires forall a, b :: 0 <= a < b < |order| ==> order[a] != order[b]
    requires FirstFailure(order, fails) < j < |order|
    ensures |done| <= |InitChain(done, order, fails).calls|
    ensures done == InitChain(done, order, fails).calls[..|done|]
    ensures InitCall(order[j]) !in InitChain(done, order, fails).calls[|done|..]
  {
    InitStopsAtFirstFailure(done, order, fails);
    var k := FirstFailure(order, fails);
    var calls := InitChain(done, order, fails).calls;
    assert calls[|done|..] == InitCalls(order[..k + 1]);
  }
}
