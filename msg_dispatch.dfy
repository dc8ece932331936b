/**
 * `dp::msg_disp`: the same dispatch as `dp::resp_chain`, with the receiver
 * list and loop in `message_bumper_base_t` and `message_bumper_t`
 * forwarding to an instance `_ut` of it.
 */
module MsgDispatch {
  import opened Optional
  import opened Dispatch
  import RespChain

  class MessageBumperBase<S, M, R> {
    var coll: seq<(S, M) -> Option<R>>

    constructor()
      ensures coll == []
    {
      coll := [];
    }

    /** `add_receiver`: appended to `_coll`. */
    method AddReceiver(r: (S, M) -> Option<R>)
      modifies this
      ensures coll == old(coll) + [r]
    {
      coll := coll + [r];
    }

    /** `send`: each receiver in turn, breaking after the first empty answer. */
    method Send(sender: S, m: M) returns (ret: Option<R>, called: nat)
      ensures ret == Outcome(coll, sender, m)
      ensures called == Reached(coll, sender, m)
    {
      ret := None;
      called := 0;
      for i := 0 to |coll|
        invariant forall j :: 0 <= j < i ==> coll[j](sender, m).Some?
        invariant called == i
        invariant i > 0 ==> ret == coll[i - 1](sender, m)
        invariant i == 0 ==> ret == None
      {
        ret := coll[i](sender, m);
        called := i + 1;
        if ret.None? {
          break;
        }
      }
      if called > 0 {
        OutcomeAt(coll, sender, m, called);
      }
    }
  }

  class MessageBumper<S, M, R> {
    const ut: MessageBumperBase<S, M, R>

    constructor()
      ensures fresh(ut) && ut.coll == []
    {
      ut := new MessageBumperBase();
    }

    /** `add_receiver` forwards to `_ut`. */
    method AddReceiver(r: (S, M) -> Option<R>)
      modifies ut
      ensures ut.coll == old(ut.coll) + [r]
    {
      ut.AddReceiver(r);
    }

    /** `send` returns exactly what `_ut.send` returns. */
    method Send(sender: S, m: M) returns (ret: Option<R>, called: nat)
      ensures ret == Outcome(ut.coll, sender, m)
      ensures called == Reached(ut.coll, sender, m)
    {
      ret, called := ut.Send(sender, m);
    }
  }

  class Sender<S, M, R> {
    const self: S
    var controller: MessageBumper?<S, M, R>

    constructor(self: S)
      ensures this.self == self && controller == null
    {
      this.self := self;
      controller := null;
    }

    method SetController(c: MessageBumper?<S, M, R>)
      modifies this
      ensures controller == c
    {
      controller := c;
    }

    /** `send` through `on_send`, routed through the controller. */
    method Send(m: M) returns (ret: Option<R>, called: nat)
      requires controller != null
      ensures ret == Outcome(controller.ut.coll, self, m)
      ensures called == Reached(controller.ut.coll, self, m)
    {
      ret, called := controller.Send(self, m);
    }
  }

  /** The dispatch test: "quit" without broadcast stops at `bb2`; with broadcast it reaches `bb3`. */
  method DispatchTest() returns (quit: Option<RespChain.StatusCode>, quitReach: nat,
                                 broadcast: Option<RespChain.StatusCode>, broadcastReach: nat)
    ensures quit == None && quitReach == 2
    ensures broadcast == Some(RespChain.Ok) && broadcastReach == 3
  {
    var m := new MessageBumper<string, RespChain.Msg, RespChain.StatusCode>();
    var aa := new Sender<string, RespChain.Msg, RespChain.StatusCode>("aa");
    aa.SetController(m);
    m.AddReceiver(RespChain.TestReceiver("bb1"));
    m.AddReceiver(RespChain.TestReceiver("bb2"));
    m.AddReceiver(RespChain.TestReceiver("bb3"));
    var rs := m.ut.coll;
    assert rs == [RespChain.TestReceiver("bb1"), RespChain.TestReceiver("bb2"), RespChain.TestReceiver("bb3")];
    quit, quitReach := aa.Send(("quit", false));
    OutcomeStops(rs, "aa", ("quit", false), 1);
    broadcast, broadcastReach := aa.Send(("quit", true));
    OutcomeAllAnswer(rs, "aa", ("quit", true));
  }
}
