/**
 * `dp::resp_chain`: a `message_chain_t` holds its receivers in the order
 * they were added and passes each message along them; a `sender_t` sends
 * through the chain it is attached to. The sender pointer a receiver is
 * handed is the sender's handle `self`; a receiver is a function of that
 * handle and the message.
 */
module RespChain {
  import opened Optional
  import opened Dispatch

  class MessageChain<S, M, R> {
    var coll: seq<(S, M) -> Option<R>>

    constructor()
      ensures coll == []
    {
      coll := [];
    }

    /** `add_receiver`: the new receiver is consulted after all earlier ones. */
    method AddReceiver(r: (S, M) -> Option<R>)
      modifies this
      ensures coll == old(coll) + [r]
    {
      coll := coll + [r];
    }

    /**
     * `send`: each receiver in turn, until one answers empty. `called` is
     * how many receivers the loop consulted.
     */
    method Send(sender: S, m: M) returns (ret: Option<R>, called: nat)
      ensures ret == Outcome(coll, sender, m)
      ensures called == Reached(coll, sender, m)
    {
      ret := None;
      var i := 0;
      while i < |coll|
        invariant 0 <= i <= |coll|
        invariant forall j :: 0 <= j < i ==> coll[j](sender, m).Some?
        invariant i > 0 ==> ret == coll[i - 1](sender, m)
        invariant i == 0 ==> ret == None
      {
        ret := coll[i](sender, m);
        i := i + 1;
        if ret.None? {
          break;
        }
      }
      called := i;
      if i > 0 {
        OutcomeAt(coll, sender, m, i);
      }
    }
  }

  class Sender<S, M, R> {
    const self: S
    var controller: MessageChain?<S, M, R>

    constructor(self: S)
      ensures this.self == self && controller == null
    {
      this.self := self;
      controller := null;
    }

    method SetController(c: MessageChain?<S, M, R>)
      modifies this
      ensures controller == c
    {
      controller := c;
    }

    /** `send` through `on_send`: the attached chain's answer, with this sender as the sender. */
    method Send(m: M) returns (ret: Option<R>, called: nat)
      requires controller != null
      ensures ret == Outcome(controller.coll, self, m)
      ensures called == Reached(controller.coll, self, m)
    {
      ret, called := controller.Send(self, m);
    }
  }

  // ------------------------------------------------------------ the chain test

  datatype StatusCode = Ok | Broadcasting

  /** A message and its broadcast flag. */
  type Msg = (string, bool)

  /** Receiver `bb2` stops a "quit" that is not a broadcast; every other case is passed on. */
  function TestReceiver(id: string): (string, Msg) -> Option<StatusCode>
  {
    (s: string, msg: Msg) =>
      if id == "bb2" && msg.0 == "quit" then (if msg.1 then Some(Broadcasting) else None)
      else Some(Ok)
  }

  /**
   * Sender `aa`, receivers `bb1`, `bb2`, `bb3`: an ordinary message reaches
   * all three, "quit" stops at `bb2`, and a broadcast "quit" reaches `bb3`.
   */
  method ChainTest() returns (plain: Option<StatusCode>, plainReach: nat,
                              quit: Option<StatusCode>, quitReach: nat,
                              broadcast: Option<StatusCode>, broadcastReach: nat)
    ensures plain == Some(Ok) && plainReach == 3
    ensures quit == None && quitReach == 2
    ensures broadcast == Some(Ok) && broadcastReach == 3
  {
    var chain := new MessageChain<string, Msg, StatusCode>();
    var aa := new Sender<string, Msg, StatusCode>("aa");
    aa.SetController(chain);
    chain.AddReceiver(TestReceiver("bb1"));
    chain.AddReceiver(TestReceiver("bb2"));
    chain.AddReceiver(TestReceiver("bb3"));
    var rs := chain.coll;
    assert rs == [TestReceiver("bb1"), TestReceiver("bb2"), TestReceiver("bb3")];
    plain, plainReach := aa.Send(("123", false));
    OutcomeAllAnswer(rs, "aa", ("123", false));
    quit, quitReach := aa.Send(("quit", false));
    OutcomeStops(rs, "aa", ("quit", false), 1);
    broadcast, broadcastReach := aa.Send(("quit", true));
    OutcomeAllAnswer(rs, "aa", ("quit", true));
  }
}
