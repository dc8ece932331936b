/**
 * What one `send` through a chain of receivers means, shared by
 * `dp::resp_chain::message_chain_t` and `dp::msg_disp::message_bumper_base_t`,
 * whose loops are the same: the receivers are consulted in order, an empty
 * answer stops the chain, and the answer of the last receiver consulted is
 * the result. A receiver is a function of the sender and the message.
 */
module Dispatch {
  import opened Optional

  /** The result of sending `m` from `s` along `rs`. */
  function Outcome<S, M, R>(rs: seq<(S, M) -> Option<R>>, s: S, m: M): Option<R>
    decreases |rs|
  {
    if rs == [] then None
    else if |rs| == 1 || rs[0](s, m).None? then rs[0](s, m)
    else Outcome(rs[1..], s, m)
  }

  /** How many receivers are consulted: all up to and including the first empty answer. */
  function Reached<S, M, R>(rs: seq<(S, M) -> Option<R>>, s: S, m: M): nat
    decreases |rs|
  {
    if rs == [] then 0
    else if rs[0](s, m).None? then 1
    else 1 + Reached(rs[1..], s, m)
  }

  /**
   * The first `n` receivers are consulted when every one before the `n`-th
   * answers and the `n`-th is the last or answers empty; the result is the
   * `n`-th answer.
   */
  lemma {:induction false} OutcomeAt<S, M, R>(rs: seq<(S, M) -> Option<R>>, s: S, m: M, n: nat)
    requires 0 < n <= |rs|
    requires forall j :: 0 <= j < n - 1 ==> rs[j](s, m).Some?
    requires n == |rs| || rs[n - 1](s, m).None?
    ensures Outcome(rs, s, m) == rs[n - 1](s, m)
    ensures Reached(rs, s, m) == n
    decreases n
  {
    if n > 1 {
      var tail := rs[1..];
      assert forall j :: 0 <= j < n - 2 ==> tail[j] == rs[j + 1];
      OutcomeAt(tail, s, m, n - 1);
      assert tail[n - 2] == rs[n - 1];
    }
  }

  /** With no receivers, nothing is consulted and the result is empty. */
  lemma OutcomeEmpty<S, M, R>(s: S, m: M)
    ensures Outcome<S, M, R>([], s, m) == None && Reached<S, M, R>([], s, m) == 0
  {
  }

  /**
   * The first empty answer ends the chain: no receiver after it is
   * consulted and the result is empty.
   */
  lemma OutcomeStops<S, M, R>(rs: seq<(S, M) -> Option<R>>, s: S, m: M, i: nat)
    requires i < |rs| && rs[i](s, m).None?
    requires forall j :: 0 <= j < i ==> rs[j](s, m).Some?
    ensures Outcome(rs, s, m) == None && Reached(rs, s, m) == i + 1
  {
    OutcomeAt(rs, s, m, i + 1);
  }

  /** When every receiver answers, each is consulted and the last one's answer is the result. */
  lemma OutcomeAllAnswer<S, M, R>(rs: seq<(S, M) -> Option<R>>, s: S, m: M)
    requires rs != [] && forall j :: 0 <= j < |rs| ==> rs[j](s, m).Some?
    ensures Outcome(rs, s, m) == rs[|rs| - 1](s, m) && Reached(rs, s, m) == |rs|
  {
    OutcomeAt(rs, s, m, |rs|);
  }

  /**
   * A receiver added at the end is consulted only when every earlier one
   * answered, and then its answer is the result: adding receivers never
   * changes what the earlier ones see.
   */
  lemma {:induction false} OutcomeAppend<S, M, R>(rs: seq<(S, M) -> Option<R>>, x: (S, M) -> Option<R>, s: S, m: M)
    ensures (exists j :: 0 <= j < |rs| && rs[j](s, m).None?) ==>
              Outcome(rs + [x], s, m) == None && Reached(rs + [x], s, m) == Reached(rs, s, m)
    ensures (forall j :: 0 <= j < |rs| ==> rs[j](s, m).Some?) ==>
              Outcome(rs + [x], s, m) == x(s, m) && Reached(rs + [x], s, m) == |rs| + 1
    decreases |rs|
  {
    if rs != [] {
      var xs := rs + [x];
      assert xs[0] == rs[0];
      assert xs[1..] == rs[1..] + [x];
      assert forall j :: 0 <= j < |rs| - 1 ==> rs[1..][j] == rs[j + 1];
      OutcomeAppend(rs[1..], x, s, m);
      if rs[0](s, m).Some? && exists j :: 0 <= j < |rs| && rs[j](s, m).None? {
        var j :| 0 <= j < |rs| && rs[j](s, m).None?;
        assert rs[1..][j - 1](s, m).None?;
      }
    }
  }
}
