/** Peer exchange (BEP 11): rounds of deltas that tell a peer which peers are live. */
module Pex {
  import opened Prelude

  const MAX_SENT_PEERS: nat := 50

  type Addr = nat

  datatype PexMessage = PexMessage(added: set<Addr>, dropped: set<Addr>)

  /** What a peer believes after one more message. */
  function Replay(belief: set<Addr>, m: PexMessage): set<Addr> {
    (belief - m.dropped) + m.added
  }

  /** Any `n` members of a set, or all of them if there are fewer. */
  method TakeSome(s: set<Addr>, n: nat) returns (r: set<Addr>)
    ensures r <= s && |r| == Min(n, |s|)
  {
    r := {};
    var rest := s;
    while |r| < n && rest != {}
      invariant r + rest == s && r !! rest && |r| <= n && |r| + |rest| == |s|
      decreases rest
    {
      var a :| a in rest;
      r, rest := r + {a}, rest - {a};
    }
  }

  /** One round, as a relation: what may be sent for a given live set and what it does to our
      record of the peer's view. Only addresses that pass the filter enter the record. */
  ghost predicate Round(live: set<Addr>, passes: set<Addr>, view: set<Addr>, view': set<Addr>, m: PexMessage) {
    && m.added <= live - view && |m.added| == Min(MAX_SENT_PEERS, |live - view|)
    && m.dropped <= view - live && |m.dropped| == Min(MAX_SENT_PEERS, |view - live|)
    && view' == (view - m.dropped) + (m.added * passes)
  }

  class PexTask {
    var peerView: set<Addr>
    ghost var belief: set<Addr>   // what the peer believes after all messages so far

    constructor ()
      ensures peerView == {} && belief == {}
    {
      peerView, belief := {}, {};
    }

    /** One tick of the interval. `passes` are the addresses the locality filter accepts. A
        channel found closed ends the exchange before anything is looked at; when there is
        nothing to say no message is sent; when sending fails nothing is recorded and the
        exchange ends. */
    method SendRound(live: set<Addr>, passes: set<Addr>, channelClosed: bool, sendFails: bool)
      returns (sent: Option<PexMessage>, done: bool)
      modifies this
      ensures done <==> channelClosed || (sendFails && live != old(peerView))
      ensures sent.None? ==> peerView == old(peerView) && belief == old(belief)
      ensures sent.None? <==> done || live == old(peerView)
      ensures sent.Some? ==>
        && Round(live, passes, old(peerView), peerView, sent.value)
        && sent.value.added !! sent.value.dropped
        && sent.value != PexMessage({}, {})
        && belief == Replay(old(belief), sent.value)
    {
      if channelClosed {
        return None, true;
      }
      var connected := TakeSome(live - peerView, MAX_SENT_PEERS);
      var dropped := TakeSome(peerView - live, MAX_SENT_PEERS);
      if connected == {} && dropped == {} {
        assert live - peerView == {} && peerView - live == {};
        assert live == peerView;
        return None, false;
      }
      assert live != peerView;
      if sendFails {
        return None, true;
      }
      var m := PexMessage(connected, dropped);
      peerView := (peerView - dropped) + (connected * passes);
      belief := Replay(belief, m);
      return Some(m), false;
    }
  }

  // ---- Runs -------------------------------------------------------------------------

  datatype Tick = Tick(live: set<Addr>, message: PexMessage)

  /** `views[k]` is the record before round `k`; each round is made for that tick's live set. */
  ghost predicate Rounds(passes: set<Addr>, ticks: seq<Tick>, views: seq<set<Addr>>) {
    && |views| == |ticks| + 1
    && forall k :: 0 <= k < |ticks| ==> RoundAt(passes, ticks, views, k)
  }

  ghost predicate RoundAt(passes: set<Addr>, ticks: seq<Tick>, views: seq<set<Addr>>, k: nat)
    requires k < |ticks| && |views| == |ticks| + 1
  {
    Round(ticks[k].live, passes, views[k], views[k + 1], ticks[k].message)
  }

  ghost function Belief(start: set<Addr>, ticks: seq<Tick>): set<Addr> {
    if ticks == [] then start
    else Replay(Belief(start, ticks[..|ticks| - 1]), ticks[|ticks| - 1].message)
  }

  ghost function EverAdded(ticks: seq<Tick>): set<Addr> {
    if ticks == [] then {}
    else EverAdded(ticks[..|ticks| - 1]) + ticks[|ticks| - 1].message.added
  }

  lemma RoundsPrefix(passes: set<Addr>, ticks: seq<Tick>, views: seq<set<Addr>>, n: nat)
    requires Rounds(passes, ticks, views) && n <= |ticks|
    ensures Rounds(passes, ticks[..n], views[..n + 1])
  {
    var ts, vs := ticks[..n], views[..n + 1];
    forall k | 0 <= k < n
      ensures RoundAt(passes, ts, vs, k)
    {
      assert RoundAt(passes, ticks, views, k);
    }
  }

  /** Replaying all messages gives our record plus every rejected address that was ever sent:
      the filter acts on the record, not on what is sent, and a rejected address is never
      withdrawn. */
  lemma {:induction false} BeliefIsViewPlusRejected(passes: set<Addr>, ticks: seq<Tick>, views: seq<set<Addr>>)
    requires Rounds(passes, ticks, views) && views[0] == {}
    ensures views[|ticks|] <= passes
    ensures Belief({}, ticks) == views[|ticks|] + (EverAdded(ticks) - passes)
    decreases |ticks|
  {
    if ticks != [] {
      var last := |ticks| - 1;
      RoundsPrefix(passes, ticks, views, last);
      BeliefIsViewPlusRejected(passes, ticks[..last], views[..last + 1]);
      assert RoundAt(passes, ticks, views, last);
      BeliefStep(ticks[last].live, passes, views[last], views[last + 1], EverAdded(ticks[..last]), ticks[last].message);
    }
  }

  /** So the peer's belief is exactly the record if and only if no rejected address was sent. */
  lemma BeliefIsViewIff(passes: set<Addr>, ticks: seq<Tick>, views: seq<set<Addr>>)
    requires Rounds(passes, ticks, views) && views[0] == {}
    ensures Belief({}, ticks) == views[|ticks|] <==> EverAdded(ticks) <= passes
  {
    BeliefIsViewPlusRejected(passes, ticks, views);
    var belief, view, rejected := Belief({}, ticks), views[|ticks|], EverAdded(ticks) - passes;
    if belief == view {
      assert forall a :: a in rejected ==> a in view && a !in passes;
    }
  }

  lemma BeliefStep(live: set<Addr>, passes: set<Addr>, view: set<Addr>, view': set<Addr>, added: set<Addr>,
      m: PexMessage)
    requires Round(live, passes, view, view', m) && view <= passes
    ensures view' <= passes
    ensures Replay(view + (added - passes), m) == view' + (added + m.added - passes)
  {
    var l, r := Replay(view + (added - passes), m), view' + (added + m.added - passes);
    forall a: Addr
      ensures a in l <==> a in r
    {
      assert a in m.dropped ==> a in view && a !in live;
      assert a in m.added ==> a in live;
    }
  }

  /** A message tells only news: what it drops the peer does believe, and what it adds the peer
      believes already only if the filter rejected it when it was sent before. */
  lemma MessagesAreNews(passes: set<Addr>, ticks: seq<Tick>, views: seq<set<Addr>>, k: nat)
    requires Rounds(passes, ticks, views) && views[0] == {} && k < |ticks|
    ensures var m, believed, sent := ticks[k].message, Belief({}, ticks[..k]), EverAdded(ticks[..k]);
      m.dropped <= believed && m.added * believed == (m.added * sent) - passes
  {
    RoundsPrefix(passes, ticks, views, k);
    BeliefIsViewPlusRejected(passes, ticks[..k], views[..k + 1]);
    assert RoundAt(passes, ticks, views, k);
  }

  ghost predicate SameLive(live: set<Addr>, ticks: seq<Tick>) {
    forall k :: 0 <= k < |ticks| ==> ticks[k].live == live
  }

  /** While the live set stays the same and passes the filter, each round closes the gap by
      fifty additions and fifty removals, so it is closed after exactly as many rounds as that
      takes. */
  lemma {:induction false} GapShrinks(live: set<Addr>, passes: set<Addr>, ticks: seq<Tick>, views: seq<set<Addr>>,
      k: nat)
    requires Rounds(passes, ticks, views) && SameLive(live, ticks) && live <= passes && k <= |ticks|
    ensures |live - views[k]| == SaturatingSub(|live - views[0]|, MAX_SENT_PEERS * k)
    ensures |views[k] - live| == SaturatingSub(|views[0] - live|, MAX_SENT_PEERS * k)
  {
    if k > 0 {
      GapShrinks(live, passes, ticks, views, k - 1);
      assert RoundAt(passes, ticks, views, k - 1);
      GapAfterRound(live, passes, views[k - 1], views[k], ticks[k - 1].message);
      SaturatingTwice(|live - views[0]|, k);
      SaturatingTwice(|views[0] - live|, k);
    }
  }

  lemma SaturatingTwice(n: nat, k: nat)
    requires k > 0
    ensures SaturatingSub(SaturatingSub(n, MAX_SENT_PEERS * (k - 1)), MAX_SENT_PEERS)
         == SaturatingSub(n, MAX_SENT_PEERS * k)
  {
  }

  lemma GapAfterRound(live: set<Addr>, passes: set<Addr>, view: set<Addr>, view': set<Addr>, m: PexMessage)
    requires Round(live, passes, view, view', m) && live <= passes
    ensures |live - view'| == SaturatingSub(|live - view|, MAX_SENT_PEERS)
    ensures |view' - live| == SaturatingSub(|view - live|, MAX_SENT_PEERS)
  {
    assert live - view' == (live - view) - m.added;
    assert view' - live == (view - live) - m.dropped;
    Difference(live - view, m.added);
    Difference(view - live, m.dropped);
  }

  lemma Difference(s: set<Addr>, t: set<Addr>)
    requires t <= s
    ensures |s - t| == |s| - |t|
  {
    assert s == (s - t) + t;
  }

  lemma {:induction false} AddedAreLive(live: set<Addr>, passes: set<Addr>, ticks: seq<Tick>, views: seq<set<Addr>>)
    requires Rounds(passes, ticks, views) && SameLive(live, ticks)
    ensures EverAdded(ticks) <= live
    decreases |ticks|
  {
    if ticks != [] {
      var last := |ticks| - 1;
      RoundsPrefix(passes, ticks, views, last);
      AddedAreLive(live, passes, ticks[..last], views[..last + 1]);
      assert RoundAt(passes, ticks, views, last);
    }
  }

  // ---- Which live addresses the record reaches --------------------------------------

  /** Under a fixed live set the record never holds anything else than accepted live addresses. */
  lemma {:induction false} ViewIsAcceptedLive(live: set<Addr>, passes: set<Addr>, ticks: seq<Tick>,
      views: seq<set<Addr>>, k: nat)
    requires Rounds(passes, ticks, views) && SameLive(live, ticks) && views[0] == {} && k <= |ticks|
    ensures views[k] <= live * passes
  {
    if k > 0 {
      ViewIsAcceptedLive(live, passes, ticks, views, k - 1);
      assert RoundAt(passes, ticks, views, k - 1);
    }
  }

  /** Rejected addresses take their share of each message for ever: once the record is complete,
      messages go on and consist of rejected addresses only. */
  lemma RejectedAreResent(live: set<Addr>, passes: set<Addr>, ticks: seq<Tick>, views: seq<set<Addr>>, k: nat)
    requires Rounds(passes, ticks, views) && SameLive(live, ticks) && views[0] == {} && k < |ticks|
    ensures ticks[k].message.dropped == {}
    ensures |ticks[k].message.added| >= Min(MAX_SENT_PEERS, |live - passes|)
    ensures views[k] == live * passes ==>
      && ticks[k].message.added <= live - passes && views[k + 1] == views[k]
      && |ticks[k].message.added| == Min(MAX_SENT_PEERS, |live - passes|)
  {
    ViewIsAcceptedLive(live, passes, ticks, views, k);
    assert RoundAt(passes, ticks, views, k);
    assert views[k] - live == {};
    Smaller(live - passes, live - views[k]);
    if views[k] == live * passes {
      assert live - views[k] == live - passes;
    }
  }

  lemma Smaller(s: set<Addr>, t: set<Addr>)
    requires s <= t
    ensures |s| <= |t|
  {
    Difference(t, s);
  }

  /** A round that finds room beside the rejected addresses records at least that many accepted
      ones, or all that are missing. */
  lemma AcceptedShrinks(live: set<Addr>, passes: set<Addr>, view: set<Addr>, view': set<Addr>, m: PexMessage)
    requires Round(live, passes, view, view', m) && view <= live * passes && |live - passes| < MAX_SENT_PEERS
    ensures |live * passes - view'| <= SaturatingSub(|live * passes - view|, MAX_SENT_PEERS - |live - passes|)
  {
    var missing, rejected := live * passes - view, live - passes;
    assert live - view == missing + rejected;
    assert |live - view| == |missing| + |rejected|;
    assert m.added == m.added * passes + m.added * rejected;
    assert |m.added| == |m.added * passes| + |m.added * rejected|;
    Smaller(m.added * rejected, rejected);
    assert view - live == {};
    assert live * passes - view' == missing - m.added * passes;
    Difference(missing, m.added * passes);
  }

  /** What is left of `n` after `k` rounds with room for `room` each. */
  function Left(n: nat, k: nat, room: nat): nat {
    if k == 0 then n else SaturatingSub(Left(n, k - 1, room), room)
  }

  lemma {:induction false} LeftSpec(n: nat, k: nat, room: nat)
    ensures Left(n, k, room) == SaturatingSub(n, k * room)
  {
    if k > 0 {
      LeftSpec(n, k - 1, room);
      MulStep(k - 1, room);
    }
  }

  lemma {:induction false} AcceptedAfter(live: set<Addr>, passes: set<Addr>, ticks: seq<Tick>, views: seq<set<Addr>>,
      k: nat)
    requires Rounds(passes, ticks, views) && SameLive(live, ticks) && views[0] == {} && k <= |ticks|
    requires |live - passes| < MAX_SENT_PEERS
    ensures |live * passes - views[k]| <= Left(|live * passes|, k, MAX_SENT_PEERS - |live - passes|)
  {
    if k == 0 {
      assert live * passes - {} == live * passes;
    } else {
      AcceptedAfter(live, passes, ticks, views, k - 1);
      ShrinksAt(live, passes, ticks, views, k - 1);
    }
  }

  lemma ShrinksAt(live: set<Addr>, passes: set<Addr>, ticks: seq<Tick>, views: seq<set<Addr>>, k: nat)
    requires Rounds(passes, ticks, views) && SameLive(live, ticks) && views[0] == {} && k < |ticks|
    requires |live - passes| < MAX_SENT_PEERS
    ensures |live * passes - views[k + 1]|
         <= SaturatingSub(|live * passes - views[k]|, MAX_SENT_PEERS - |live - passes|)
  {
    ViewIsAcceptedLive(live, passes, ticks, views, k);
    assert RoundAt(passes, ticks, views, k);
    AcceptedShrinks(live, passes, views[k], views[k + 1], ticks[k].message);
  }

  /** With fewer than fifty rejected live addresses, the record reaches all accepted ones. */
  lemma ConvergesToAccepted(live: set<Addr>, passes: set<Addr>, ticks: seq<Tick>, views: seq<set<Addr>>, k: nat)
    requires Rounds(passes, ticks, views) && SameLive(live, ticks) && views[0] == {} && k <= |ticks|
    requires |live - passes| < MAX_SENT_PEERS && k * (MAX_SENT_PEERS - |live - passes|) >= |live * passes|
    ensures views[k] == live * passes
  {
    AcceptedAfter(live, passes, ticks, views, k);
    LeftSpec(|live * passes|, k, MAX_SENT_PEERS - |live - passes|);
    ViewIsAcceptedLive(live, passes, ticks, views, k);
    assert live * passes - views[k] == {};
  }

  /** In particular it reaches the whole live set, and the peer believes it, when the filter rejects
      none of it; otherwise it never does. */
  lemma ConvergesIff(live: set<Addr>, passes: set<Addr>, ticks: seq<Tick>, views: seq<set<Addr>>, k: nat)
    requires Rounds(passes, ticks, views) && SameLive(live, ticks) && views[0] == {} && k <= |ticks|
    requires MAX_SENT_PEERS * k >= |live|
    ensures views[k] == live <==> live <= passes
    ensures live <= passes ==> Belief({}, ticks[..k]) == live
  {
    ViewIsAcceptedLive(live, passes, ticks, views, k);
    if live <= passes {
      assert live - passes == {} && live * passes == live;
      ConvergesToAccepted(live, passes, ticks, views, k);
      RoundsPrefix(passes, ticks, views, k);
      AddedAreLive(live, passes, ticks[..k], views[..k + 1]);
      BeliefIsViewIff(passes, ticks[..k], views[..k + 1]);
    }
  }

  /** With fifty or more, the rejected ones may fill every message: a run of any length exists
      that records nothing at all. */
  lemma RejectedMayStarve(live: set<Addr>, passes: set<Addr>, n: nat) returns (ticks: seq<Tick>, views: seq<set<Addr>>)
    requires |live - passes| >= MAX_SENT_PEERS
    ensures |ticks| == n && Rounds(passes, ticks, views) && SameLive(live, ticks) && views[0] == {}
    ensures forall k :: 0 <= k <= n ==> views[k] == {}
  {
    var filler := Part(live - passes, MAX_SENT_PEERS);
    ticks := seq(n, _ => Tick(live, PexMessage(filler, {})));
    views := seq(n + 1, _ => {});
    forall k | 0 <= k < n
      ensures RoundAt(passes, ticks, views, k)
    {
      assert live - {} == live;
      Smaller(live - passes, live);
      assert filler * passes == {};
    }
  }

  lemma {:induction false} Part(s: set<Addr>, n: nat) returns (t: set<Addr>)
    requires n <= |s|
    ensures t <= s && |t| == n
  {
    if n == 0 {
      t := {};
    } else {
      var rest := Part(s, n - 1);
      Difference(s, rest);
      assert s - rest != {};
      var a :| a in s - rest;
      t := rest + {a};
    }
  }

  /** Every run of `k` rounds under this live set has recorded all accepted addresses. */
  ghost predicate Reaches(live: set<Addr>, passes: set<Addr>, k: nat) {
    forall ticks, views :: |ticks| == k && Rounds(passes, ticks, views) && SameLive(live, ticks) && views[0] == {} ==>
      views[k] == live * passes
  }

  /** So the accepted live addresses are reached for certain, sooner or later, if and only if fewer
      than fifty live ones are rejected (or there is none to reach). */
  lemma ReachedIff(live: set<Addr>, passes: set<Addr>)
    ensures (exists k: nat :: Reaches(live, passes, k)) <==> |live - passes| < MAX_SENT_PEERS || live * passes == {}
  {
    if |live - passes| < MAX_SENT_PEERS {
      var k := |live * passes|;
      forall ticks, views | |ticks| == k && Rounds(passes, ticks, views) && SameLive(live, ticks) && views[0] == {}
        ensures views[k] == live * passes
      {
        MulMono(1, MAX_SENT_PEERS - |live - passes|, k);
        ConvergesToAccepted(live, passes, ticks, views, k);
      }
      assert Reaches(live, passes, k);
    } else if live * passes == {} {
      forall ticks, views | |ticks| == 0 && Rounds(passes, ticks, views) && SameLive(live, ticks) && views[0] == {}
        ensures views[0] == live * passes
      {
      }
      assert Reaches(live, passes, 0);
    } else {
      forall k: nat
        ensures !Reaches(live, passes, k)
      {
        var ticks, views := RejectedMayStarve(live, passes, k);
        assert views[k] != live * passes;
      }
    }
  }
}
