/**
 Fan-out of commands to subscribers over bounded channels, as a system of steps: subscribe, send,
 receive, close. The two ends of a channel share one entry of `channels`.
 */
module CommandFanout {
  import opened Options

  datatype Command = Command(target: string, action: string, params: map<string, string>)

  const CAPACITY := 32

  /** One subscription: what waits in its channel and what its stream has yielded so far. */
  datatype Channel = Channel(moduleId: string, queue: seq<Command>, received: seq<Command>, open: bool)

  /** `subscribers` lists the channels still served, in order of subscription. */
  datatype State = State(channels: seq<Channel>, subscribers: seq<nat>)

  datatype Step = Subscribe(moduleId: string) | Send(cmd: Command) | Receive(chan: nat) | Close(chan: nat)

  const EMPTY: State := State([], [])

  function Ready(moduleId: string): Command {
    Command(moduleId, "ready", map[])
  }

  /** A subscriber without a module id hears every command. */
  predicate Hears(moduleId: string, cmd: Command) {
    moduleId == "" || moduleId == cmd.target
  }

  /** `try_send`: a closed channel refuses, a full one drops the command. */
  function Offered(c: Channel, cmd: Command): Channel {
    if c.open && |c.queue| < CAPACITY then c.(queue := c.queue + [cmd]) else c
  }

  /** Is the subscriber dropped from the list by this command? */
  predicate Dropped(c: Channel, cmd: Command) {
    Hears(c.moduleId, cmd) && !c.open
  }

  ghost predicate Valid(s: State) {
    && (forall i :: 0 <= i < |s.subscribers| ==> s.subscribers[i] < |s.channels|)
    && (forall i, j :: 0 <= i < j < |s.subscribers| ==> s.subscribers[i] != s.subscribers[j])
  }

  function ChannelsAfterSend(channels: seq<Channel>, subscribers: seq<nat>, cmd: Command): (r: seq<Channel>)
    ensures |r| == |channels|
  {
    seq(|channels|, i requires 0 <= i < |channels| =>
      if i in subscribers && Hears(channels[i].moduleId, cmd) then Offered(channels[i], cmd) else channels[i])
  }

  function Retained(channels: seq<Channel>, subscribers: seq<nat>, cmd: Command): seq<nat>
    requires forall i :: i in subscribers ==> i < |channels|
  {
    if subscribers == [] then []
    else
      var n := |subscribers| - 1;
      assert subscribers[n] in subscribers && forall i :: i in subscribers[..n] ==> i in subscribers;
      Retained(channels, subscribers[..n], cmd) +
      if Dropped(channels[subscribers[n]], cmd) then [] else [subscribers[n]]
  }

  /** The number in the response: subscribers that hear the command and are open, full or not. */
  function Delivered(channels: seq<Channel>, subscribers: seq<nat>, cmd: Command): nat
    requires forall i :: i in subscribers ==> i < |channels|
  {
    if subscribers == [] then 0
    else
      var n := |subscribers| - 1;
      assert subscribers[n] in subscribers && forall i :: i in subscribers[..n] ==> i in subscribers;
      var c := channels[subscribers[n]];
      Delivered(channels, subscribers[..n], cmd) + if Hears(c.moduleId, cmd) && c.open then 1 else 0
  }

  function Received(c: Channel): Channel {
    if c.open && c.queue != [] then c.(queue := c.queue[1..], received := c.received + [c.queue[0]]) else c
  }

  /** Dropping the receiver discards what still waits. */
  function Closed(c: Channel): Channel {
    c.(queue := [], open := false)
  }

  function Stepped(s: State, step: Step): State
    requires Valid(s)
  {
    match step
    case Subscribe(m) =>
      State(s.channels + [Channel(m, [Ready(m)], [], true)], s.subscribers + [|s.channels|])
    case Send(cmd) =>
      State(ChannelsAfterSend(s.channels, s.subscribers, cmd), Retained(s.channels, s.subscribers, cmd))
    case Receive(i) =>
      if i < |s.channels| then s.(channels := s.channels[i := Received(s.channels[i])]) else s
    case Close(i) =>
      if i < |s.channels| then s.(channels := s.channels[i := Closed(s.channels[i])]) else s
  }

  class ControlService {
    var channels: seq<Channel>
    var subscribers: seq<nat>

    constructor ()
      ensures Value() == EMPTY
    {
      channels, subscribers := [], [];
    }

    function Value(): State
      reads this
    {
      State(channels, subscribers)
    }

    method SubscribeCommands(moduleId: string) returns (chan: nat)
      requires Valid(Value())
      modifies this
      ensures Valid(Value()) && Value() == Stepped(old(Value()), Subscribe(moduleId))
      ensures chan == |old(channels)|
    {
      chan := |channels|;
      var channel := Channel(moduleId, [], [], true);
      channel := Offered(channel, Ready(moduleId));
      assert channel.queue == [Ready(moduleId)];
      channels := channels + [channel];
      subscribers := subscribers + [chan];
    }

    /** Walks the subscribers once, offering the command and keeping those not found closed. */
    method SendCommand(cmd: Command) returns (delivered: nat)
      requires Valid(Value())
      modifies this
      ensures Valid(Value()) && Value() == Stepped(old(Value()), Send(cmd))
      ensures delivered == Delivered(old(channels), old(subscribers), cmd)
    {
      ghost var before := channels;
      var kept: seq<nat> := [];
      delivered := 0;
      assert subscribers[..0] == [];
      for i := 0 to |subscribers|
        invariant subscribers == old(subscribers) && |channels| == |before|
        invariant channels == ChannelsAfterSend(before, subscribers[..i], cmd)
        invariant kept == Retained(before, subscribers[..i], cmd)
        invariant delivered == Delivered(before, subscribers[..i], cmd)
      {
        var chan := subscribers[i];
        assert subscribers[..i + 1][..i] == subscribers[..i];
        assert subscribers[..i + 1] == subscribers[..i] + [chan];
        OneMoreOffer(before, subscribers[..i], chan, cmd);
        if Hears(channels[chan].moduleId, cmd) {
          if !channels[chan].open {
            // the receiver is gone: the subscriber is not kept
          } else {
            if |channels[chan].queue| < CAPACITY {
              channels := channels[chan := channels[chan].(queue := channels[chan].queue + [cmd])];
            }
            delivered := delivered + 1;
            kept := kept + [chan];
          }
        } else {
          kept := kept + [chan];
        }
      }
      assert subscribers[..|subscribers|] == subscribers;
      RetainedIsValid(before, subscribers, cmd);
      subscribers := kept;
    }

    /** The stream's side: the next command, if one waits. */
    method ReceiveNext(chan: nat) returns (cmd: Option<Command>)
      requires Valid(Value()) && chan < |channels|
      modifies this
      ensures Valid(Value()) && Value() == Stepped(old(Value()), Receive(chan))
      ensures cmd == if old(channels[chan].open && channels[chan].queue != [])
        then Some(old(channels[chan]).queue[0]) else None
    {
      var c := channels[chan];
      if c.open && c.queue != [] {
        cmd := Some(c.queue[0]);
        channels := channels[chan := c.(queue := c.queue[1..], received := c.received + [c.queue[0]])];
      } else {
        cmd := None;
      }
    }

    /** The stream is dropped. */
    method CloseStream(chan: nat)
      requires Valid(Value()) && chan < |channels|
      modifies this
      ensures Valid(Value()) && Value() == Stepped(old(Value()), Close(chan))
    {
      channels := channels[chan := channels[chan].(queue := [], open := false)];
    }
  }

  lemma OneMoreOffer(channels: seq<Channel>, subscribers: seq<nat>, chan: nat, cmd: Command)
    requires chan < |channels| && chan !in subscribers
    ensures var now := ChannelsAfterSend(channels, subscribers, cmd);
      && now[chan] == channels[chan]
      && ChannelsAfterSend(channels, subscribers + [chan], cmd) ==
        now[chan := if Hears(channels[chan].moduleId, cmd) then Offered(channels[chan], cmd) else channels[chan]]
  {
  }

  /** What a send keeps is a valid list again: exactly the subscribers it does not drop. */
  lemma {:induction false} RetainedIsValid(channels: seq<Channel>, subscribers: seq<nat>, cmd: Command)
    requires Valid(State(channels, subscribers))
    ensures var kept := Retained(channels, subscribers, cmd);
      && Valid(State(channels, kept))
      && forall i :: i in kept <==>
           i in subscribers && (channels[i].open || (channels[i].moduleId != "" && channels[i].moduleId != cmd.target))
  {
    if subscribers != [] {
      var n := |subscribers| - 1;
      assert subscribers == subscribers[..n] + [subscribers[n]];
      RetainedIsValid(channels, subscribers[..n], cmd);
    }
  }

  lemma StepStaysValid(s: State, step: Step)
    requires Valid(s)
    ensures Valid(Stepped(s, step))
  {
    if step.Send? {
      RetainedIsValid(s.channels, s.subscribers, step.cmd);
    }
  }

  ghost function Run(steps: seq<Step>): (s: State)
    ensures Valid(s)
  {
    if steps == [] then EMPTY
    else
      var s := Run(steps[..|steps| - 1]);
      StepStaysValid(s, steps[|steps| - 1]);
      Stepped(s, steps[|steps| - 1])
  }

  // ---- The reference: a log that never loses what it took, and a cursor

  datatype Reader = Absent | Reader(moduleId: string, log: seq<Command>, taken: nat, open: bool)

  function Subscriptions(steps: seq<Step>): nat {
    if steps == [] then 0
    else Subscriptions(steps[..|steps| - 1]) + if steps[|steps| - 1].Subscribe? then 1 else 0
  }

  function Waiting(r: Reader): int
    requires r.Reader?
  {
    |r.log| - r.taken
  }

  /** Subscription `i`, told from the steps alone. */
  function ReaderOf(steps: seq<Step>, i: nat): Reader {
    if steps == [] then Absent
    else
      var init := steps[..|steps| - 1];
      var r := ReaderOf(init, i);
      match steps[|steps| - 1]
      case Subscribe(m) => if Subscriptions(init) == i then Reader(m, [Ready(m)], 0, true) else r
      case Send(cmd) =>
        if r.Reader? && r.open && (r.moduleId == "" || r.moduleId == cmd.target) && Waiting(r) < CAPACITY
        then r.(log := r.log + [cmd]) else r
      case Receive(c) =>
        if c == i && r.Reader? && r.open && Waiting(r) > 0 then r.(taken := r.taken + 1) else r
      case Close(c) => if c == i && r.Reader? then r.(open := false) else r
  }

  ghost predicate Represents(c: Channel, r: Reader) {
    && r.Reader? && r.taken <= |r.log| && r.moduleId == c.moduleId && r.open == c.open
    && c.received == r.log[..r.taken]
    && (if c.open then c.queue == r.log[r.taken..] && |c.queue| <= 32 else c.queue == [])
  }

  lemma StepRepresents(s: State, step: Step, i: nat, r: Reader, r': Reader)
    requires Valid(s) && i < |s.channels| && Represents(s.channels[i], r) && (s.channels[i].open ==> i in s.subscribers)
    requires r' == match step
      case Subscribe(_) => r
      case Send(cmd) =>
        if r.open && (r.moduleId == "" || r.moduleId == cmd.target) && Waiting(r) < CAPACITY
        then r.(log := r.log + [cmd]) else r
      case Receive(c) => if c == i && r.open && Waiting(r) > 0 then r.(taken := r.taken + 1) else r
      case Close(c) => if c == i then r.(open := false) else r
    ensures i < |Stepped(s, step).channels| && Represents(Stepped(s, step).channels[i], r')
    ensures Stepped(s, step).channels[i].open ==> i in Stepped(s, step).subscribers
  {
    match step {
      case Subscribe(m) =>
      case Send(cmd) =>
        RetainedIsValid(s.channels, s.subscribers, cmd);
        assert s.channels[i].open ==> (r.log + [cmd])[r.taken..] == r.log[r.taken..] + [cmd];
      case Receive(c) =>
        if c == i && r.open && Waiting(r) > 0 {
          assert r.log[..r.taken + 1] == r.log[..r.taken] + [r.log[r.taken]];
          assert r.log[r.taken..][1..] == r.log[r.taken + 1..];
        }
      case Close(c) =>
    }
  }

  /**
   Over any run, what a subscriber has received is the part of its log before the cursor, what waits in its channel is
   the rest, or nothing once it is closed, and an open subscriber is still served.
   */
  lemma {:induction false} ChannelsRefineLogs(steps: seq<Step>, i: nat)
    ensures |Run(steps).channels| == Subscriptions(steps)
    ensures i < Subscriptions(steps) ==> Represents(Run(steps).channels[i], ReaderOf(steps, i))
    ensures i < Subscriptions(steps) && Run(steps).channels[i].open ==> i in Run(steps).subscribers
    ensures i >= Subscriptions(steps) ==> ReaderOf(steps, i) == Absent
  {
    if steps != [] {
      var init, step := steps[..|steps| - 1], steps[|steps| - 1];
      ChannelsRefineLogs(init, i);
      if i < Subscriptions(init) {
        StepRepresents(Run(init), step, i, ReaderOf(init, i), ReaderOf(steps, i));
      }
    }
  }

  // ---- What the log contains

  /** The commands sent to subscription `i` while it was open. */
  function Addressed(steps: seq<Step>, i: nat): seq<Command> {
    if steps == [] then []
    else
      var init := steps[..|steps| - 1];
      var r := ReaderOf(init, i);
      match steps[|steps| - 1]
      case Send(cmd) =>
        Addressed(init, i) + if r.Reader? && r.open && (r.moduleId == "" || r.moduleId == cmd.target) then [cmd] else []
      case _ => Addressed(init, i)
  }

  /** The positions in `Addressed` of the commands that found the channel full. */
  function Missed(steps: seq<Step>, i: nat): set<nat> {
    if steps == [] then {}
    else
      var init := steps[..|steps| - 1];
      var r := ReaderOf(init, i);
      match steps[|steps| - 1]
      case Send(cmd) =>
        Missed(init, i) +
        if r.Reader? && r.open && (r.moduleId == "" || r.moduleId == cmd.target) && Waiting(r) >= CAPACITY
        then {|Addressed(init, i)|} else {}
      case _ => Missed(init, i)
  }

  /** `cmds` without the positions in `missed`. */
  function Skipping(cmds: seq<Command>, missed: set<nat>): seq<Command> {
    if cmds == [] then []
    else Skipping(cmds[..|cmds| - 1], missed) + if |cmds| - 1 in missed then [] else [cmds[|cmds| - 1]]
  }

  lemma {:induction false} SkippingIgnores(cmds: seq<Command>, missed: set<nat>, p: nat)
    requires p >= |cmds|
    ensures Skipping(cmds, missed + {p}) == Skipping(cmds, missed)
  {
    if cmds != [] {
      SkippingIgnores(cmds[..|cmds| - 1], missed, p);
    }
  }

  lemma SkippingAppend(cmds: seq<Command>, missed: set<nat>, cmd: Command)
    requires forall p :: p in missed ==> p < |cmds|
    ensures Skipping(cmds + [cmd], missed) == Skipping(cmds, missed) + [cmd]
    ensures Skipping(cmds + [cmd], missed + {|cmds|}) == Skipping(cmds, missed)
  {
    assert (cmds + [cmd])[..|cmds|] == cmds;
    SkippingIgnores(cmds, missed, |cmds|);
  }

  /**
   The log is "ready" followed, in sending order, by the commands addressed to the subscriber since it
   subscribed, missing only those that found it with 32 commands waiting.
   */
  lemma {:induction false} LogIsReadyThenAddressed(steps: seq<Step>, i: nat)
    ensures forall p :: p in Missed(steps, i) ==> p < |Addressed(steps, i)|
    ensures var r := ReaderOf(steps, i);
      if r.Absent? then Addressed(steps, i) == [] && Missed(steps, i) == {}
      else r.log == [Command(r.moduleId, "ready", map[])] + Skipping(Addressed(steps, i), Missed(steps, i))
  {
    if steps != [] {
      var init, step := steps[..|steps| - 1], steps[|steps| - 1];
      LogIsReadyThenAddressed(init, i);
      ChannelsRefineLogs(init, i);
      var r := ReaderOf(init, i);
      match step {
        case Subscribe(m) =>
          assert [Ready(m)] + Skipping([], {}) == [Ready(m)];
        case Send(cmd) =>
          assert Missed(init, i) + {} == Missed(init, i);
          if r.Reader? {
            SkippingAppend(Addressed(init, i), Missed(init, i), cmd);
            var kept := Skipping(Addressed(init, i), Missed(init, i));
            assert r.log + [cmd] == [Ready(r.moduleId)] + (kept + [cmd]);
            assert Addressed(init, i) + [] == Addressed(init, i);
          }
        case _ =>
      }
    }
  }

  lemma {:induction false} SkippingNothing(cmds: seq<Command>, missed: set<nat>)
    requires forall p :: p in missed ==> p < |cmds|
    ensures |Skipping(cmds, missed)| <= |cmds|
    ensures missed == {} ==> Skipping(cmds, missed) == cmds
    ensures missed != {} ==> |Skipping(cmds, missed)| < |cmds|
  {
    if cmds != [] {
      var n := |cmds| - 1;
      var rest := missed - {n};
      SkippingNothing(cmds[..n], rest);
      SkippingIgnores(cmds[..n], rest, n);
      if n in missed {
        assert rest + {n} == missed;
      } else {
        assert rest == missed;
      }
      assert cmds == cmds[..n] + [cmds[n]];
    }
  }

  /** An open subscriber has everything addressed to it, received or waiting, if and only if it was never found full. */
  lemma CompleteUnlessFull(steps: seq<Step>, i: nat)
    requires i < |Run(steps).channels| && Run(steps).channels[i].open
    ensures var c := Run(steps).channels[i];
      c.received + c.queue == [Command(c.moduleId, "ready", map[])] + Addressed(steps, i) <==> Missed(steps, i) == {}
  {
    HoldsItsLog(steps, i);
    LogIsReadyThenAddressed(steps, i);
    SkippingNothing(Addressed(steps, i), Missed(steps, i));
    SameHead(Ready(Run(steps).channels[i].moduleId), Skipping(Addressed(steps, i), Missed(steps, i)), Addressed(steps, i));
  }

  lemma HoldsItsLog(steps: seq<Step>, i: nat)
    requires i < |Run(steps).channels| && Run(steps).channels[i].open
    ensures var c, r := Run(steps).channels[i], ReaderOf(steps, i);
      r.Reader? && r.moduleId == c.moduleId && c.received + c.queue == r.log
  {
    ChannelsRefineLogs(steps, i);
    var r := ReaderOf(steps, i);
    assert r.log[..r.taken] + r.log[r.taken..] == r.log;
  }

  lemma SameHead(c: Command, a: seq<Command>, b: seq<Command>)
    ensures [c] + a == [c] + b <==> a == b
  {
    assert ([c] + a)[1..] == a && ([c] + b)[1..] == b;
  }

  // ---- The reported number

  function Hearers(channels: seq<Channel>, subscribers: seq<nat>, cmd: Command): set<nat> {
    set i | i in subscribers && i < |channels| && channels[i].open
      && (channels[i].moduleId == "" || channels[i].moduleId == cmd.target)
  }

  lemma {:induction false} DeliveredCounts(channels: seq<Channel>, subscribers: seq<nat>, cmd: Command)
    requires Valid(State(channels, subscribers))
    ensures Delivered(channels, subscribers, cmd) == |Hearers(channels, subscribers, cmd)|
  {
    if subscribers == [] {
      assert Hearers(channels, subscribers, cmd) == {};
    } else {
      var n := |subscribers| - 1;
      var init, last := subscribers[..n], subscribers[n];
      assert Valid(State(channels, init)) && last !in init;
      DeliveredCounts(channels, init, cmd);
      HearersNext(channels, init, last, cmd);
      assert subscribers == init + [last];
    }
  }

  lemma HearersNext(channels: seq<Channel>, init: seq<nat>, last: nat, cmd: Command)
    requires last < |channels| && last !in init
    ensures |Hearers(channels, init + [last], cmd)| == |Hearers(channels, init, cmd)| +
      if channels[last].open && (channels[last].moduleId == "" || channels[last].moduleId == cmd.target) then 1 else 0
  {
    var before, after := Hearers(channels, init, cmd), Hearers(channels, init + [last], cmd);
    if channels[last].open && (channels[last].moduleId == "" || channels[last].moduleId == cmd.target) {
      assert after == before + {last};
    } else {
      assert after == before;
    }
  }

  /** A send reports every open subscriber that hears the command as delivered, even those that drop it. */
  lemma FullSubscribersCount(steps: seq<Step>, cmd: Command)
    ensures var s := Run(steps);
      Delivered(s.channels, s.subscribers, cmd) ==
        |set i | 0 <= i < |s.channels| && s.channels[i].open
           && (s.channels[i].moduleId == "" || s.channels[i].moduleId == cmd.target)|
  {
    var s := Run(steps);
    DeliveredCounts(s.channels, s.subscribers, cmd);
    forall i: nat | i < |s.channels| && s.channels[i].open ensures i in s.subscribers {
      ChannelsRefineLogs(steps, i);
    }
    assert Hearers(s.channels, s.subscribers, cmd) ==
      (set i | 0 <= i < |s.channels| && s.channels[i].open
         && (s.channels[i].moduleId == "" || s.channels[i].moduleId == cmd.target));
  }

  /**
   At any point of a run a send appends the command to every open channel that has room and is without a module id or
   that of the target's module, and leaves every other channel as it was. Closed subscribers it finds so are dropped.
   */
  lemma SendReachesExactly(steps: seq<Step>, cmd: Command, i: nat)
    requires i < |Run(steps).channels|
    ensures |Run(steps + [Send(cmd)]).channels| == |Run(steps).channels|
    ensures var c := Run(steps).channels[i];
      Run(steps + [Send(cmd)]).channels[i] ==
        if c.open && |c.queue| < 32 && (c.moduleId == "" || c.moduleId == cmd.target)
        then Channel(c.moduleId, c.queue + [cmd], c.received, true) else c
    ensures var c := Run(steps).channels[i];
      i in Run(steps + [Send(cmd)]).subscribers <==>
        i in Run(steps).subscribers && (c.open || (c.moduleId != "" && c.moduleId != cmd.target))
  {
    assert (steps + [Send(cmd)])[..|steps|] == steps;
    ChannelsRefineLogs(steps, i);
    RetainedIsValid(Run(steps).channels, Run(steps).subscribers, cmd);
  }
}
