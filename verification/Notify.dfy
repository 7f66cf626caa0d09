/** The debounced notifier as interleaved steps: touches, timer expiries, and the two halves of a fire. */
module Notify {

  /** What the publisher and the timers behind it hold. An armed timer will call fire for its uri once
      it expires; a timer that is reset is armed again even when an earlier expiry is still on its way. */
  datatype State = State(
    timers: map<string, nat>,      // the publisher's map: the timer of each uri
    armed: map<nat, string>,       // running timers, each with the uri it fires for
    firing: multiset<string>,      // expired, waiting for the lock
    sending: multiset<string>,     // out of the map, about to send
    sent: multiset<string>,        // notifications sent
    made: nat)                     // timers made so far

  datatype Event = Touch(uri: string) | Expire(timer: nat) | FireDelete(uri: string) | FireSend(uri: string) | Close

  const START: State := State(map[], map[], multiset{}, multiset{}, multiset{}, 0)

  /** One step. An event that is not enabled changes nothing. A fire sends only when a server is attached. */
  function Next(known: set<string>, attached: bool, s: State, e: Event): State {
    match e
    case Touch(u) =>
      if u !in known then s
      else if u in s.timers then s.(armed := s.armed[s.timers[u] := u])
      else s.(timers := s.timers[u := s.made], armed := s.armed[s.made := u], made := s.made + 1)
    case Expire(t) =>
      if t !in s.armed then s
      else s.(armed := s.armed - {t}, firing := s.firing + multiset{s.armed[t]})
    case FireDelete(u) =>
      if u !in s.firing then s
      else
        s.(timers := s.timers - {u}, firing := s.firing - multiset{u},
           sending := if attached then s.sending + multiset{u} else s.sending)
    case FireSend(u) =>
      if u !in s.sending then s
      else s.(sending := s.sending - multiset{u}, sent := s.sent + multiset{u})
    case Close =>
      s.(timers := map[], armed := s.armed - s.timers.Values)
  }

  function Run(known: set<string>, attached: bool, events: seq<Event>): State {
    if events == [] then START
    else Next(known, attached, Run(known, attached, events[..|events| - 1]), events[|events| - 1])
  }

  /** The map knows each uri's own timer, and a timer in the map is running or on its way. */
  ghost predicate Consistent(s: State) {
    && (forall u | u in s.timers :: s.timers[u] < s.made)
    && (forall t | t in s.armed :: t < s.made)
    && (forall u, v | u in s.timers && v in s.timers && u != v :: s.timers[u] != s.timers[v])
    && (forall u | u in s.timers && s.timers[u] in s.armed :: s.armed[s.timers[u]] == u)
    && forall u | u in s.timers && s.timers[u] !in s.armed :: u in s.firing
  }

  /** A notification for u is still to come. */
  ghost predicate Pending(s: State, u: string) {
    (exists t :: t in s.armed && s.armed[t] == u) || u in s.firing || u in s.sending
  }

  lemma RearmIsConsistent(s: State, u: string)
    requires Consistent(s) && u in s.timers
    ensures Consistent(s.(armed := s.armed[s.timers[u] := u]))
  {
  }

  lemma NewTimerIsConsistent(s: State, u: string)
    requires Consistent(s) && u !in s.timers
    ensures Consistent(s.(timers := s.timers[u := s.made], armed := s.armed[s.made := u], made := s.made + 1))
  {
  }

  lemma TouchIsConsistent(known: set<string>, s: State, u: string)
    requires Consistent(s)
    ensures Consistent(Next(known, true, s, Touch(u)))
  {
    if u in s.timers {
      RearmIsConsistent(s, u);
    } else {
      NewTimerIsConsistent(s, u);
    }
  }

  lemma FireIsConsistent(known: set<string>, attached: bool, s: State, u: string)
    requires Consistent(s)
    ensures Consistent(Next(known, attached, s, FireDelete(u)))
  {
    var n := Next(known, attached, s, FireDelete(u));
    assert forall v | v in n.timers :: v in s.timers && n.timers[v] == s.timers[v];
    assert u in s.firing ==> u !in n.timers;
  }

  lemma StepIsConsistent(known: set<string>, attached: bool, s: State, e: Event)
    requires Consistent(s)
    ensures Consistent(Next(known, attached, s, e))
  {
    match e
    case Touch(u) => TouchIsConsistent(known, s, u);
    case FireDelete(u) => FireIsConsistent(known, attached, s, u);
    case _ =>
  }

  lemma {:induction false} RunIsConsistent(known: set<string>, attached: bool, events: seq<Event>)
    ensures Consistent(Run(known, attached, events))
  {
    if events != [] {
      RunIsConsistent(known, attached, events[..|events| - 1]);
      StepIsConsistent(known, attached, Run(known, attached, events[..|events| - 1]), events[|events| - 1]);
    }
  }

  /** Only a send or Close ends a pending notification. */
  lemma StepKeepsPending(known: set<string>, s: State, e: Event, u: string)
    requires Consistent(s) && Pending(s, u) && e != Close
    ensures var n := Next(known, true, s, e); Pending(n, u) || n.sent[u] > s.sent[u]
    ensures Next(known, true, s, e).sent[u] >= s.sent[u]
  {
    if t :| t in s.armed && s.armed[t] == u {
      TimerKeepsPending(known, s, e, t);
    }
  }

  /** A running timer runs on, or its expiry is a fire on its way. */
  lemma TimerKeepsPending(known: set<string>, s: State, e: Event, t: nat)
    requires Consistent(s) && t in s.armed && e != Close
    ensures Pending(Next(known, true, s, e), s.armed[t])
  {
    var n, u := Next(known, true, s, e), s.armed[t];
    if e == Expire(t) {
      assert u in n.firing;
    } else {
      assert e.Touch? && e.uri in s.timers && s.timers[e.uri] == t ==> e.uri == u;
      assert t in n.armed && n.armed[t] == u;
    }
  }

  /** No touch is lost: until Close, a uri touched since its last send has a timer running, a fire
      waiting for the lock, or a fire about to send. */
  lemma {:induction false} NoTouchIsLost(known: set<string>, events: seq<Event>, i: nat, u: string)
    requires i < |events| && events[i] == Touch(u) && u in known
    requires forall j | i < j < |events| :: events[j] != Close
    requires Run(known, true, events).sent[u] == Run(known, true, events[..i + 1]).sent[u]
    ensures Pending(Run(known, true, events), u)
    decreases |events|
  {
    var front := events[..|events| - 1];
    RunIsConsistent(known, true, front);
    if i == |events| - 1 {
      var s := Run(known, true, front);
      var n := Next(known, true, s, events[i]);
      var t := if u in s.timers then s.timers[u] else s.made;
      assert t in n.armed && n.armed[t] == u;
    } else {
      assert front[..i + 1] == events[..i + 1];
      SentGrows(known, front, i + 1, u);
      StepSent(known, Run(known, true, front), events[|events| - 1], u);
      NoTouchIsLost(known, front, i, u);
      StepKeepsPending(known, Run(known, true, front), events[|events| - 1], u);
    }
  }

  lemma StepSent(known: set<string>, s: State, e: Event, u: string)
    ensures Next(known, true, s, e).sent[u] >= s.sent[u]
  {
  }

  lemma {:induction false} SentGrows(known: set<string>, events: seq<Event>, i: nat, u: string)
    requires i <= |events|
    ensures Run(known, true, events[..i]).sent[u] <= Run(known, true, events).sent[u]
    decreases |events|
  {
    if i < |events| {
      var front := events[..|events| - 1];
      assert front[..i] == events[..i];
      SentGrows(known, front, i, u);
    } else {
      assert events[..i] == events;
    }
  }

  /** What brings a pending notification out, one step at a time. */
  function Delivery(s: State, u: string, timer: nat): seq<Event> {
    if u in s.sending then [FireSend(u)]
    else if u in s.firing then [FireDelete(u), FireSend(u)]
    else [Expire(timer), FireDelete(u), FireSend(u)]
  }

  function Steps(known: set<string>, attached: bool, s: State, events: seq<Event>): State
    decreases |events|
  {
    if events == [] then s else Steps(known, attached, Next(known, attached, s, events[0]), events[1..])
  }

  lemma FirstStep(known: set<string>, s: State, e: Event, rest: seq<Event>)
    ensures Steps(known, true, s, [e] + rest) == Steps(known, true, Next(known, true, s, e), rest)
  {
    assert ([e] + rest)[1..] == rest;
  }

  lemma SendDelivers(known: set<string>, s: State, u: string)
    ensures u in s.sending ==> Steps(known, true, s, [FireSend(u)]).sent[u] == s.sent[u] + 1
    ensures u in s.firing ==> Steps(known, true, s, [FireDelete(u), FireSend(u)]).sent[u] == s.sent[u] + 1
  {
    FirstStep(known, s, FireSend(u), []);
    assert [FireSend(u)] == [FireSend(u)] + [];
    if u in s.firing {
      var n := Next(known, true, s, FireDelete(u));
      FirstStep(known, s, FireDelete(u), [FireSend(u)]);
      FirstStep(known, n, FireSend(u), []);
      assert [FireDelete(u), FireSend(u)] == [FireDelete(u)] + [FireSend(u)];
    }
  }

  /** A pending notification can always be delivered, without another touch. */
  lemma PendingIsDeliverable(known: set<string>, s: State, u: string)
    requires Pending(s, u)
    ensures exists t: nat :: Steps(known, true, s, Delivery(s, u, t)).sent[u] == s.sent[u] + 1
  {
    SendDelivers(known, s, u);
    var t: nat := 0;
    if u !in s.sending && u !in s.firing {
      t :| t in s.armed && s.armed[t] == u;
      var n := Next(known, true, s, Expire(t));
      FirstStep(known, s, Expire(t), [FireDelete(u), FireSend(u)]);
      assert [Expire(t), FireDelete(u), FireSend(u)] == [Expire(t)] + [FireDelete(u), FireSend(u)];
      SendDelivers(known, n, u);
    }
    assert Steps(known, true, s, Delivery(s, u, t)).sent[u] == s.sent[u] + 1;
  }

  function Touches(known: set<string>, events: seq<Event>): nat {
    if events == [] then 0
    else
      var e := events[|events| - 1];
      Touches(known, events[..|events| - 1]) + if e.Touch? && e.uri in known then 1 else 0
  }

  /** The notifications sent, on their way, or waiting for a timer. */
  function Load(s: State): nat {
    |s.sent| + |s.sending| + |s.firing| + |s.armed.Keys|
  }

  /** Every notification sent or still to come answers a touch of its own. */
  lemma {:induction false} NotificationsAreCoalesced(known: set<string>, attached: bool, events: seq<Event>)
    ensures Load(Run(known, attached, events)) <= Touches(known, events)
  {
    if events != [] {
      var front, e := events[..|events| - 1], events[|events| - 1];
      NotificationsAreCoalesced(known, attached, front);
      StepCounts(known, attached, Run(known, attached, front), e);
    }
  }

  lemma StepCounts(known: set<string>, attached: bool, s: State, e: Event)
    ensures Load(Next(known, attached, s, e)) <= Load(s) + if e.Touch? && e.uri in known then 1 else 0
  {
    match e
    case Touch(u) => TouchCounts(known, attached, s, u);
    case Expire(t) => ExpireCounts(known, attached, s, t);
    case FireDelete(u) =>
    case FireSend(u) =>
    case Close => CloseCounts(known, attached, s);
  }

  lemma TouchCounts(known: set<string>, attached: bool, s: State, u: string)
    ensures Load(Next(known, attached, s, Touch(u))) <= Load(s) + if u in known then 1 else 0
  {
    var t := if u in s.timers then s.timers[u] else s.made;
    assert s.armed[t := u].Keys == s.armed.Keys + {t};
  }

  lemma ExpireCounts(known: set<string>, attached: bool, s: State, t: nat)
    ensures Load(Next(known, attached, s, Expire(t))) <= Load(s)
  {
    assert (s.armed - {t}).Keys == s.armed.Keys - {t};
  }

  lemma CloseCounts(known: set<string>, attached: bool, s: State)
    ensures Load(Next(known, attached, s, Close)) <= Load(s)
  {
    var stopped := s.timers.Values;
    assert (s.armed - stopped).Keys == s.armed.Keys - stopped;
    assert s.armed.Keys == (s.armed.Keys - stopped) + (s.armed.Keys * stopped);
  }

  /** A touch leaves what is to come for every other uri as it was. */
  lemma TouchesOnly(known: set<string>, s: State, u: string)
    requires Consistent(s)
    ensures forall v | v != u :: Pending(Next(known, true, s, Touch(u)), v) <==> Pending(s, v)
  {
    var n, t := Next(known, true, s, Touch(u)), if u in s.timers then s.timers[u] else s.made;
    forall v | v != u ensures Pending(n, v) <==> Pending(s, v) {
      assert forall x | x != t :: (x in n.armed <==> x in s.armed) && (x in n.armed ==> n.armed[x] == s.armed[x]);
      assert t in s.armed ==> s.armed[t] == u;
    }
  }

  lemma FiresOnly(known: set<string>, attached: bool, s: State, u: string)
    requires u in s.firing
    ensures forall v | v != u :: Pending(Next(known, attached, s, FireDelete(u)), v) <==> Pending(s, v)
    ensures attached ==> Pending(Next(known, attached, s, FireDelete(u)), u)
  {
  }

  // ---- the publisher ----

  class Publisher {
    const perUri: set<string>
    const attached: bool
    var timers: map<string, nat>
    // the timers running behind it, and the fires on their way
    var armed: map<nat, string>
    var firing: multiset<string>
    var sending: multiset<string>
    var sent: multiset<string>
    var made: nat

    function View(): State
      reads this
    {
      State(timers, armed, firing, sending, sent, made)
    }

    ghost predicate Valid()
      reads this
    {
      Consistent(View())
    }

    constructor (perUri: set<string>, attached: bool)
      ensures this.perUri == perUri && this.attached == attached && View() == START && Valid()
    {
      this.perUri, this.attached := perUri, attached;
      timers, armed, made := map[], map[], 0;
      firing, sending, sent := multiset{}, multiset{}, multiset{};
    }

    /** Record that uri changed. Afterwards one timer of the map's own runs for it, so its notification
        is to come; what is to come for any other uri, and what was sent, is as before. */
    method Touch(uri: string)
      requires Valid()
      modifies this
      ensures Valid() && View() == Next(perUri, attached, old(View()), Event.Touch(uri))
      ensures uri !in perUri ==> View() == old(View())
      ensures uri in perUri ==>
        && uri in timers && timers[uri] in armed && armed[timers[uri]] == uri && Pending(View(), uri)
        && (uri in old(timers) ==> timers == old(timers) && made == old(made))
      ensures forall v | v != uri :: Pending(View(), v) <==> Pending(old(View()), v)
      ensures sent == old(sent) && firing == old(firing) && sending == old(sending)
    {
      StepIsConsistent(perUri, attached, View(), Event.Touch(uri));
      TouchesOnly(perUri, View(), uri);
      if uri !in perUri {
        return;
      }
      if uri in timers {
        armed := armed[timers[uri] := uri];
        return;
      }
      timers := timers[uri := made];
      armed := armed[made := uri];
      made := made + 1;
    }

    /** The runtime starts the callback of an expired timer. */
    method Expire(timer: nat)
      requires Valid() && timer in armed
      modifies this
      ensures Valid() && View() == Next(perUri, attached, old(View()), Event.Expire(timer))
    {
      StepIsConsistent(perUri, attached, View(), Event.Expire(timer));
      firing := firing + multiset{armed[timer]};
      armed := armed - {timer};
    }

    /** The half of fire that runs under the lock. The map forgets the uri, so a touch from now on starts
        a timer of its own instead of pushing back one that has fired; with a server attached the
        notification is still to come, and no other uri's is affected. */
    method FireDelete(uri: string)
      requires Valid() && uri in firing
      modifies this
      ensures Valid() && View() == Next(perUri, attached, old(View()), Event.FireDelete(uri))
      ensures uri !in timers && forall v | v != uri && v in old(timers) :: v in timers && timers[v] == old(timers)[v]
      ensures attached ==> Pending(View(), uri) && |sending| == old(|sending|) + 1
      ensures !attached ==> sending == old(sending)
      ensures forall v | v != uri :: Pending(View(), v) <==> Pending(old(View()), v)
      ensures sent == old(sent) && armed == old(armed)
    {
      StepIsConsistent(perUri, attached, View(), Event.FireDelete(uri));
      FiresOnly(perUri, attached, View(), uri);
      firing := firing - multiset{uri};
      timers := timers - {uri};
      if attached {
        sending := sending + multiset{uri};
      }
    }

    /** The half of fire that sends, outside the lock. */
    method FireSend(uri: string)
      requires Valid() && uri in sending
      modifies this
      ensures Valid() && View() == Next(perUri, attached, old(View()), Event.FireSend(uri))
    {
      StepIsConsistent(perUri, attached, View(), Event.FireSend(uri));
      sending := sending - multiset{uri};
      sent := sent + multiset{uri};
    }

    /** Stop every timer in the map. */
    method Close()
      requires Valid()
      modifies `timers, `armed
      ensures Valid() && View() == Next(perUri, attached, old(View()), Event.Close)
      ensures timers == map[] && armed == old(armed) - old(timers).Values
    {
      ghost var was := View();
      StopAll();
      StepIsConsistent(perUri, attached, was, Event.Close);
    }

    method StopAll()
      modifies `timers, `armed
      ensures timers == map[] && armed == old(armed) - old(timers).Values
    {
      ghost var all, running := timers, armed;
      ghost var stopped: set<nat> := {};
      assert Halting(all, timers, stopped);
      while timers != map[]
        invariant Halting(all, timers, stopped) && armed == running - stopped
        decreases timers.Keys
      {
        var uri :| uri in timers;
        HaltOne(all, timers, stopped, uri);
        stopped := stopped + {timers[uri]};
        armed := armed - {timers[uri]};
        timers := timers - {uri};
      }
      assert stopped == all.Values;
    }
  }

  /** Part of the way through Close: what has left the map has been stopped. */
  ghost predicate Halting(all: map<string, nat>, left: map<string, nat>, stopped: set<nat>) {
    && (forall u | u in left :: u in all && left[u] == all[u])
    && (forall u | u in all && u !in left :: all[u] in stopped)
    && stopped <= all.Values
  }

  lemma HaltOne(all: map<string, nat>, left: map<string, nat>, stopped: set<nat>, u: string)
    requires Halting(all, left, stopped) && u in left
    ensures Halting(all, left - {u}, stopped + {left[u]})
  {
  }
}
