/** The progress bus: buffered channels, publishers that hold the lock shared and never block, and
    subscriptions that come and go under the exclusive lock. Publishes may overlap; each is a step
    per subscriber, in any order. */
module EventBus {
  import opened Bytes

  const DEFAULT_BUFFER: nat := 32

  /** A Go channel used one way. */
  datatype Queue<T> = Queue(cap: nat, open: bool, buffer: seq<T>) {
    /** A send that gives up when the buffer is full. */
    function Offer(e: T): Queue<T> { if |buffer| < cap then this.(buffer := buffer + [e]) else this }
  }

  /** The event has gone to every open channel but those in `pending`. */
  function Published<T>(queues: map<nat, Queue<T>>, pending: set<nat>, e: T): map<nat, Queue<T>> {
    map c | c in queues :: if queues[c].open && c !in pending then queues[c].Offer(e) else queues[c]
  }

  lemma PublishedMore<T>(queues: map<nat, Queue<T>>, pending: set<nat>, c: nat, e: T)
    requires c in queues && c in pending && Published(queues, pending, e)[c].open
    ensures Published(queues, pending - {c}, e) == Published(queues, pending, e)[c := Published(queues, pending, e)[c].Offer(e)]
  {}

  /** Subscribe and Publish as they change the bus. Channels are named by numbers. */
  class Bus<T> {
    var queues: map<nat, Queue<T>>
    var subs: set<nat>
    var next: nat

    /** Subscribed channels are open; numbers are not used again. */
    ghost predicate Valid()
      reads this
    {
      && (forall c :: c in subs <==> c in queues && queues[c].open)
      && (forall c :: c in queues ==> c < next && queues[c].cap > 0 && |queues[c].buffer| <= queues[c].cap)
    }

    constructor ()
      ensures Valid() && queues == map[] && subs == {}
    {
      queues, subs, next := map[], {}, 0;
    }

    method Subscribe(buffer: int) returns (c: nat)
      requires Valid()
      modifies this
      ensures Valid() && c !in old(queues)
      ensures queues == old(queues)[c := Queue(if buffer <= 0 then DEFAULT_BUFFER else buffer, true, [])]
    {
      c := next;
      queues := queues[c := Queue(if buffer <= 0 then DEFAULT_BUFFER else buffer, true, [])];
      subs, next := subs + {c}, next + 1;
    }

    /** The function Subscribe returns; calling it again does nothing. */
    method Unsubscribe(c: nat)
      requires Valid() && c in queues
      modifies this
      ensures Valid() && queues == old(queues)[c := old(queues)[c].(open := false)]
    {
      if c in subs {
        subs := subs - {c};
        queues := queues[c := queues[c].(open := false)];
      }
    }

    /** One event to every open channel that has room, in any order; nothing else changes, and no
        closed channel is touched. */
    method Publish(e: T)
      requires Valid()
      modifies this`queues
      ensures Valid()
      ensures queues == Published(old(queues), {}, e)
    {
      var pending := subs;
      ghost var before := queues;
      while pending != {}
        invariant pending <= subs && Valid()
        invariant queues == Published(before, pending, e)
        decreases |pending|
      {
        var c :| c in pending;
        PublishedMore(before, pending, c, e);
        queues := queues[c := queues[c].Offer(e)];
        pending := pending - {c};
      }
    }

    method Receive(c: nat) returns (e: Option<T>)
      requires Valid() && c in queues
      modifies this`queues
      ensures Valid()
      ensures var q := old(queues)[c];
        if q.buffer == [] then e == None && queues == old(queues)
        else e == Some(q.buffer[0]) && queues == old(queues)[c := q.(buffer := q.buffer[1..])]
    {
      var q := queues[c];
      if q.buffer == [] {
        return None;
      }
      queues := queues[c := q.(buffer := q.buffer[1..])];
      return Some(q.buffer[0]);
    }
  }

  // ---------- every interleaving ----------

  /** A call of Publish, in the order they started. `pending` holds the channels it has yet to visit;
      the times are step numbers. */
  datatype Pub = Pub(started: nat, ended: Option<nat>, pending: set<nat>)

  /** A subscription. Events are named by their publish. `offered` and `lost` are history: what was
      sent to the channel, and whether a send found it full; `born` and `died` count the publishes
      before the subscription and before its end. */
  datatype Chan = Chan(queue: Queue<nat>, received: seq<nat>, offered: seq<nat>, lost: bool, born: nat, died: Option<nat>) {
    function Sent(p: nat): Chan {
      this.(queue := queue.Offer(p), offered := offered + [p], lost := lost || |queue.buffer| >= queue.cap)
    }
    /** Received, then still buffered. */
    function Seen(): seq<nat> { received + queue.buffer }
  }

  /** `panicked`: a send on a closed channel. */
  datatype State = State(clock: nat, pubs: seq<Pub>, chans: map<nat, Chan>, panicked: bool)

  datatype Event =
    | Begin                       // Publish takes the lock shared and starts to range over the subscribers
    | Visit(p: nat, c: nat)       // and sends to one of them
    | End(p: nat)                 // and is done
    | Sub(c: nat, buffer: int)
    | Unsub(c: nat)
    | Recv(c: nat)

  predicate Idle(s: State) { forall p :: 0 <= p < |s.pubs| ==> s.pubs[p].ended.Some? }

  /** What the RWMutex and the language allow: a writer waits for all readers. */
  predicate Enabled(s: State, e: Event) {
    match e
    case Begin => true
    case Visit(p, c) => p < |s.pubs| && s.pubs[p].ended.None? && c in s.pubs[p].pending
    case End(p) => p < |s.pubs| && s.pubs[p].ended.None? && s.pubs[p].pending == {}
    case Sub(c, _) => Idle(s) && c !in s.chans
    case Unsub(c) => Idle(s) && c in s.chans
    case Recv(c) => c in s.chans && s.chans[c].queue.buffer != []
  }

  function Open(s: State): set<nat> { set c | c in s.chans && s.chans[c].queue.open }

  function Step(s: State, e: Event): State
    requires Enabled(s, e)
  {
    var now := s.clock + 1;
    match e
    case Begin => s.(clock := now, pubs := s.pubs + [Pub(now, None, Open(s))])
    case Visit(p, c) =>
      var pubs := s.pubs[p := s.pubs[p].(pending := s.pubs[p].pending - {c})];
      if c !in s.chans || !s.chans[c].queue.open then s.(clock := now, pubs := pubs, panicked := true)
      else s.(clock := now, pubs := pubs, chans := s.chans[c := s.chans[c].Sent(p)])
    case End(p) => s.(clock := now, pubs := s.pubs[p := s.pubs[p].(ended := Some(now))])
    case Sub(c, buffer) =>
      s.(clock := now, chans := s.chans[c := Chan(Queue(if buffer <= 0 then DEFAULT_BUFFER else buffer, true, []), [], [], false, |s.pubs|, None)])
    case Unsub(c) =>
      var ch := s.chans[c];
      if !ch.queue.open then s.(clock := now)
      else s.(clock := now, chans := s.chans[c := ch.(queue := ch.queue.(open := false), died := Some(|s.pubs|))])
    case Recv(c) =>
      var ch := s.chans[c];
      s.(clock := now, chans := s.chans[c := ch.(queue := ch.queue.(buffer := ch.queue.buffer[1..]), received := ch.received + [ch.queue.buffer[0]])])
  }

  ghost predicate Subsequence(a: seq<nat>, b: seq<nat>)
    decreases |b|
  {
    if b == [] then a == []
    else Subsequence(a, b[..|b| - 1]) || (a != [] && a[|a| - 1] == b[|b| - 1] && Subsequence(a[..|a| - 1], b[..|b| - 1]))
  }

  /** Publish `p` was over before `q` began. */
  predicate Before(s: State, p: nat, q: nat) {
    p < |s.pubs| && q < |s.pubs| && s.pubs[p].ended.Some? && s.pubs[p].ended.value < s.pubs[q].started
  }

  /** The publishes that belong to a subscription: from `born` up to here. */
  function Limit(s: State, ch: Chan): nat { if ch.died.Some? then ch.died.value else |s.pubs| }

  ghost predicate ChanOk(s: State, c: nat)
    requires c in s.chans
  {
    var ch := s.chans[c];
    && ch.queue.cap > 0 && |ch.queue.buffer| <= ch.queue.cap
    && ch.born <= Limit(s, ch) <= |s.pubs| && (ch.queue.open <==> ch.died.None?)
    && Subsequence(ch.Seen(), ch.offered) && (!ch.lost ==> ch.Seen() == ch.offered)
    && OfferedOk(s, c, ch.offered, ch.born, Limit(s, ch))
  }

  /** Each publish goes to the channel at most once, none before the subscription or after its end,
      none in between is missed, and none overtakes one that ended before it began. */
  ghost predicate OfferedOk(s: State, c: nat, offered: seq<nat>, born: nat, limit: nat) {
    && (forall i :: 0 <= i < |offered| ==> born <= offered[i] < limit <= |s.pubs| && c !in s.pubs[offered[i]].pending)
    && (forall i, j :: 0 <= i < j < |offered| ==> offered[i] != offered[j] && !Before(s, offered[j], offered[i]))
    && (forall p :: born <= p < limit && p < |s.pubs| && c !in s.pubs[p].pending ==> p in offered)
  }

  ghost predicate PubOk(s: State, p: nat)
    requires p < |s.pubs|
  {
    var pub := s.pubs[p];
    && pub.started <= s.clock
    && (forall c :: c in pub.pending ==> c in s.chans && s.chans[c].queue.open && s.chans[c].born <= p)
    && (pub.ended.Some? ==> pub.ended.value <= s.clock && pub.pending == {})
  }

  ghost predicate Inv(s: State) {
    && !s.panicked
    && (forall p :: 0 <= p < |s.pubs| ==> PubOk(s, p))
    && (forall c :: c in s.chans ==> ChanOk(s, c))
  }

  // ---------- the steps ----------

  /** Times and pending sets decide what OfferedOk says; it survives if they do. */
  lemma OfferedStays(s: State, s': State, c: nat, offered: seq<nat>, born: nat, limit: nat)
    requires OfferedOk(s, c, offered, born, limit) && |s.pubs| <= |s'.pubs|
    requires forall p :: 0 <= p < |s.pubs| ==> (c in s.pubs[p].pending <==> c in s'.pubs[p].pending)
    requires forall p, q :: 0 <= p < |s.pubs| && 0 <= q < |s.pubs| && Before(s', p, q) ==> Before(s, p, q)
    requires limit <= |s.pubs|
    ensures OfferedOk(s', c, offered, born, limit)
  {}

  lemma BeginKeepsInv(s: State)
    requires Inv(s)
    ensures Inv(Step(s, Begin))
  {
    var s' := Step(s, Begin);
    forall p | 0 <= p < |s'.pubs|
      ensures PubOk(s', p)
    {
      assert p < |s.pubs| ==> PubOk(s, p);
    }
    forall c | c in s'.chans
      ensures ChanOk(s', c)
    {
      assert ChanOk(s, c);
      var ch := s.chans[c];
      OfferedStays(s, s', c, ch.offered, ch.born, Limit(s, ch));
    }
  }

  lemma EndKeepsInv(s: State, p: nat)
    requires Inv(s) && Enabled(s, End(p))
    ensures Inv(Step(s, End(p)))
  {
    var s' := Step(s, End(p));
    forall q | 0 <= q < |s'.pubs|
      ensures PubOk(s', q)
    {
      assert PubOk(s, q);
    }
    forall c | c in s'.chans
      ensures ChanOk(s', c)
    {
      assert ChanOk(s, c);
      var ch := s.chans[c];
      forall a, b | 0 <= a < |s.pubs| && 0 <= b < |s.pubs| && Before(s', a, b)
        ensures Before(s, a, b)
      {
        assert PubOk(s, b);
      }
      OfferedStays(s, s', c, ch.offered, ch.born, Limit(s, ch));
    }
  }

  /** A send to an open channel: what is seen and what was offered grow together, or nothing is seen
      of it. */
  lemma SentKeepsOrder(ch: Chan, p: nat)
    requires Subsequence(ch.Seen(), ch.offered) && (!ch.lost ==> ch.Seen() == ch.offered)
    ensures Subsequence(ch.Sent(p).Seen(), ch.Sent(p).offered) && (!ch.Sent(p).lost ==> ch.Sent(p).Seen() == ch.Sent(p).offered)
  {
    var a, b := ch.Seen(), ch.offered;
    assert (b + [p])[..|b|] == b && (a + [p])[..|a|] == a;
    assert ch.received + (ch.queue.buffer + [p]) == a + [p];
  }

  lemma VisitKeepsInv(s: State, p: nat, c: nat)
    requires Inv(s) && Enabled(s, Visit(p, c))
    ensures Inv(Step(s, Visit(p, c)))
  {
    var s' := Step(s, Visit(p, c));
    assert PubOk(s, p);
    forall q | 0 <= q < |s'.pubs|
      ensures PubOk(s', q)
    {
      assert PubOk(s, q);
    }
    forall d | d in s'.chans
      ensures ChanOk(s', d)
    {
      assert ChanOk(s, d);
      var ch := s.chans[d];
      if d != c {
        OfferedStays(s, s', d, ch.offered, ch.born, Limit(s, ch));
      } else {
        SentKeepsOrder(ch, p);
        VisitedOk(s, s', p, c);
      }
    }
  }

  /** The publish is new to the channel and not over, so nothing before it can have overtaken it. */
  lemma VisitedOk(s: State, s': State, p: nat, c: nat)
    requires Enabled(s, Visit(p, c)) && c in s.chans && s.chans[c].queue.open && s' == Step(s, Visit(p, c))
    requires ChanOk(s, c) && PubOk(s, p)
    ensures OfferedOk(s', c, s.chans[c].offered + [p], s.chans[c].born, |s.pubs|)
  {
    var before, now := s.chans[c].offered, s.chans[c].offered + [p];
    forall i | 0 <= i < |now|
      ensures s.chans[c].born <= now[i] < |s.pubs| && c !in s'.pubs[now[i]].pending
    {}
    forall i, j | 0 <= i < j < |now|
      ensures now[i] != now[j] && !Before(s', now[j], now[i])
    {
      assert Before(s', now[j], now[i]) ==> Before(s, now[j], now[i]);
    }
    forall q | s.chans[c].born <= q < |s.pubs| && c !in s'.pubs[q].pending
      ensures q in now
    {
      if q == p {
        assert now[|before|] == p;
      } else {
        assert q in before;
      }
    }
  }

  /** A subscription comes, ends, or is read from: publishes stay as they are, and of the other
      subscriptions nothing changes. */
  lemma ChanStepKeepsInv(s: State, e: Event, c: nat)
    requires Inv(s) && Enabled(s, e) && (e == Unsub(c) || e == Recv(c) || (e.Sub? && e.c == c))
    ensures Inv(Step(s, e))
  {
    hide OfferedOk, Before;
    var s' := Step(s, e);
    assert s'.pubs == s.pubs && forall d :: d != c ==> (d in s.chans <==> d in s'.chans);
    forall p | 0 <= p < |s'.pubs|
      ensures PubOk(s', p)
    {
      assert PubOk(s, p);
    }
    forall d | d in s'.chans
      ensures ChanOk(s', d)
    {
      if d in s.chans {
        assert ChanOk(s, d);
        var ch := s.chans[d];
        SameTimes(s, s');
        OfferedStays(s, s', d, ch.offered, ch.born, Limit(s, ch));
        if d == c {
          SameOffers(s, e, c);
        }
      } else {
        NothingOffered(s', c);
      }
    }
  }

  lemma SameTimes(s: State, s': State)
    requires s'.pubs == s.pubs
    ensures forall p, q :: Before(s', p, q) <==> Before(s, p, q)
  {}

  lemma NothingOffered(s: State, c: nat)
    ensures OfferedOk(s, c, [], |s.pubs|, |s.pubs|)
  {}

  lemma SameOffers(s: State, e: Event, c: nat)
    requires Enabled(s, e) && (e == Unsub(c) || e == Recv(c)) && c in s.chans
    requires s.chans[c].queue.open <==> s.chans[c].died.None?
    ensures var ch, ch' := s.chans[c], Step(s, e).chans[c];
      && ch'.Seen() == ch.Seen() && ch'.offered == ch.offered && ch'.lost == ch.lost && ch'.born == ch.born
      && |ch'.queue.buffer| <= |ch.queue.buffer| && ch'.queue.cap == ch.queue.cap
      && Limit(Step(s, e), ch') == Limit(s, ch)
  {
    var ch := s.chans[c];
    if e.Recv? {
      var b := ch.queue.buffer;
      assert ch.received + b == (ch.received + [b[0]]) + b[1..];
    }
  }

  lemma StepKeepsInv(s: State, e: Event)
    requires Inv(s) && Enabled(s, e)
    ensures Inv(Step(s, e))
  {
    hide Inv, Step;
    match e
    case Begin => BeginKeepsInv(s);
    case Visit(p, c) => VisitKeepsInv(s, p, c);
    case End(p) => EndKeepsInv(s, p);
    case Sub(c, _) => ChanStepKeepsInv(s, e, c);
    case Unsub(c) => ChanStepKeepsInv(s, e, c);
    case Recv(c) => ChanStepKeepsInv(s, e, c);
  }

  // ---------- the theorems ----------

  const NEW := State(0, [], map[], false)

  ghost predicate AllEnabled(s: State, events: seq<Event>)
    decreases |events|
  {
    events == [] || (Enabled(s, events[0]) && AllEnabled(Step(s, events[0]), events[1..]))
  }

  function Run(s: State, events: seq<Event>): State
    requires AllEnabled(s, events)
    decreases |events|
  {
    if events == [] then s else Run(Step(s, events[0]), events[1..])
  }

  lemma {:induction false} RunKeepsInv(s: State, events: seq<Event>)
    requires Inv(s) && AllEnabled(s, events)
    ensures Inv(Run(s, events))
    decreases |events|
  {
    if events != [] {
      hide Inv, Step, Enabled;
      StepKeepsInv(s, events[0]);
      RunKeepsInv(Step(s, events[0]), events[1..]);
    }
  }

  /** In every interleaving of publishes, receives and unsubscriptions: nothing is sent on a closed
      channel, and what a subscriber has received, followed by what is buffered for it, is a
      subsequence of what it was offered, all of it if no send found its buffer full. It was offered
      each publish that ended while it was subscribed, once, and no publish overtakes an earlier one
      that had ended before it began. */
  lemma SubscribersSeeASubsequence(events: seq<Event>, c: nat)
    requires AllEnabled(NEW, events)
    ensures var s := Run(NEW, events);
      && !s.panicked
      && (c in s.chans ==>
            var ch := s.chans[c];
            && Subsequence(ch.Seen(), ch.offered) && (!ch.lost ==> ch.Seen() == ch.offered)
            && (forall i, j :: 0 <= i < j < |ch.offered| ==> ch.offered[i] != ch.offered[j] && !Before(s, ch.offered[j], ch.offered[i]))
            && (forall p :: p in ch.offered ==> ch.born <= p < Limit(s, ch))
            && (forall p :: ch.born <= p < Limit(s, ch) <= |s.pubs| && s.pubs[p].ended.Some? ==> p in ch.offered))
  {
    hide Run, AllEnabled;
    RunKeepsInv(NEW, events);
    var s := Run(NEW, events);
    if c in s.chans {
      assert ChanOk(s, c);
      var ch := s.chans[c];
      forall p | ch.born <= p < Limit(s, ch) <= |s.pubs| && s.pubs[p].ended.Some?
        ensures p in ch.offered
      {
        assert PubOk(s, p);
      }
    }
  }

  /** No two publishes overlapped. */
  ghost predicate Sequential(s: State) { forall p, q :: 0 <= p < q < |s.pubs| ==> Before(s, p, q) }

  /** If publishes do not overlap, a subscriber is offered exactly the events published while it was
      subscribed, in the order they were published; so with a buffer that was never full it sees
      exactly these. */
  lemma SequentialPublishesKeepOrder(s: State, c: nat)
    requires Inv(s) && Sequential(s) && Idle(s) && c in s.chans
    ensures var ch := s.chans[c];
      && ch.offered == seq(Limit(s, ch) - ch.born, i => ch.born + i)
      && (!ch.lost ==> ch.Seen() == seq(Limit(s, ch) - ch.born, i => ch.born + i))
  {
    assert ChanOk(s, c);
    var ch := s.chans[c];
    forall p: nat | p < |s.pubs|
      ensures PubOk(s, p) && s.pubs[p].pending == {}
    {}
    forall i, j | 0 <= i < j < |ch.offered|
      ensures ch.offered[i] < ch.offered[j]
    {
      assert !Before(s, ch.offered[j], ch.offered[i]);
    }
    IncreasingCover(ch.offered, ch.born, Limit(s, ch));
  }

  lemma HeadFits(a: seq<nat>, lo: nat, hi: nat)
    requires a != [] && forall i :: 0 <= i < |a| ==> lo <= a[i] < hi
    ensures lo < hi
  {
    assert lo <= a[0] < hi;
  }

  lemma {:induction false} IncreasingCover(a: seq<nat>, lo: nat, hi: nat)
    requires lo <= hi && forall i :: 0 <= i < |a| ==> lo <= a[i] < hi
    requires forall i, j :: 0 <= i < j < |a| ==> a[i] < a[j]
    requires forall p :: lo <= p < hi ==> p in a
    ensures a == seq(hi - lo, i => lo + i)
    decreases hi - lo
  {
    if lo < hi {
      var last := |a| - 1;
      assert hi - 1 in a;
      var k :| 0 <= k < |a| && a[k] == hi - 1;
      assert lo <= a[last] < hi;
      var b := a[..last];
      forall p | lo <= p < hi - 1
        ensures p in b
      {
        assert p in a;
        var i :| 0 <= i < |a| && a[i] == p;
        assert b[i] == p;
      }
      IncreasingCover(b, lo, hi - 1);
      assert a == b + [hi - 1];
      assert forall i :: 0 <= i < |b| ==> b[i] == lo + i;
    } else if a != [] {
      HeadFits(a, lo, hi);
      assert false;
    }
  }

  /** With overlapping publishes there is no common order: two subscribers can see the same two
      events in opposite orders. */
  lemma OverlappingPublishesMayCross()
    ensures exists events :: AllEnabled(NEW, events) && var s := Run(NEW, events);
      && 0 in s.chans && 1 in s.chans && s.chans[0].Seen() == [0, 1] && s.chans[1].Seen() == [1, 0]
  {
    hide Step, Enabled;
    var ready, crossing := TwoUnderWay();
    var visits := CrossingVisits(crossing);
    Unroll2(NEW, Sub(0, 0), Sub(1, 0), [Begin, Begin] + visits);
    Unroll2(ready, Begin, Begin, visits);
    var events := [Sub(0, 0), Sub(1, 0)] + ([Begin, Begin] + visits);
    assert AllEnabled(NEW, events) && Run(NEW, events) == Run(crossing, visits);
  }

  /** Two subscribers with room, and two publishes begun. */
  ghost predicate Crossing(s: State) {
    && |s.pubs| == 2 && s.pubs[0].ended == None && s.pubs[1].ended == None
    && s.pubs[0].pending == {0, 1} == s.pubs[1].pending
    && 0 in s.chans && 1 in s.chans
    && s.chans[0] == s.chans[1] == Chan(Queue(DEFAULT_BUFFER, true, []), [], [], false, 0, None)
  }

  lemma TwoUnderWay() returns (ready: State, crossing: State)
    ensures Enabled(NEW, Sub(0, 0)) && Enabled(Step(NEW, Sub(0, 0)), Sub(1, 0))
    ensures ready == Step(Step(NEW, Sub(0, 0)), Sub(1, 0)) && Enabled(ready, Begin) && Enabled(Step(ready, Begin), Begin)
    ensures crossing == Step(Step(ready, Begin), Begin) && Crossing(crossing)
  {
    ready := Step(Step(NEW, Sub(0, 0)), Sub(1, 0));
    assert Open(ready) == {0, 1};
    var first := Step(ready, Begin);
    assert Open(first) == {0, 1};
    crossing := Step(first, Begin);
  }

  lemma CrossingVisits(s: State) returns (visits: seq<Event>)
    requires Crossing(s)
    ensures AllEnabled(s, visits) && var t := Run(s, visits);
      && 0 in t.chans && 1 in t.chans && t.chans[0].Seen() == [0, 1] && t.chans[1].Seen() == [1, 0]
  {
    var s1 := Step(s, Visit(0, 0));
    assert s1.chans[0].Seen() == [0];
    var s2 := Step(s1, Visit(1, 0));
    assert s2.chans[0].Seen() == [0, 1] && s2.chans[1] == s.chans[1];
    var s3 := Step(s2, Visit(1, 1));
    assert s3.chans[1].Seen() == [1] && s3.chans[0] == s2.chans[0];
    var s4 := Step(s3, Visit(0, 1));
    assert s4.chans[1].Seen() == [1, 0];
    hide Step, Enabled;
    Unroll2(s2, Visit(1, 1), Visit(0, 1), []);
    Unroll2(s, Visit(0, 0), Visit(1, 0), [Visit(1, 1), Visit(0, 1)] + []);
    visits := [Visit(0, 0), Visit(1, 0)] + ([Visit(1, 1), Visit(0, 1)] + []);
  }

  lemma Unroll2(s: State, a: Event, b: Event, rest: seq<Event>)
    requires Enabled(s, a) && Enabled(Step(s, a), b) && AllEnabled(Step(Step(s, a), b), rest)
    ensures AllEnabled(s, [a, b] + rest) && Run(s, [a, b] + rest) == Run(Step(Step(s, a), b), rest)
  {
    hide Step, Enabled;
    assert ([a, b] + rest)[1..] == [b] + rest;
    assert ([b] + rest)[1..] == rest;
  }
}
