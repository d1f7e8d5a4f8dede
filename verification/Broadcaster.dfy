/** The broadcaster: one stream of items fanned out to bounded subscriber channels. */
module Broadcaster {

  const CAPACITY: nat := 100

  /** A subscriber's channel: what waits in it, what was taken out of it, whether it is closed,
    and how many items had been published when it was made. */
  datatype Chan<T> = Chan(buffer: seq<T>, received: seq<T>, closed: bool, since: nat) {
    function Got(): seq<T> {
      received + buffer
    }
  }

  /** `panicked` records what Go would do: a send on, or a second close of, a closed channel. */
  datatype Hub<T> = Hub(running: bool, subs: set<nat>, chans: map<nat, Chan<T>>, published: seq<T>, panicked: bool)

  function Subscribed<T>(h: Hub<T>): Hub<T> {
    var c := |h.chans|;
    h.(subs := h.subs + {c}, chans := h.chans[c := Chan([], [], false, |h.published|)])
  }

  function CloseChan<T>(h: Hub<T>, c: nat): Hub<T>
    requires c in h.chans
  {
    if h.chans[c].closed then h.(panicked := true)
    else h.(chans := h.chans[c := h.chans[c].(closed := true)])
  }

  function Unsubscribed<T>(h: Hub<T>, c: nat): Hub<T>
    requires h.subs <= h.chans.Keys
  {
    if c in h.subs then CloseChan(h, c).(subs := h.subs - {c}) else h
  }

  /** What one publication does to one subscriber: deliver, or drop the slow one. */
  function Offered<T>(ch: Chan<T>, item: T): Chan<T> {
    if |ch.buffer| < CAPACITY then ch.(buffer := ch.buffer + [item]) else ch.(closed := true)
  }

  function Published<T>(h: Hub<T>, item: T): Hub<T>
    requires h.subs <= h.chans.Keys
  {
    Hub(h.running,
        set c | c in h.subs && |h.chans[c].buffer| < CAPACITY,
        map c | c in h.chans :: if c in h.subs then Offered(h.chans[c], item) else h.chans[c],
        h.published + [item],
        h.panicked || exists c :: c in h.subs && h.chans[c].closed)
  }

  function Ended<T>(h: Hub<T>): Hub<T>
    requires h.subs <= h.chans.Keys
  {
    Hub(false, {},
        map c | c in h.chans :: if c in h.subs then h.chans[c].(closed := true) else h.chans[c],
        h.published,
        h.panicked || exists c :: c in h.subs && h.chans[c].closed)
  }

  /** The consumer takes the oldest waiting item, if there is one. */
  function Taken<T>(h: Hub<T>, c: nat): Hub<T>
    requires c in h.chans
  {
    var ch := h.chans[c];
    if ch.buffer == [] then h
    else h.(chans := h.chans[c := ch.(buffer := ch.buffer[1..], received := ch.received + [ch.buffer[0]])])
  }

  /** Channel ids are handed out in order. */
  ghost predicate Numbered<T>(h: Hub<T>) {
    forall c :: c in h.chans <==> 0 <= c < |h.chans|
  }

  /** What a channel holds is a contiguous run of the publications since it was made. */
  predicate Contiguous<T(==)>(ch: Chan<T>, published: seq<T>) {
    && ch.since + |ch.Got()| <= |published|
    && ch.Got() == published[ch.since..ch.since + |ch.Got()|]
  }

  /** An open channel has everything published since it was made; only a subscribed one is open. */
  predicate ChanOk<T(==)>(ch: Chan<T>, subscribed: bool, published: seq<T>) {
    && (ch.closed <==> !subscribed)
    && |ch.buffer| <= CAPACITY
    && Contiguous(ch, published)
    && (subscribed ==> ch.since + |ch.Got()| == |published|)
  }

  ghost predicate HubOk<T>(h: Hub<T>) {
    && !h.panicked
    && Numbered(h)
    && h.subs <= h.chans.Keys
    && (forall c :: c in h.chans ==> ChanOk(h.chans[c], c in h.subs, h.published))
  }

  lemma OfferKeepsOk<T>(ch: Chan<T>, subscribed: bool, published: seq<T>, item: T)
    requires ChanOk(ch, subscribed, published)
    ensures subscribed ==> ChanOk(Offered(ch, item), |ch.buffer| < CAPACITY, published + [item])
    ensures !subscribed ==> ChanOk(ch, false, published + [item])
  {
    var ch' := ch.(buffer := ch.buffer + [item]);
    assert ch'.Got() == ch.Got() + [item];
  }

  lemma PublishKeepsOk<T>(h: Hub<T>, item: T)
    requires HubOk(h)
    ensures HubOk(Published(h, item))
  {
    hide Offered, Contiguous;
    var h' := Published(h, item);
    assert h'.chans.Keys == h.chans.Keys;
    forall c | c in h.chans
      ensures ChanOk(h'.chans[c], c in h'.subs, h'.published)
    {
      OfferKeepsOk(h.chans[c], c in h.subs, h.published, item);
    }
  }

  lemma SubscribeKeepsOk<T>(h: Hub<T>)
    requires HubOk(h)
    ensures HubOk(Subscribed(h))
    ensures var c := |h.chans|; c !in h.chans && Subscribed(h).chans[c].since == |h.published|
  {
    hide ChanOk, Numbered;
    var h', c := Subscribed(h), |h.chans|;
    NextNumber(h, h.chans[c := Chan([], [], false, |h.published|)]);
    assert ChanOk(h'.chans[c], true, h.published) by { FreshIsOk(h.published); }
    NumberedAnyway(h', h.(chans := h'.chans));
    forall d | d in h.chans
      ensures ChanOk(h'.chans[d], d in h'.subs, h'.published)
    {
      assert ChanOk(h.chans[d], d in h.subs, h.published);
    }
  }

  lemma NumberedAnyway<T>(h: Hub<T>, h': Hub<T>)
    requires Numbered(h') && h.chans == h'.chans
    ensures Numbered(h)
  {
  }

  lemma NextNumber<T>(h: Hub<T>, chans: map<nat, Chan<T>>)
    requires Numbered(h) && chans.Keys == h.chans.Keys + {|h.chans|}
    ensures |h.chans| !in h.chans && Numbered(h.(chans := chans)) && |chans| == |h.chans| + 1
  {
    assert |chans.Keys| == |h.chans.Keys| + 1;
  }

  lemma FreshIsOk<T>(published: seq<T>)
    ensures ChanOk(Chan([], [], false, |published|), true, published)
  {
  }

  lemma UnsubscribeKeepsOk<T>(h: Hub<T>, c: nat)
    requires HubOk(h)
    ensures HubOk(Unsubscribed(h, c))
  {
    hide Contiguous;
    var h' := Unsubscribed(h, c);
    assert h'.chans.Keys == h.chans.Keys;
    forall d | d in h.chans
      ensures ChanOk(h'.chans[d], d in h'.subs, h'.published)
    {
      assert ChanOk(h.chans[d], d in h.subs, h.published);
      if d == c && c in h.subs { CloseIsOk(h.chans[c], h.published); }
    }
  }

  lemma CloseIsOk<T>(ch: Chan<T>, published: seq<T>)
    requires ChanOk(ch, true, published)
    ensures ChanOk(ch.(closed := true), false, published)
  {
  }

  lemma EndKeepsOk<T>(h: Hub<T>)
    requires HubOk(h)
    ensures HubOk(Ended(h))
  {
    hide Contiguous;
    var h' := Ended(h);
    assert h'.chans.Keys == h.chans.Keys;
    forall d | d in h.chans
      ensures ChanOk(h'.chans[d], false, h'.published)
    {
      assert ChanOk(h.chans[d], d in h.subs, h.published);
      if d in h.subs { CloseIsOk(h.chans[d], h.published); }
    }
  }

  lemma TakeIsOk<T>(ch: Chan<T>, subscribed: bool, published: seq<T>)
    requires ChanOk(ch, subscribed, published) && ch.buffer != []
    ensures var ch' := ch.(buffer := ch.buffer[1..], received := ch.received + [ch.buffer[0]]);
            ChanOk(ch', subscribed, published) && ch'.Got() == ch.Got()
  {
    var ch' := ch.(buffer := ch.buffer[1..], received := ch.received + [ch.buffer[0]]);
    assert ch.buffer == [ch.buffer[0]] + ch.buffer[1..];
    assert ch'.Got() == ch.Got();
  }

  lemma TakeKeepsOk<T>(h: Hub<T>, c: nat)
    requires HubOk(h) && c in h.chans
    ensures HubOk(Taken(h, c))
    ensures Taken(h, c).chans[c].Got() == h.chans[c].Got()
  {
    hide ChanOk;
    var h' := Taken(h, c);
    if h.chans[c].buffer != [] {
      assert h'.chans.Keys == h.chans.Keys;
      TakeIsOk(h.chans[c], c in h.subs, h.published);
      forall d | d in h.chans
        ensures ChanOk(h'.chans[d], d in h'.subs, h'.published)
      {
        assert ChanOk(h.chans[d], d in h.subs, h.published);
      }
    }
  }

  // ---------------------------------------------------------------- what each act does

  /** A publication reaches every subscriber that has fewer than a hundred items waiting, and lets exactly the others
    go, who keep what waits for them. */
  lemma PublishReaches<T>(h: Hub<T>, item: T, c: nat)
    requires HubOk(h) && c in h.chans
    ensures var h', ch := Published(h, item), h.chans[c];
            && h'.published == h.published + [item] && c in h'.chans
            && (c in h'.subs <==> c in h.subs && |ch.buffer| < 100)
            && h'.chans[c].Got() == (if c in h'.subs then ch.Got() + [item] else ch.Got())
            && h'.chans[c].received == ch.received && h'.chans[c].closed == (c !in h'.subs)
  {
    hide Contiguous;
    assert ChanOk(h.chans[c], c in h.subs, h.published);
  }

  /** The end of the stream closes every channel, and takes nothing away from it. */
  lemma EndClosesAll<T>(h: Hub<T>, c: nat)
    requires HubOk(h) && c in h.chans
    ensures var h' := Ended(h);
            && !h'.running && h'.subs == {} && h'.published == h.published && c in h'.chans
            && h'.chans[c] == h.chans[c].(closed := true)
  {
    assert ChanOk(h.chans[c], c in h.subs, h.published);
  }

  /** Cancelling closes that channel, takes nothing away from it, and leaves all others. */
  lemma CancelCloses<T>(h: Hub<T>, c: nat, d: nat)
    requires HubOk(h) && d in h.chans
    ensures var h' := Unsubscribed(h, c);
            && c !in h'.subs && d in h'.chans && (d != c ==> (d in h'.subs <==> d in h.subs))
            && h'.chans[d] == (if d == c then h.chans[d].(closed := true) else h.chans[d])
            && h'.published == h.published
  {
    assert ChanOk(h.chans[d], d in h.subs, h.published);
  }

  /** Taking moves the oldest waiting item to the consumer, closed or not, and touches nothing else. */
  lemma TakeMoves<T>(h: Hub<T>, c: nat, d: nat)
    requires HubOk(h) && c in h.chans && d in h.chans
    ensures var h', ch := Taken(h, c), h.chans[c];
            && h'.subs == h.subs && h'.published == h.published && d in h'.chans
            && (d != c ==> h'.chans[d] == h.chans[d])
            && (ch.buffer == [] ==> h' == h)
            && (ch.buffer != [] ==> h'.chans[c].received == ch.received + [ch.buffer[0]])
            && h'.chans[c].Got() == ch.Got()
  {
    hide HubOk;
    TakeKeepsOk(h, c);
  }

  /** A subscription begins empty and open with the next publication, and touches nothing else. */
  lemma SubscribeJoins<T>(h: Hub<T>, d: nat)
    requires HubOk(h) && d in h.chans
    ensures var h', c := Subscribed(h), |h.chans|;
            && c !in h.chans && h'.subs == h.subs + {c} && h'.published == h.published
            && c in h'.chans && h'.chans[c].Got() == [] && !h'.chans[c].closed && h'.chans[c].since == |h.published|
            && d in h'.chans && h'.chans[d] == h.chans[d]
  {
    hide ChanOk;
  }

  /** What would go wrong: a subscriber whose channel is closed already makes a publication, its cancellation and the
    end of the stream panic. */
  lemma ClosedSubscriberPanics<T>(h: Hub<T>, item: T, c: nat)
    requires h.subs <= h.chans.Keys && c in h.subs && h.chans[c].closed
    ensures Published(h, item).panicked && Ended(h).panicked && Unsubscribed(h, c).panicked
  {
  }

  // ---------------------------------------------------------------- every interleaving

  datatype Act<T> = Subscribe | Cancel(c: nat) | Publish(item: T) | Take(c: nat) | End

  function Acted<T>(h: Hub<T>, a: Act<T>): Hub<T>
    requires h.subs <= h.chans.Keys
  {
    match a
    case Subscribe => Subscribed(h)
    case Cancel(c) => Unsubscribed(h, c)
    case Publish(item) => Published(h, item)
    case Take(c) => if c in h.chans then Taken(h, c) else h
    case End => Ended(h)
  }

  lemma ActKeepsOk<T>(h: Hub<T>, a: Act<T>)
    requires HubOk(h)
    ensures HubOk(Acted(h, a))
  {
    hide HubOk;
    match a
    case Subscribe => SubscribeKeepsOk(h);
    case Cancel(c) => UnsubscribeKeepsOk(h, c);
    case Publish(item) => PublishKeepsOk(h, item);
    case Take(c) => if c in h.chans { TakeKeepsOk(h, c); }
    case End => EndKeepsOk(h);
  }

  function RunHub<T>(h: Hub<T>, acts: seq<Act<T>>): Hub<T>
    requires HubOk(h)
    decreases |acts|
  {
    if acts == [] then h
    else
      ActKeepsOk(h, acts[0]);
      RunHub(Acted(h, acts[0]), acts[1..])
  }

  function Quiet<T>(): Hub<T> {
    Hub(true, {}, map[], [], false)
  }

  /** Over every interleaving of subscriptions, cancellations, publications, receptions and the end of
    the stream: no channel is closed twice or sent on after it is closed, and what each subscriber
    received is a contiguous run of the published sequence from its subscription on. */
  lemma {:induction false} BroadcastIsSafe<T>(h: Hub<T>, acts: seq<Act<T>>, c: nat)
    requires HubOk(h) && c in RunHub(h, acts).chans
    ensures var h' := RunHub(h, acts);
            var ch := h'.chans[c];
            && !h'.panicked
            && ch.since + |ch.received| <= |h'.published|
            && ch.received == h'.published[ch.since..ch.since + |ch.received|]
            && (ch.closed <==> c !in h'.subs)
            && (!ch.closed ==> ch.received + ch.buffer == h'.published[ch.since..])
    decreases |acts|
  {
    if acts == [] {
      var ch := h.chans[c];
      assert ChanOk(ch, c in h.subs, h.published);
      assert ch.received == ch.Got()[..|ch.received|];
    } else {
      hide HubOk;
      ActKeepsOk(h, acts[0]);
      BroadcastIsSafe(Acted(h, acts[0]), acts[1..], c);
    }
  }

  lemma QuietIsOk<T>()
    ensures HubOk(Quiet<T>())
  {
  }

  // ---------------------------------------------------------------- the loops over subscribers

  lemma SubscribersAreOpen<T>(h: Hub<T>)
    requires HubOk(h)
    ensures h.subs <= h.chans.Keys && !h.panicked
    ensures forall c :: c in h.subs ==> !h.chans[c].closed
  {
    forall c | c in h.subs ensures !h.chans[c].closed { assert ChanOk(h.chans[c], true, h.published); }
  }

  /** A publication that has reached the subscribers in `done`. */
  function PartlyPublished<T>(h: Hub<T>, done: set<nat>, item: T): (r: Hub<T>)
    requires done <= h.subs <= h.chans.Keys
    ensures r.subs <= r.chans.Keys == h.chans.Keys
    ensures r.published == h.published
  {
    h.(subs := h.subs - (set c | c in done && |h.chans[c].buffer| >= CAPACITY),
       chans := map c | c in h.chans :: if c in done then Offered(h.chans[c], item) else h.chans[c])
  }

  lemma OfferNext<T>(h: Hub<T>, done: set<nat>, c: nat, item: T)
    requires done <= h.subs <= h.chans.Keys && c in h.subs && c !in done && !h.chans[c].closed
    ensures var now, later := PartlyPublished(h, done, item), PartlyPublished(h, done + {c}, item);
            && c in now.subs && now.chans[c] == h.chans[c]
            && later == if |h.chans[c].buffer| < CAPACITY
                       then now.(chans := now.chans[c := Offered(h.chans[c], item)])
                       else Unsubscribed(now, c)
  {
    var now, later := PartlyPublished(h, done, item), PartlyPublished(h, done + {c}, item);
    assert later.chans == now.chans[c := Offered(h.chans[c], item)];
    assert |h.chans[c].buffer| < CAPACITY ==> later.subs == now.subs;
    assert |h.chans[c].buffer| >= CAPACITY ==> later.subs == now.subs - {c};
  }

  lemma OfferedToAll<T>(h: Hub<T>, item: T)
    requires h.subs <= h.chans.Keys && forall c :: c in h.subs ==> !h.chans[c].closed
    ensures PartlyPublished(h, h.subs, item).(published := h.published + [item]) == Published(h, item)
    ensures PartlyPublished(h, {}, item) == h
  {
    assert PartlyPublished(h, h.subs, item).subs == Published(h, item).subs;
    assert PartlyPublished(h, {}, item).chans == h.chans;
  }

  /** The end of the stream, when the subscribers in `done` have been let go. */
  function PartlyEnded<T>(h: Hub<T>, done: set<nat>): (r: Hub<T>)
    requires done <= h.subs <= h.chans.Keys
    ensures r.subs <= r.chans.Keys == h.chans.Keys
  {
    h.(subs := h.subs - done,
       chans := map c | c in h.chans :: if c in done then h.chans[c].(closed := true) else h.chans[c])
  }

  lemma EndNext<T>(h: Hub<T>, done: set<nat>, c: nat)
    requires done <= h.subs <= h.chans.Keys && c in h.subs && c !in done && !h.chans[c].closed
    ensures PartlyEnded(h, done + {c}) == Unsubscribed(PartlyEnded(h, done), c)
  {
    var now, later := PartlyEnded(h, done), PartlyEnded(h, done + {c});
    assert later.chans == now.chans[c := h.chans[c].(closed := true)];
    assert later.subs == now.subs - {c};
  }

  lemma EndedForAll<T>(h: Hub<T>)
    requires h.subs <= h.chans.Keys && forall c :: c in h.subs ==> !h.chans[c].closed
    ensures PartlyEnded(h, h.subs).(running := false) == Ended(h)
    ensures PartlyEnded(h, {}) == h
  {
    assert PartlyEnded(h, {}).chans == h.chans;
  }

  // ---------------------------------------------------------------- the object

  class Broadcaster<T> {
    var running: bool
    var subs: set<nat>
    var chans: map<nat, Chan<T>>
    var panicked: bool
    var published: seq<T>   // everything sent so far; kept for the specification

    function View(): Hub<T>
      reads this
    {
      Hub(running, subs, chans, published, panicked)
    }

    constructor ()
      ensures View() == Quiet() && HubOk(View())
    {
      running, subs, chans, panicked, published := true, {}, map[], false, [];
    }

    method Subscribe() returns (c: nat)
      requires HubOk(View())
      modifies this
      ensures View() == Subscribed(old(View())) && HubOk(View())
      ensures c in subs && c !in old(chans)
    {
      SubscribeKeepsOk(View());
      hide HubOk;
      c := |chans|;
      chans := chans[c := Chan([], [], false, |published|)];
      subs := subs + {c};
    }

    /** close and delete, if still subscribed. */
    method Unsub(c: nat)
      requires subs <= chans.Keys
      modifies this
      ensures View() == Unsubscribed(old(View()), c)
    {
      if c in subs {
        Close(c);
        subs := subs - {c};
      }
    }

    method Close(c: nat)
      requires c in chans
      modifies this
      ensures View() == CloseChan(old(View()), c)
    {
      if chans[c].closed {
        panicked := true;
      } else {
        chans := chans[c := chans[c].(closed := true)];
      }
    }

    /** Sends to every subscriber, dropping those whose channel is full. */
    method Publish(item: T)
      requires HubOk(View())
      modifies this
      ensures View() == Published(old(View()), item) && HubOk(View())
    {
      hide HubOk, PartlyPublished, Published;
      ghost var h := View();
      PublishKeepsOk(h, item);
      SubscribersAreOpen(h);
      OfferedToAll(h, item);
      var todo := subs;
      assert h.subs - todo == {};
      while todo != {}
        invariant todo <= h.subs
        invariant View() == PartlyPublished(h, h.subs - todo, item)
        decreases |todo|
      {
        var sub :| sub in todo;
        OfferNext(h, h.subs - todo, sub, item);
        assert h.subs - (todo - {sub}) == h.subs - todo + {sub};
        if |chans[sub].buffer| < CAPACITY {
          Send(sub, item);
        } else {
          Unsub(sub);
        }
        todo := todo - {sub};
      }
      assert h.subs - todo == h.subs;
      published := published + [item];
    }

    /** A send that does not block. */
    method Send(c: nat, item: T)
      requires c in chans && |chans[c].buffer| < CAPACITY
      modifies this
      ensures View() == if old(chans)[c].closed then old(View()).(panicked := true)
                        else old(View()).(chans := old(chans)[c := Offered(old(chans)[c], item)])
    {
      if chans[c].closed {
        panicked := true;
      } else {
        chans := chans[c := chans[c].(buffer := chans[c].buffer + [item])];
      }
    }

    /** When the source stream ends, every subscriber is let go. */
    method StreamEnded()
      requires HubOk(View())
      modifies this
      ensures View() == Ended(old(View())) && HubOk(View())
    {
      hide HubOk, PartlyEnded, Ended;
      ghost var h := View();
      EndKeepsOk(h);
      SubscribersAreOpen(h);
      EndedForAll(h);
      var todo := subs;
      assert h.subs - todo == {};
      while todo != {}
        invariant todo <= h.subs
        invariant View() == PartlyEnded(h, h.subs - todo)
        decreases |todo|
      {
        var sub :| sub in todo;
        EndNext(h, h.subs - todo, sub);
        assert h.subs - (todo - {sub}) == h.subs - todo + {sub};
        Unsub(sub);
        todo := todo - {sub};
      }
      assert h.subs - todo == h.subs;
      running := false;
    }
  }
}
