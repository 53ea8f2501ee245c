/** Fanning frames out to consumers through shallow queues that drop their
    oldest frame when full. */
module FanOut {
  import opened ByteStrings

  const SUBSCRIBER_QUEUE_SIZE: nat := 2

  /** One iteration over the frames. `queue` is its queue and `subscribed` whether
      frames are still put there. The rest is history: `since` and `fed` count the
      frames published before it subscribed and up to the last it was given,
      `taken` numbers the frames it was handed, `seen` holds them, and `dropped`
      counts those that made room for others. */
  datatype Consumer<F> = Consumer(
    queue: seq<F>, subscribed: bool, since: nat, fed: nat, taken: seq<nat>, seen: seq<F>,
    dropped: nat)

  /** Everything published so far and everyone who asked for it. */
  datatype Hub<F> = Hub(published: seq<F>, consumers: map<nat, Consumer<F>>)

  /** `Subscribed` starts an iteration, `Read` takes from its queue, `Left` ends
      it, and `Closed` drops every subscriber while their iterations live on. */
  datatype Event<F> =
    | Published(frame: F)
    | Subscribed(id: nat)
    | Read(id: nat)
    | Left(id: nat)
    | Closed

  /** A new iteration hands over the last frame there was. */
  function Joined<F>(published: seq<F>): Consumer<F> {
    var n := |published|;
    if n == 0 then Consumer([], true, 0, 0, [], [], 0)
    else Consumer([], true, n, n, [n - 1], [published[n - 1]], 0)
  }

  function Feed<F>(c: Consumer<F>, frame: F): Consumer<F> {
    if !c.subscribed then c
    else if |c.queue| >= SUBSCRIBER_QUEUE_SIZE then
      c.(queue := c.queue[1..] + [frame], fed := c.fed + 1, dropped := c.dropped + 1)
    else c.(queue := c.queue + [frame], fed := c.fed + 1)
  }

  /** A read waits while the queue is empty. */
  function Take<F>(c: Consumer<F>): Consumer<F> {
    if c.queue == [] then c
    else c.(queue := c.queue[1..], seen := c.seen + [c.queue[0]],
            taken := c.taken + [Max(0, c.fed - |c.queue|)])
  }

  function Step<F>(hub: Hub<F>, event: Event<F>): Hub<F> {
    match event
    case Published(frame) =>
      Hub(hub.published + [frame],
          map id | id in hub.consumers :: Feed(hub.consumers[id], frame))
    case Subscribed(id) =>
      hub.(consumers := hub.consumers[id := Joined(hub.published)])
    case Read(id) =>
      if id !in hub.consumers then hub
      else hub.(consumers := hub.consumers[id := Take(hub.consumers[id])])
    case Left(id) => hub.(consumers := hub.consumers - {id})
    case Closed =>
      hub.(consumers :=
             map id | id in hub.consumers :: hub.consumers[id].(subscribed := false))
  }

  function Run<F>(events: seq<Event<F>>): Hub<F> {
    if events == [] then Hub([], map[])
    else Step(Run(events[..|events| - 1]), events[|events| - 1])
  }

  // ------------------------------------------------------- what is kept

  /** How many frames were handed over on subscribing: the last, if any. */
  function Opening<F>(c: Consumer<F>): nat { if c.since > 0 then 1 else 0 }

  /** The queue is the last frames the consumer was given, at most two, and all
      of them were published since it subscribed. */
  ghost predicate QueueIsSuffix<F>(published: seq<F>, c: Consumer<F>) {
    && c.since <= c.fed <= |published|
    && (c.subscribed ==> c.fed == |published|)
    && |c.queue| <= SUBSCRIBER_QUEUE_SIZE
    && c.since + |c.queue| <= c.fed
    && c.queue == published[c.fed - |c.queue|..c.fed]
  }

  /** What was handed over are published frames, each once and in order of
      publication, and all of them before those in the queue. */
  ghost predicate SeenInOrder<F>(published: seq<F>, c: Consumer<F>) {
    && |c.seen| == |c.taken|
    && c.fed >= |c.queue|
    && (forall i :: 0 <= i < |c.taken| ==>
          c.taken[i] < c.fed - |c.queue| && c.taken[i] < |published|
          && c.seen[i] == published[c.taken[i]])
    && (forall i, j :: 0 <= i < j < |c.taken| ==> c.taken[i] < c.taken[j])
  }

  /** The first frame is the last one before the subscription, if there was one;
      every other was published since. */
  ghost predicate StartsAtLast<F>(c: Consumer<F>) {
    && |c.taken| >= Opening(c)
    && (c.since > 0 ==> c.taken[0] == c.since - 1)
    && (forall i :: Opening(c) <= i < |c.taken| ==> c.taken[i] >= c.since)
  }

  /** Every frame given is handed over, dropped or still queued; a consumer that
      dropped none was handed consecutive frames. */
  ghost predicate Accounted<F>(c: Consumer<F>) {
    && c.since <= c.fed && |c.taken| >= Opening(c)
    && c.fed - c.since == |c.taken| - Opening(c) + c.dropped + |c.queue|
    && (c.dropped == 0 ==>
          forall i :: 0 <= i < |c.taken| ==> c.taken[i] == c.since - Opening(c) + i)
  }

  /** The first frame it was given that it has not been handed since: the one after
      the last it was handed, or the first after it subscribed. */
  function Next<F>(c: Consumer<F>): nat {
    if |c.taken| == 0 then c.since else Max(c.since, c.taken[|c.taken| - 1] + 1)
  }

  /** The queue is no shorter than it has to be: all the frames given since the last
      one handed over, or the last two. */
  ghost predicate Fullest<F>(c: Consumer<F>) {
    && Next(c) <= c.fed
    && |c.queue| == (if c.fed - Next(c) < 2 then c.fed - Next(c) else 2)
  }

  ghost predicate Sound<F>(published: seq<F>, c: Consumer<F>) {
    && QueueIsSuffix(published, c)
    && SeenInOrder(published, c)
    && StartsAtLast(c)
    && Accounted(c)
    && Fullest(c)
  }

  lemma JoinedIsSound<F>(published: seq<F>)
    ensures Sound(published, Joined(published))
  {
  }

  lemma FeedKeepsSuffix<F>(published: seq<F>, c: Consumer<F>, frame: F)
    requires QueueIsSuffix(published, c)
    ensures QueueIsSuffix(published + [frame], Feed(c, frame))
  {
    var more := published + [frame];
    assert more[..|published|] == published;
    if c.subscribed {
      var q := if |c.queue| >= SUBSCRIBER_QUEUE_SIZE then c.queue[1..] else c.queue;
      assert q == published[c.fed - |q|..];
      assert more[c.fed - |q|..c.fed + 1] == published[c.fed - |q|..] + [frame];
    } else {
      assert more[c.fed - |c.queue|..c.fed] == published[c.fed - |c.queue|..c.fed];
    }
  }

  lemma FeedKeepsOrder<F>(published: seq<F>, c: Consumer<F>, frame: F)
    requires SeenInOrder(published, c)
    ensures SeenInOrder(published + [frame], Feed(c, frame))
  {
    forall i | 0 <= i < |c.taken|
      ensures (published + [frame])[c.taken[i]] == published[c.taken[i]]
    {
    }
  }

  lemma FeedKeepsSound<F>(published: seq<F>, c: Consumer<F>, frame: F)
    requires Sound(published, c)
    ensures Sound(published + [frame], Feed(c, frame))
  {
    FeedKeepsSuffix(published, c, frame);
    FeedKeepsOrder(published, c, frame);
    FeedKeepsFullest(published, c, frame);
    FeedKeepsAccounts(published, c, frame);
    hide QueueIsSuffix, SeenInOrder, Fullest, StartsAtLast, Accounted, Feed;
  }

  lemma FeedKeepsAccounts<F>(published: seq<F>, c: Consumer<F>, frame: F)
    requires StartsAtLast(c) && Accounted(c) && QueueIsSuffix(published, c)
    ensures StartsAtLast(Feed(c, frame)) && Accounted(Feed(c, frame))
  {
  }

  lemma FeedKeepsFullest<F>(published: seq<F>, c: Consumer<F>, frame: F)
    requires Fullest(c) && QueueIsSuffix(published, c)
    ensures Fullest(Feed(c, frame))
  {
  }

  lemma TakeKeepsFullest<F>(published: seq<F>, c: Consumer<F>)
    requires Fullest(c) && QueueIsSuffix(published, c)
    ensures Fullest(Take(c))
  {
  }

  lemma TakeKeepsQueue<F>(published: seq<F>, c: Consumer<F>)
    requires QueueIsSuffix(published, c) && SeenInOrder(published, c)
    ensures QueueIsSuffix(published, Take(c)) && SeenInOrder(published, Take(c))
  {
    if c.queue != [] {
      var at := c.fed - |c.queue|;
      assert c.queue[0] == published[at];
      assert c.queue[1..] == published[at + 1..c.fed];
    }
  }

  lemma TakeKeepsSound<F>(published: seq<F>, c: Consumer<F>)
    requires Sound(published, c)
    ensures Sound(published, Take(c))
  {
    TakeKeepsQueue(published, c);
    TakeKeepsFullest(published, c);
    assert c.queue != [] ==> c.fed - |c.queue| >= c.since;
    hide QueueIsSuffix, SeenInOrder, Fullest;
  }

  /** In every interleaving of publications, subscriptions, reads, departures and
      closings, every consumer's queue, history and accounts are sound. */
  lemma {:induction false} EveryConsumerIsSound<F>(events: seq<Event<F>>, id: nat)
    requires id in Run(events).consumers
    ensures Sound(Run(events).published, Run(events).consumers[id])
  {
    var before, last := events[..|events| - 1], events[|events| - 1];
    var hub := Run(before);
    hide Sound;
    if id in hub.consumers {
      EveryConsumerIsSound(before, id);
    }
    match last
    case Published(frame) => FeedKeepsSound(hub.published, hub.consumers[id], frame);
    case Subscribed(other) => JoinedIsSound(hub.published);
    case Read(other) =>
      if other == id {
        TakeKeepsSound(hub.published, hub.consumers[id]);
      }
    case Left(_) =>
    case Closed => UnsubscribedIsSound(hub.published, hub.consumers[id]);
  }

  lemma UnsubscribedIsSound<F>(published: seq<F>, c: Consumer<F>)
    requires Sound(published, c)
    ensures Sound(published, c.(subscribed := false))
  {
  }

  /** A queued read by a subscriber, at any point of any run, returns one of the
      two newest frames. */
  lemma ReadsAreFresh<F>(events: seq<Event<F>>, id: nat)
    requires id in Run(events).consumers
    requires Run(events).consumers[id].subscribed && Run(events).consumers[id].queue != []
    ensures var before, after := Run(events).consumers[id], Run(events + [Read(id)]).consumers[id];
            var published := Run(events).published;
            && |after.taken| == |before.taken| + 1
            && after.taken == before.taken + [after.taken[|before.taken|]]
            && |published| - 2 <= after.taken[|before.taken|] < |published|
            && after.seen == before.seen + [published[after.taken[|before.taken|]]]
  {
    EveryConsumerIsSound(events, id);
    assert (events + [Read(id)])[..|events|] == events;
  }
}
