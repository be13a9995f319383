/** The per-connection request counter (rate-limit-manager.go). Each tick of the
    one-second ticker is an explicit call of Tick; the eviction channel is a
    sequence that Tick appends to and the engine takes from. */
module RateLimit {
  import opened Types

  type Stats = map<RemoteAddress, int>

  /** startNewClientStatistic: the counter is (re)set to 0. */
  function Started(stats: Stats, address: RemoteAddress): (r: Stats)
    ensures r.Keys == stats.Keys + {address}
    ensures r[address] == 0
    ensures forall a :: a in stats && a != address ==> r[a] == stats[a]
  {
    stats[address := 0]
  }

  /** updateClientStatistic: a tracked counter goes up by one; an unknown
      address is ignored. */
  function Hit(stats: Stats, address: RemoteAddress): (r: Stats)
    ensures r.Keys == stats.Keys
    ensures address in stats ==> r[address] == stats[address] + 1
    ensures forall a :: a in stats && a != address ==> r[a] == stats[a]
  {
    if address in stats then stats[address := stats[address] + 1] else stats
  }

  /** deleteClientStatistic: the counter is dropped if there is one. */
  function Stopped(stats: Stats, address: RemoteAddress): (r: Stats)
    ensures r.Keys == stats.Keys - {address}
    ensures forall a :: a in r ==> r[a] == stats[a]
  {
    if address in stats then stats - {address} else stats
  }

  /** The addresses a tick hands over for eviction. */
  function AtLimit(stats: Stats, limit: int): (s: set<RemoteAddress>)
    ensures forall a :: a in s <==> a in stats && stats[a] >= limit
  {
    set a | a in stats && stats[a] >= limit
  }

  /** The counters after a tick: those at or above the limit keep their count,
      all others start the new window at 0. */
  function Ticked(stats: Stats, limit: int): (r: Stats)
    ensures r.Keys == stats.Keys
    ensures forall a :: a in AtLimit(stats, limit) ==> r[a] == stats[a]
    ensures forall a :: a in stats && a !in AtLimit(stats, limit) ==> r[a] == 0
  {
    map a | a in stats :: if stats[a] >= limit then stats[a] else 0
  }

  /** A map with the same keys whose every entry is what a tick gives is the tick. */
  lemma TickedAgrees(stats: Stats, r: Stats, limit: int)
    requires r.Keys == stats.Keys
    requires forall a :: a in stats ==> r[a] == if stats[a] >= limit then stats[a] else 0
    ensures r == Ticked(stats, limit)
  {
  }

  /** The counters after `n` frames from `address`. */
  function Hits(stats: Stats, address: RemoteAddress, n: nat): Stats
  {
    if n == 0 then stats else Hit(Hits(stats, address, n - 1), address)
  }

  /** n frames from a tracked address add n to its counter and touch nothing else. */
  lemma {:induction false} HitsCount(stats: Stats, address: RemoteAddress, n: nat)
    ensures Hits(stats, address, n).Keys == stats.Keys
    ensures address in stats ==> Hits(stats, address, n)[address] == stats[address] + n
    ensures forall a :: a in stats && a != address ==> Hits(stats, address, n)[a] == stats[a]
  {
    if n > 0 {
      HitsCount(stats, address, n - 1);
    }
  }

  /** Within one window (the counter was started or reset to 0), a connection is
      handed over for eviction at the next tick exactly when it sent at least
      `limit` frames; otherwise its counter is back at 0. An address that sends
      exactly `limit` frames IS evicted. */
  lemma EvictedIffLimitReached(stats: Stats, address: RemoteAddress, n: nat, limit: int)
    requires address in stats && stats[address] == 0
    ensures address in Hits(stats, address, n)
    ensures address in AtLimit(Hits(stats, address, n), limit) <==> n >= limit
    ensures n < limit ==> Ticked(Hits(stats, address, n), limit)[address] == 0
  {
    HitsCount(stats, address, n);
  }

  /** Counters never go below 0. */
  ghost predicate NonNegative(stats: Stats)
  {
    forall a :: a in stats ==> stats[a] >= 0
  }

  /** Ticking again changes nothing, and hands over the same addresses again: a
      connection that is not evicted before the next tick is queued once more. */
  lemma TickedIdempotent(stats: Stats, limit: int)
    requires NonNegative(stats)
    ensures Ticked(Ticked(stats, limit), limit) == Ticked(stats, limit)
    ensures AtLimit(Ticked(stats, limit), limit) == AtLimit(stats, limit)
  {
  }

  /** A tick keeps every counter non-negative. */
  lemma TickedNonNegative(stats: Stats, limit: int)
    requires NonNegative(stats)
    ensures NonNegative(Ticked(stats, limit))
  {
  }

  /** A sequence with no repeated element. */
  ghost predicate Distinct(s: seq<RemoteAddress>)
  {
    forall i, j :: 0 <= i < j < |s| ==> s[i] != s[j]
  }

  lemma DistinctSnoc(s: seq<RemoteAddress>, x: RemoteAddress)
    requires Distinct(s) && x !in s
    ensures Distinct(s + [x])
  {
  }

  class RateLimiter {
    const rateLimitPerSecond: int
    var clientRequestStatistics: Stats
    /** The eviction channel: addresses waiting for the engine. */
    var closeEvents: seq<RemoteAddress>

    /** Counters start at 0 and only go up until they are reset or dropped. */
    ghost predicate Valid()
      reads this
    {
      NonNegative(clientRequestStatistics)
    }

    constructor (rateLimitPerSecond: int)
      ensures Valid()
      ensures this.rateLimitPerSecond == rateLimitPerSecond
      ensures clientRequestStatistics == map[] && closeEvents == []
    {
      this.rateLimitPerSecond := rateLimitPerSecond;
      clientRequestStatistics := map[];
      closeEvents := [];
    }

    /** startNewClientStatistic */
    method StartNewClientStatistic(address: RemoteAddress)
      requires Valid()
      modifies this`clientRequestStatistics
      ensures Valid()
      ensures clientRequestStatistics == Started(old(clientRequestStatistics), address)
    {
      clientRequestStatistics := clientRequestStatistics[address := 0];
    }

    /** updateClientStatistic */
    method UpdateClientStatistic(address: RemoteAddress)
      requires Valid()
      modifies this`clientRequestStatistics
      ensures Valid()
      ensures clientRequestStatistics == Hit(old(clientRequestStatistics), address)
    {
      if address !in clientRequestStatistics {
        return;
      }
      var stat := clientRequestStatistics[address];
      clientRequestStatistics := clientRequestStatistics[address := stat + 1];
    }

    /** deleteClientStatistic */
    method DeleteClientStatistic(address: RemoteAddress)
      requires Valid()
      modifies this`clientRequestStatistics
      ensures Valid()
      ensures clientRequestStatistics == Stopped(old(clientRequestStatistics), address)
    {
      if address !in clientRequestStatistics {
        return;
      }
      clientRequestStatistics := clientRequestStatistics - {address};
    }

    /** One tick of checkClientStatistics: visits every tracked address once, in
        no particular order; an address at or above the limit is appended to the
        eviction channel with its count kept, every other counter is reset. */
    method Tick()
      requires Valid()
      modifies this`clientRequestStatistics, this`closeEvents
      ensures Valid()
      ensures clientRequestStatistics == Ticked(old(clientRequestStatistics), rateLimitPerSecond)
      ensures |closeEvents| == |old(closeEvents)| + |AtLimit(old(clientRequestStatistics), rateLimitPerSecond)|
      ensures closeEvents[..|old(closeEvents)|] == old(closeEvents)
      ensures forall a :: a in closeEvents[|old(closeEvents)|..] <==>
                            a in AtLimit(old(clientRequestStatistics), rateLimitPerSecond)
      ensures Distinct(closeEvents[|old(closeEvents)|..])
    {
      ghost var before := clientRequestStatistics;
      ghost var evicted := AtLimit(before, rateLimitPerSecond);
      ghost var enqueued: seq<RemoteAddress> := [];
      ghost var enqueuedSet: set<RemoteAddress> := {};
      var pending := clientRequestStatistics.Keys;
      while pending != {}
        invariant pending <= before.Keys
        invariant clientRequestStatistics.Keys == before.Keys
        invariant forall a :: a in pending ==> clientRequestStatistics[a] == before[a]
        invariant forall a :: a in before && a !in pending ==>
                    clientRequestStatistics[a] == if before[a] >= rateLimitPerSecond then before[a] else 0
        invariant closeEvents == old(closeEvents) + enqueued
        invariant enqueuedSet == evicted - pending
        invariant forall a :: a in enqueued <==> a in enqueuedSet
        invariant |enqueued| == |enqueuedSet| && Distinct(enqueued)
        decreases pending
      {
        var client :| client in pending;
        var stat := clientRequestStatistics[client];
        if stat >= rateLimitPerSecond {
          assert client !in enqueuedSet;
          DistinctSnoc(enqueued, client);
          assert old(closeEvents) + (enqueued + [client]) == closeEvents + [client];
          closeEvents := closeEvents + [client];
          enqueued := enqueued + [client];
          enqueuedSet := enqueuedSet + {client};
        } else {
          clientRequestStatistics := clientRequestStatistics[client := 0];
        }
        pending := pending - {client};
      }
      assert closeEvents[|old(closeEvents)|..] == enqueued;
      TickedAgrees(before, clientRequestStatistics, rateLimitPerSecond);
      TickedNonNegative(before, rateLimitPerSecond);
    }

    /** Receiving from the eviction channel: the oldest queued address. */
    method TakeCloseEvent() returns (address: Option<RemoteAddress>)
      modifies this`closeEvents
      ensures old(closeEvents) == [] ==> address == None && closeEvents == []
      ensures old(closeEvents) != [] ==>
                address == Some(old(closeEvents)[0]) && closeEvents == old(closeEvents)[1..]
    {
      if closeEvents == [] {
        return None;
      }
      address := Some(closeEvents[0]);
      closeEvents := closeEvents[1..];
    }
  }
}
