/** The address book: a registry of known peers, the services each one
    advertises and the last time each one was seen.

    It keeps the same records in two indices: `byAddr` from address to
    `(last seen, services)`, and `byTime` from last-seen time to
    `(address, services)`, the latter read in time order. Time is an integer;
    the current time and the liveness window are parameters. Addresses and
    services are type parameters that only need equality. */
module AddressBook {

  datatype Option<T> = None | Some(value: T)

  /** `MetaAddr`: one observation of a peer. */
  datatype MetaAddr<A, S> = MetaAddr(addr: A, services: S, lastSeen: int)

  /** The two indices as one value. */
  datatype Index<A, S> = Index(byAddr: map<A, (int, S)>, byTime: map<int, (A, S)>)

  // ---------------------------------------------------------------------
  // Key order of the time index

  lemma EmptyOrHasElement(s: set<int>)
    ensures s == {} || exists x :: x in s
  {
    if forall x :: x !in s {
      assert s == {};
    }
  }

  lemma {:induction false} MaxExists(s: set<int>)
    requires |s| > 0
    ensures exists k :: k in s && forall j :: j in s ==> j <= k
    decreases |s|
  {
    EmptyOrHasElement(s);
    var x :| x in s;
    var rest := s - {x};
    if |rest| == 0 {
      assert forall j :: j in s ==> j <= x;
    } else {
      MaxExists(rest);
      var m :| m in rest && forall j :: j in rest ==> j <= m;
      var k := if x <= m then m else x;
      forall j | j in s ensures j <= k {
        if j != x { assert j in rest; }
      }
    }
  }

  /** The largest of a non-empty set of times: the last key of the ordered index. */
  function MaxKey(s: set<int>): (k: int)
    requires |s| > 0
    ensures k in s && forall j :: j in s ==> j <= k
  {
    MaxExists(s);
    var k :| k in s && forall j :: j in s ==> j <= k;
    k
  }

  // ---------------------------------------------------------------------
  // Read-only views of the time index

  /** The key and value under which `update` files an observation in the
      time index. */
  function ByTimeKv<A, S>(m: MetaAddr<A, S>): (int, (A, S))
  {
    (m.lastSeen, (m.addr, m.services))
  }

  /** `from_by_time_kv`: turns a time-index entry back into the observation
      that `update` filed under it. */
  function FromByTimeKv<A, S>(lastSeen: int, entry: (A, S)): (m: MetaAddr<A, S>)
    ensures ByTimeKv(m) == (lastSeen, entry)
  {
    MetaAddr(entry.0, entry.1, lastSeen)
  }

  /** Filing an observation and reading it back gives the observation. */
  lemma FromByTimeKvOfByTimeKv<A, S>(m: MetaAddr<A, S>)
    ensures FromByTimeKv(ByTimeKv(m).0, ByTimeKv(m).1) == m
  {
  }

  /** The times at which a listing of peers has entries. */
  ghost function Stamps<A, S>(r: seq<MetaAddr<A, S>>): set<int>
  {
    set i | 0 <= i < |r| :: r[i].lastSeen
  }

  /** Strictly most recent first. */
  ghost predicate Descending<A, S>(r: seq<MetaAddr<A, S>>)
  {
    forall i, j :: 0 <= i < j < |r| ==> r[i].lastSeen > r[j].lastSeen
  }

  /** Every peer of the listing is an entry of `byTime`, as `from_by_time_kv`
      gives it back. */
  ghost predicate EntriesOf<A, S>(r: seq<MetaAddr<A, S>>, byTime: map<int, (A, S)>)
  {
    forall i :: 0 <= i < |r| ==>
      r[i].lastSeen in byTime && byTime[r[i].lastSeen] == (r[i].addr, r[i].services)
  }

  /** The most recent entry put in front of a listing of the others is a
      listing of all. */
  lemma ConsListing<A, S>(byTime: map<int, (A, S)>, k: int, tail: seq<MetaAddr<A, S>>, r: seq<MetaAddr<A, S>>)
    requires k in byTime && forall t :: t in byTime ==> t <= k
    requires EntriesOf(tail, byTime - {k}) && Descending(tail)
    requires forall t :: t in byTime - {k} ==> t in Stamps(tail)
    requires r == [FromByTimeKv(k, byTime[k])] + tail
    ensures EntriesOf(r, byTime) && Descending(r)
    ensures forall t :: t in byTime ==> t in Stamps(r)
  {
    ConsCovers(byTime, k, tail, r);
    ConsEntries(byTime, k, tail, r);
    ConsDescending(byTime, k, tail, r);
  }

  lemma ConsCovers<A, S>(byTime: map<int, (A, S)>, k: int, tail: seq<MetaAddr<A, S>>, r: seq<MetaAddr<A, S>>)
    requires k in byTime
    requires forall t :: t in byTime - {k} ==> t in Stamps(tail)
    requires r == [FromByTimeKv(k, byTime[k])] + tail
    ensures forall t :: t in byTime ==> t in Stamps(r)
  {
    forall t | t in byTime ensures t in Stamps(r) {
      if t == k {
        assert r[0].lastSeen == k;
      } else {
        assert t in byTime - {k};
        var i :| 0 <= i < |tail| && tail[i].lastSeen == t;
        assert r[i + 1] == tail[i];
      }
    }
  }

  lemma ConsEntries<A, S>(byTime: map<int, (A, S)>, k: int, tail: seq<MetaAddr<A, S>>, r: seq<MetaAddr<A, S>>)
    requires k in byTime
    requires EntriesOf(tail, byTime - {k})
    requires r == [FromByTimeKv(k, byTime[k])] + tail
    ensures EntriesOf(r, byTime)
  {
    forall i | 0 <= i < |r| ensures r[i].lastSeen in byTime && byTime[r[i].lastSeen] == (r[i].addr, r[i].services) {
      if i > 0 { assert r[i] == tail[i - 1]; }
    }
  }

  lemma ConsDescending<A, S>(byTime: map<int, (A, S)>, k: int, tail: seq<MetaAddr<A, S>>, r: seq<MetaAddr<A, S>>)
    requires k in byTime && forall t :: t in byTime ==> t <= k
    requires EntriesOf(tail, byTime - {k}) && Descending(tail)
    requires r == [FromByTimeKv(k, byTime[k])] + tail
    ensures Descending(r)
  {
    forall i, j | 0 <= i < j < |r| ensures r[i].lastSeen > r[j].lastSeen {
      assert r[j] == tail[j - 1];
      if i > 0 { assert r[i] == tail[i - 1]; }
      else { assert tail[j - 1].lastSeen in byTime - {k}; }
    }
  }

  /** `peers`: every entry of the time index, most recently seen first. */
  function Peers<A, S>(byTime: map<int, (A, S)>): (r: seq<MetaAddr<A, S>>)
    ensures |r| == |byTime|
    decreases |byTime|
  {
    if |byTime| == 0 then []
    else
      var k := MaxKey(byTime.Keys);
      var rest := byTime - {k};
      assert rest.Keys == byTime.Keys - {k};
      [FromByTimeKv(k, byTime[k])] + Peers(rest)
  }

  /** The listing holds exactly the entries of the time index, each as
      `from_by_time_kv` gives it back, strictly most recent first. */
  lemma {:induction false} PeersIsListing<A, S>(byTime: map<int, (A, S)>)
    ensures EntriesOf(Peers(byTime), byTime)
    ensures forall t :: t in byTime ==> t in Stamps(Peers(byTime))
    ensures Descending(Peers(byTime))
    decreases |byTime|
  {
    if |byTime| > 0 {
      var k := MaxKey(byTime.Keys);
      var rest := byTime - {k};
      assert rest.Keys == byTime.Keys - {k};
      PeersIsListing(rest);
      ConsListing(byTime, k, Peers(rest), Peers(byTime));
    }
  }

  /** One step of the listing: the most recent entry, then the others. */
  lemma PeersUnfold<A, S>(byTime: map<int, (A, S)>)
    requires |byTime| > 0
    ensures var k := MaxKey(byTime.Keys);
      Peers(byTime) == [FromByTimeKv(k, byTime[k])] + Peers(byTime - {k})
  {
  }

  /** A listing of a non-empty time index starts with its most recent entry. */
  lemma ListingHead<A, S>(byTime: map<int, (A, S)>, r: seq<MetaAddr<A, S>>)
    requires |byTime| > 0
    requires EntriesOf(r, byTime)
    requires forall t :: t in byTime ==> t in Stamps(r)
    requires Descending(r)
    ensures |r| > 0
    ensures var k := MaxKey(byTime.Keys); r[0] == FromByTimeKv(k, byTime[k])
  {
    var k := MaxKey(byTime.Keys);
    assert k in Stamps(r);
    var j :| 0 <= j < |r| && r[j].lastSeen == k;
    assert r[0].lastSeen in byTime;
    assert r[0].lastSeen >= r[j].lastSeen;
  }

  /** A listing of an empty time index is empty. */
  lemma ListingOfEmpty<A, S>(byTime: map<int, (A, S)>, r: seq<MetaAddr<A, S>>)
    requires EntriesOf(r, byTime)
    ensures |byTime| == 0 ==> r == []
  {
    if |r| > 0 {
      assert r[0].lastSeen in byTime;
    }
  }

  /** Dropping the most recent entry of a listing leaves a listing of the rest. */
  lemma ListingTail<A, S>(byTime: map<int, (A, S)>, k: int, r: seq<MetaAddr<A, S>>)
    requires |r| > 0 && r[0].lastSeen == k
    requires EntriesOf(r, byTime)
    requires forall t :: t in byTime ==> t in Stamps(r)
    requires Descending(r)
    ensures EntriesOf(r[1..], byTime - {k})
    ensures forall t :: t in byTime - {k} ==> t in Stamps(r[1..])
    ensures Descending(r[1..])
  {
    var tail := r[1..];
    forall t | t in byTime - {k} ensures t in Stamps(tail) {
      var i :| 0 <= i < |r| && r[i].lastSeen == t;
      assert tail[i - 1] == r[i];
    }
    forall i | 0 <= i < |tail|
      ensures tail[i].lastSeen in byTime - {k} && (byTime - {k})[tail[i].lastSeen] == (tail[i].addr, tail[i].services)
    {
      assert tail[i] == r[i + 1];
      assert r[0].lastSeen > r[i + 1].lastSeen;
    }
    forall i, j | 0 <= i < j < |tail| ensures tail[i].lastSeen > tail[j].lastSeen {
      assert tail[i] == r[i + 1] && tail[j] == r[j + 1];
    }
  }

  /** A listing with the properties `Peers` promises is `Peers` itself: those
      properties determine the listing. */
  lemma {:induction false} PeersUnique<A, S>(byTime: map<int, (A, S)>, r: seq<MetaAddr<A, S>>)
    requires EntriesOf(r, byTime)
    requires forall t :: t in byTime ==> t in Stamps(r)
    requires Descending(r)
    ensures r == Peers(byTime)
    decreases |byTime|
  {
    if |byTime| == 0 {
      ListingOfEmpty(byTime, r);
    } else {
      var k := MaxKey(byTime.Keys);
      var rest := byTime - {k};
      assert rest.Keys == byTime.Keys - {k};
      ListingHead(byTime, r);
      ListingTail(byTime, k, r);
      PeersUnique(rest, r[1..]);
      PeersUnfold(byTime);
      assert r == [r[0]] + r[1..];
    }
  }

  /** The entries of `byTime` strictly older than `cutoff`. */
  function Below<A, S>(byTime: map<int, (A, S)>, cutoff: int): (m: map<int, (A, S)>)
    ensures forall t :: t in m <==> t in byTime && t < cutoff
    ensures forall t :: t in m ==> m[t] == byTime[t]
  {
    map t | t in byTime && t < cutoff :: byTime[t]
  }

  /** The time before which a peer is known to be disconnected. */
  function Cutoff(now: int, livePeerDuration: int): int
  {
    now - livePeerDuration
  }

  /** `disconnected_peers`: the peers last seen strictly before
      `now - livePeerDuration`, most recently seen first. A peer seen exactly
      at the cutoff may still be connected and is left out. */
  function DisconnectedPeers<A, S>(byTime: map<int, (A, S)>, now: int, livePeerDuration: int)
    : (r: seq<MetaAddr<A, S>>)
    ensures EntriesOf(r, byTime)
    ensures forall i :: 0 <= i < |r| ==> r[i].lastSeen < now - livePeerDuration
    ensures forall t :: t in byTime && t < now - livePeerDuration ==> t in Stamps(r)
    ensures Descending(r)
  {
    PeersIsListing(Below(byTime, Cutoff(now, livePeerDuration)));
    Peers(Below(byTime, Cutoff(now, livePeerDuration)))
  }

  /** `u` is what is left of `s` after dropping some of its first elements. */
  ghost predicate IsSuffix<T>(u: seq<T>, s: seq<T>)
  {
    |u| <= |s| && s[|s| - |u|..] == u
  }

  lemma SuffixOfSelf<T>(s: seq<T>)
    ensures IsSuffix(s, s)
  {
  }

  lemma SuffixOfCons<T>(h: T, t: seq<T>, u: seq<T>)
    requires IsSuffix(u, t)
    ensures IsSuffix(u, [h] + t)
  {
    assert ([h] + t)[|[h] + t| - |u|..] == t[|t| - |u|..];
  }

  /** The disconnected peers are the tail of the listing of all peers. */
  lemma {:induction false} DisconnectedIsSuffix<A, S>(byTime: map<int, (A, S)>, now: int, livePeerDuration: int)
    ensures IsSuffix(DisconnectedPeers(byTime, now, livePeerDuration), Peers(byTime))
  {
    ListingBelowIsSuffix(byTime, Cutoff(now, livePeerDuration), DisconnectedPeers(byTime, now, livePeerDuration));
  }

  lemma ListingBelowIsSuffix<A, S>(byTime: map<int, (A, S)>, cutoff: int, r: seq<MetaAddr<A, S>>)
    requires r == Peers(Below(byTime, cutoff))
    ensures IsSuffix(r, Peers(byTime))
  {
    BelowIsSuffix(byTime, cutoff);
  }

  /** The listing of the entries below any cutoff is a tail of the listing
      of all entries. */
  lemma {:induction false} BelowIsSuffix<A, S>(byTime: map<int, (A, S)>, cutoff: int)
    ensures IsSuffix(Peers(Below(byTime, cutoff)), Peers(byTime))
    decreases |byTime|
  {
    if |byTime| > 0 {
      var k := MaxKey(byTime.Keys);
      var rest := byTime - {k};
      assert rest.Keys == byTime.Keys - {k};
      if k < cutoff {
        assert Below(byTime, cutoff) == byTime;
        SuffixOfSelf(Peers(byTime));
      } else {
        assert Below(byTime, cutoff) == Below(rest, cutoff);
        BelowIsSuffix(rest, cutoff);
        PeersUnfold(byTime);
        SuffixOfCons(FromByTimeKv(k, byTime[k]), Peers(rest), Peers(Below(rest, cutoff)));
      }
    } else {
      assert Below(byTime, cutoff) == byTime;
      SuffixOfSelf(Peers(byTime));
    }
  }

  // ---------------------------------------------------------------------
  // The update (merge) protocol on values

  /** The two indices describe the same records: `byAddr[a] == (t, s)`
      exactly when `byTime[t] == (a, s)`. */
  ghost predicate Mirrored<A, S>(ix: Index<A, S>)
  {
    && (forall a :: a in ix.byAddr ==>
          ix.byAddr[a].0 in ix.byTime && ix.byTime[ix.byAddr[a].0] == (a, ix.byAddr[a].1))
    && (forall t :: t in ix.byTime ==>
          ix.byTime[t].0 in ix.byAddr && ix.byAddr[ix.byTime[t].0] == (t, ix.byTime[t].1))
  }

  /** `update` panics when an observation of a known address is not older
      than the recorded one and the time index has no entry at the recorded
      time. A strictly older observation is discarded before that lookup. */
  ghost predicate UpdateDefined<A, S>(ix: Index<A, S>, event: MetaAddr<A, S>)
  {
    event.addr in ix.byAddr && ix.byAddr[event.addr].0 <= event.lastSeen ==>
      ix.byAddr[event.addr].0 in ix.byTime
  }

  /** No address other than the event's holds the event's time. */
  ghost predicate StampFree<A, S>(ix: Index<A, S>, event: MetaAddr<A, S>)
  {
    forall a :: a in ix.byAddr && a != event.addr ==> ix.byAddr[a].0 != event.lastSeen
  }

  /** The indices after `update(event)`: a strictly older observation is
      dropped; an equal or newer one, or one of a new address, replaces the
      record in both indices. */
  ghost function Updated<A, S>(ix: Index<A, S>, event: MetaAddr<A, S>): Index<A, S>
    requires UpdateDefined(ix, event)
  {
    var record := (event.lastSeen, event.services);
    var entry := (event.addr, event.services);
    if event.addr in ix.byAddr then
      var prev := ix.byAddr[event.addr].0;
      if prev > event.lastSeen then ix
      else Index(ix.byAddr[event.addr := record], (ix.byTime - {prev})[event.lastSeen := entry])
    else
      Index(ix.byAddr[event.addr := record], ix.byTime[event.lastSeen := entry])
  }

  /** A strictly older observation of a known address is discarded, and
      does not panic even when the time index has lost that address's entry. */
  lemma StaleUpdateIgnored<A, S>(ix: Index<A, S>, event: MetaAddr<A, S>)
    requires event.addr in ix.byAddr && ix.byAddr[event.addr].0 > event.lastSeen
    ensures UpdateDefined(ix, event) && Updated(ix, event) == ix
  {
  }

  /** Updating keeps the indices mirrored as long as no other address is
      recorded at the event's time. */
  lemma {:induction false} UpdatePreservesMirror<A, S>(ix: Index<A, S>, event: MetaAddr<A, S>)
    requires Mirrored(ix) && StampFree(ix, event)
    ensures UpdateDefined(ix, event) && Mirrored(Updated(ix, event))
  {
    var ix' := Updated(ix, event);
    if event.addr in ix.byAddr && ix.byAddr[event.addr].0 <= event.lastSeen {
      var prev := ix.byAddr[event.addr].0;
      forall t | t in ix'.byTime
        ensures ix'.byTime[t].0 in ix'.byAddr && ix'.byAddr[ix'.byTime[t].0] == (t, ix'.byTime[t].1)
      {
        if t != event.lastSeen {
          assert t in ix.byTime && t != prev;
          assert ix.byTime[t].0 != event.addr;
        }
      }
    } else if event.addr !in ix.byAddr {
      forall t | t in ix'.byTime
        ensures ix'.byTime[t].0 in ix'.byAddr && ix'.byAddr[ix'.byTime[t].0] == (t, ix'.byTime[t].1)
      {
        if t != event.lastSeen {
          assert ix.byTime[t].0 != event.addr;
        }
      }
    }
  }

  /** When another address already holds the event's time, an update that is
      not dropped overwrites that address's time entry, and the indices stop
      mirroring each other. */
  lemma UpdateLosesMirror<A, S>(ix: Index<A, S>, event: MetaAddr<A, S>, other: A)
    requires Mirrored(ix)
    requires other in ix.byAddr && other != event.addr && ix.byAddr[other].0 == event.lastSeen
    requires event.addr in ix.byAddr ==> ix.byAddr[event.addr].0 <= event.lastSeen
    ensures UpdateDefined(ix, event) && !Mirrored(Updated(ix, event))
  {
    var ix' := Updated(ix, event);
    assert ix'.byAddr[other] == ix.byAddr[other];
    assert ix'.byTime[event.lastSeen].0 == event.addr;
  }

  /** The loss is not only of the invariant: two addresses observed at the
      same time, then a newer observation of the first, leave the second
      without a time entry, and the next update of the second that is not
      older than its recorded time panics. */
  lemma CollisionThenPanic<A, S>(a: A, b: A, sa: S, sb: S, t: int, t': int, t'': int)
    requires a != b && t < t' && t <= t''
    ensures var ix1 := Updated(Index(map[], map[]), MetaAddr(a, sa, t));
      var ix2 := Updated(ix1, MetaAddr(b, sb, t));
      UpdateDefined(ix2, MetaAddr(a, sa, t')) &&
      !UpdateDefined(Updated(ix2, MetaAddr(a, sa, t')), MetaAddr(b, sb, t''))
  {
    var ix1 := Updated(Index(map[], map[]), MetaAddr(a, sa, t));
    var ix2 := Updated(ix1, MetaAddr(b, sb, t));
    assert ix2.byTime == map[t := (b, sb)];
    var ix3 := Updated(ix2, MetaAddr(a, sa, t'));
    assert ix3.byTime == map[t' := (a, sa)];
    assert ix3.byAddr[b].0 == t;
  }

  /** Of two observations of one address, the newer one decides the final
      state, whatever order they arrive in. */
  lemma {:induction false} UpdateOrderIndependent<A, S>(ix: Index<A, S>, older: MetaAddr<A, S>, newer: MetaAddr<A, S>)
    requires Mirrored(ix) && StampFree(ix, older) && StampFree(ix, newer)
    requires older.addr == newer.addr && older.lastSeen < newer.lastSeen
    ensures UpdateDefined(ix, older) && UpdateDefined(ix, newer)
    ensures UpdateDefined(Updated(ix, older), newer) && UpdateDefined(Updated(ix, newer), older)
    ensures Updated(Updated(ix, older), newer) == Updated(Updated(ix, newer), older)
    ensures (newer.addr in ix.byAddr ==> ix.byAddr[newer.addr].0 <= newer.lastSeen) ==>
      Updated(Updated(ix, older), newer).byAddr[newer.addr] == (newer.lastSeen, newer.services)
  {
    UpdatePreservesMirror(ix, older);
    UpdatePreservesMirror(ix, newer);
    var a := older.addr;
    if a in ix.byAddr && ix.byAddr[a].0 <= older.lastSeen {
      var prev := ix.byAddr[a].0;
      var one := Updated(Updated(ix, older), newer);
      var two := Updated(Updated(ix, newer), older);
      assert older.lastSeen in ix.byTime ==> ix.byAddr[ix.byTime[older.lastSeen].0].0 == older.lastSeen;
      assert older.lastSeen !in ix.byTime - {prev};
      assert one.byTime == two.byTime;
    } else if a !in ix.byAddr {
      var one := Updated(Updated(ix, older), newer);
      var two := Updated(Updated(ix, newer), older);
      assert older.lastSeen !in ix.byTime;
      assert one.byTime == two.byTime;
      assert one.byAddr == two.byAddr;
    }
  }

  // ---------------------------------------------------------------------
  // Bulk ingest on values

  /** Every update of the batch, applied in order, is defined. */
  ghost predicate ExtendDefined<A, S>(ix: Index<A, S>, events: seq<MetaAddr<A, S>>)
    decreases |events|
  {
    events != [] ==>
      UpdateDefined(ix, events[0]) && ExtendDefined(Updated(ix, events[0]), events[1..])
  }

  /** `extend`: `update` applied to each event, first to last. */
  ghost function ExtendAll<A, S>(ix: Index<A, S>, events: seq<MetaAddr<A, S>>): Index<A, S>
    requires ExtendDefined(ix, events)
    decreases |events|
  {
    if events == [] then ix else ExtendAll(Updated(ix, events[0]), events[1..])
  }

  /** No two different addresses share a time, among the batch and the
      records already held. */
  ghost predicate BatchStampsFree<A, S>(ix: Index<A, S>, events: seq<MetaAddr<A, S>>)
  {
    && (forall i, j :: 0 <= i < |events| && 0 <= j < |events| && events[i].addr != events[j].addr ==>
          events[i].lastSeen != events[j].lastSeen)
    && (forall i :: 0 <= i < |events| ==> StampFree(ix, events[i]))
  }

  /** A batch whose times do not collide across addresses is ingested without
      a panic and keeps the indices mirrored. */
  lemma {:induction false} ExtendPreservesMirror<A, S>(ix: Index<A, S>, events: seq<MetaAddr<A, S>>)
    requires Mirrored(ix) && BatchStampsFree(ix, events)
    ensures ExtendDefined(ix, events) && Mirrored(ExtendAll(ix, events))
    decreases |events|
  {
    if events != [] {
      var e := events[0];
      UpdatePreservesMirror(ix, e);
      var ix' := Updated(ix, e);
      var rest := events[1..];
      forall i | 0 <= i < |rest| ensures StampFree(ix', rest[i]) {
        assert rest[i] == events[i + 1];
        forall a | a in ix'.byAddr && a != rest[i].addr
          ensures ix'.byAddr[a].0 != rest[i].lastSeen
        {
          if a == e.addr && ix'.byAddr[a].0 == e.lastSeen {
            assert events[0].addr != events[i + 1].addr;
          } else {
            assert a in ix.byAddr && ix'.byAddr[a] == ix.byAddr[a];
          }
        }
      }
      assert BatchStampsFree(ix', rest) by {
        forall i, j | 0 <= i < |rest| && 0 <= j < |rest| && rest[i].addr != rest[j].addr
          ensures rest[i].lastSeen != rest[j].lastSeen
        {
          assert rest[i] == events[i + 1] && rest[j] == events[j + 1];
        }
      }
      ExtendPreservesMirror(ix', rest);
    }
  }

  // ---------------------------------------------------------------------
  // Draining on values

  /** One `Drain::next`: removes the most recent time entry and the address
      it names. A missing address entry is not an error. */
  function DrainStep<A, S>(ix: Index<A, S>): (r: (Option<MetaAddr<A, S>>, Index<A, S>))
    ensures r.0.None? <==> |ix.byTime| == 0
    ensures r.0.None? ==> r.1 == ix
    ensures r.0.Some? ==> r.0.value == Peers(ix.byTime)[0] && Peers(r.1.byTime) == Peers(ix.byTime)[1..]
    ensures r.0.Some? ==> r.1.byAddr == ix.byAddr - {r.0.value.addr}
  {
    if |ix.byTime| == 0 then (None, ix)
    else
      var mostRecent := MaxKey(ix.byTime.Keys);
      var (addr, services) := ix.byTime[mostRecent];
      assert (ix.byTime - {mostRecent}).Keys == ix.byTime.Keys - {mostRecent};
      (Some(MetaAddr(addr, services, mostRecent)), Index(ix.byAddr - {addr}, ix.byTime - {mostRecent}))
  }

  /** A drain step keeps mirrored indices mirrored. */
  lemma DrainStepPreservesMirror<A, S>(ix: Index<A, S>)
    requires Mirrored(ix)
    ensures Mirrored(DrainStep(ix).1)
  {
    if |ix.byTime| > 0 {
      var (r, ix') := DrainStep(ix);
      var k := r.value.lastSeen;
      forall a | a in ix'.byAddr
        ensures ix'.byAddr[a].0 in ix'.byTime && ix'.byTime[ix'.byAddr[a].0] == (a, ix'.byAddr[a].1)
      {
        assert ix.byAddr[a].0 != k;
      }
    }
  }

  /** What `n` successive calls of `Drain::next` yield, and the indices left. */
  ghost function Drained<A, S>(ix: Index<A, S>, n: nat): (seq<MetaAddr<A, S>>, Index<A, S>)
    decreases n
  {
    if n == 0 then ([], ix)
    else
      var step := DrainStep(ix);
      var later := Drained(step.1, n - 1);
      (if step.0.Some? then [step.0.value] + later.0 else later.0, later.1)
  }

  lemma TakeDropCons<T>(p: seq<T>, n: nat)
    requires 0 < n <= |p|
    ensures [p[0]] + p[1..][..n - 1] == p[..n] && p[1..][n - 1..] == p[n..]
  {
  }

  /** Draining `n` peers yields the first `n` peers of the listing, and the
      listing of what is left is the rest of it, in the same order. */
  lemma {:induction false} DrainYieldsPeers<A, S>(ix: Index<A, S>, n: nat)
    requires n <= |ix.byTime|
    ensures Drained(ix, n).0 == Peers(ix.byTime)[..n]
    ensures Peers(Drained(ix, n).1.byTime) == Peers(ix.byTime)[n..]
    decreases n
  {
    if n > 0 {
      var p := Peers(ix.byTime);
      var step := DrainStep(ix);
      assert step.0 == Some(p[0]) && Peers(step.1.byTime) == p[1..];
      assert |step.1.byTime| == |p| - 1;
      DrainYieldsPeers(step.1, n - 1);
      var later := Drained(step.1, n - 1);
      assert Drained(ix, n) == ([p[0]] + later.0, later.1);
      TakeDropCons(p, n);
    }
  }

  /** A prefix of a descending listing of entries is one too. */
  lemma PrefixListing<A, S>(p: seq<MetaAddr<A, S>>, byTime: map<int, (A, S)>, n: nat)
    requires n <= |p| && EntriesOf(p, byTime) && Descending(p)
    ensures EntriesOf(p[..n], byTime) && Descending(p[..n])
  {
    var d := p[..n];
    forall i, j | 0 <= i < j < |d| ensures d[i].lastSeen > d[j].lastSeen {
      assert d[i] == p[i] && d[j] == p[j];
    }
    forall i | 0 <= i < |d|
      ensures d[i].lastSeen in byTime && byTime[d[i].lastSeen] == (d[i].addr, d[i].services)
    {
      assert d[i] == p[i];
    }
  }

  /** Successive drain results are strictly descending in time, and each is
      an entry of the time index the drain started from. */
  lemma DrainDescending<A, S>(ix: Index<A, S>, n: nat)
    requires n <= |ix.byTime|
    ensures |Drained(ix, n).0| == n
    ensures Descending(Drained(ix, n).0) && EntriesOf(Drained(ix, n).0, ix.byTime)
  {
    DrainYieldsPeers(ix, n);
    PeersIsListing(ix.byTime);
    PrefixListing(Peers(ix.byTime), ix.byTime, n);
  }

  /** Draining to exhaustion yields every peer once, most recent first, and
      leaves both indices empty when they were mirrored. */
  lemma {:induction false} DrainToExhaustion<A, S>(ix: Index<A, S>)
    requires Mirrored(ix)
    ensures Drained(ix, |ix.byTime|).0 == Peers(ix.byTime)
    ensures Drained(ix, |ix.byTime|).1 == Index(map[], map[])
  {
    var n := |ix.byTime|;
    DrainYieldsPeers(ix, n);
    DrainKeepsMirror(ix, n);
    var left := Drained(ix, n).1;
    assert Peers(ix.byTime)[..n] == Peers(ix.byTime);
    assert |left.byTime.Keys| == 0;
    assert left.byTime == map[];
    assert left.byAddr == map[];
  }

  lemma {:induction false} DrainKeepsMirror<A, S>(ix: Index<A, S>, n: nat)
    requires Mirrored(ix)
    ensures Mirrored(Drained(ix, n).1)
    decreases n
  {
    if n > 0 {
      DrainStepPreservesMirror(ix);
      DrainKeepsMirror(DrainStep(ix).1, n - 1);
    }
  }

  // ---------------------------------------------------------------------
  // The address book object

  /** `AddressBook`: the two indices, updated in place. */
  class AddressBook<A(==), S> {
    var byAddr: map<A, (int, S)>
    var byTime: map<int, (A, S)>

    function View(): Index<A, S>
      reads this
    {
      Index(byAddr, byTime)
    }

    /** The empty address book (`Default`). */
    constructor ()
      ensures byAddr == map[] && byTime == map[]
      ensures Mirrored(View())
    {
      byAddr := map[];
      byTime := map[];
    }

    /** `update`: merges one observation. */
    method Update(event: MetaAddr<A, S>)
      requires UpdateDefined(View(), event)
      modifies this
      ensures View() == Updated(old(View()), event)
      ensures old(event.addr !in byAddr) ==>
        byAddr == old(byAddr)[event.addr := (event.lastSeen, event.services)] &&
        byTime == old(byTime)[event.lastSeen := (event.addr, event.services)]
      ensures old(event.addr in byAddr && byAddr[event.addr].0 > event.lastSeen) ==>
        byAddr == old(byAddr) && byTime == old(byTime)
      ensures old(event.addr in byAddr && byAddr[event.addr].0 <= event.lastSeen) ==>
        byAddr == old(byAddr)[event.addr := (event.lastSeen, event.services)] &&
        byTime == (old(byTime) - {old(byAddr[event.addr].0)})[event.lastSeen := (event.addr, event.services)]
    {
      var addr, services, lastSeen := event.addr, event.services, event.lastSeen;
      if addr in byAddr {
        var prevLastSeen := byAddr[addr].0;
        if prevLastSeen > lastSeen {
          return;
        }
        byTime := byTime - {prevLastSeen};
        byAddr := byAddr[addr := (lastSeen, services)];
        byTime := byTime[lastSeen := (addr, services)];
      } else {
        byAddr := byAddr[addr := (lastSeen, services)];
        byTime := byTime[lastSeen := (addr, services)];
      }
    }

    /** `extend`: merges a batch of observations, first to last. */
    method Extend(events: seq<MetaAddr<A, S>>)
      requires ExtendDefined(View(), events)
      modifies this
      ensures View() == ExtendAll(old(View()), events)
    {
      for i := 0 to |events|
        invariant ExtendDefined(View(), events[i..])
        invariant ExtendAll(old(View()), events) == ExtendAll(View(), events[i..])
      {
        assert events[i..][1..] == events[i + 1..];
        Update(events[i]);
      }
    }

    /** `drain_recent`: an iterator that empties this book, most recent first. */
    method DrainRecent() returns (d: Drain<A, S>)
      ensures fresh(d) && d.book == this
    {
      d := new Drain(this);
    }
  }

  /** `Drain`: holds the book it drains. */
  class Drain<A(==), S> {
    const book: AddressBook<A, S>

    constructor (book: AddressBook<A, S>)
      ensures this.book == book
    {
      this.book := book;
    }

    /** `Drain::next`: removes and returns the most recently seen peer, or
        nothing once the time index is empty. */
    method Next() returns (r: Option<MetaAddr<A, S>>)
      modifies book
      ensures (r, book.View()) == DrainStep(old(book.View()))
      ensures r.None? <==> old(|book.byTime|) == 0
      ensures r.Some? ==>
        r.value == old(Peers(book.byTime))[0] &&
        Peers(book.byTime) == old(Peers(book.byTime))[1..] &&
        book.byAddr == old(book.byAddr) - {r.value.addr}
    {
      if |book.byTime| == 0 {
        return None;
      }
      var mostRecent := MaxKey(book.byTime.Keys);
      var (addr, services) := book.byTime[mostRecent];
      book.byTime := book.byTime - {mostRecent};
      book.byAddr := book.byAddr - {addr};
      r := Some(MetaAddr(addr, services, mostRecent));
    }
  }
}
