/** dht/ping/collection.go, the earlier design of the ping tracker: a map
    for lookup and a slice in insertion order, where Pop deletes from the
    map only and the slice is trimmed when pings expire.

    The trimming is modelled as written: when the sweep stops at the first
    ping that has not expired, at index i, the slice keeps `pings[i+1:]`, so
    that live ping leaves the slice while it stays in the map; and when every
    ping has expired the slice is left whole. */
module PingCollection {
  import opened Bytes
  import opened Errors
  import Ping

  /** The ping record this file was written against: the same three
      values, with the key and the id readable from outside. */
  datatype CollectionPing = CollectionPing(publicKey: Key, id: uint64, time: int)

  datatype PingKey = PingKey(id: uint64, publicKey: Key)

  function KeyOf(p: CollectionPing): PingKey
  {
    PingKey(p.id, p.publicKey)
  }

  predicate Expired(p: CollectionPing, timeout: int, now: int)
  {
    Ping.ExpiredSince(p.time, timeout, now)
  }

  /** The number of leading pings of the slice that have expired. */
  function ExpiredPrefix(pings: seq<CollectionPing>, timeout: int, now: int): (n: nat)
    ensures n <= |pings|
    ensures forall i :: 0 <= i < n ==> Expired(pings[i], timeout, now)
    ensures n < |pings| ==> !Expired(pings[n], timeout, now)
  {
    if |pings| > 0 && Expired(pings[0], timeout, now) then 1 + ExpiredPrefix(pings[1..], timeout, now) else 0
  }

  /** The keys of the pings in a slice. */
  function KeySet(pings: seq<CollectionPing>): set<PingKey>
  {
    set i | 0 <= i < |pings| :: KeyOf(pings[i])
  }

  /** The slice ClearExpired leaves, as the Go code computes it. */
  function TrimmedPings(pings: seq<CollectionPing>, timeout: int, now: int): seq<CollectionPing>
  {
    var n := ExpiredPrefix(pings, timeout, now);
    if n < |pings| then pings[n + 1..] else pings
  }

  /** The map ClearExpired leaves: the keys of the leading expired pings go. */
  function SweptMap(pingMap: map<PingKey, CollectionPing>, pings: seq<CollectionPing>, timeout: int, now: int): map<PingKey, CollectionPing>
  {
    pingMap - KeySet(pings[..ExpiredPrefix(pings, timeout, now)])
  }

  /** The pings whose keys leave the map between two of its states. */
  function Dropped(before: map<PingKey, CollectionPing>, after: map<PingKey, CollectionPing>): (d: set<CollectionPing>)
    ensures forall k :: k in before && k !in after ==> before[k] in d
    ensures forall v :: v in d ==> exists k :: k in before && k !in after && before[k] == v
  {
    set k | k in before && k !in after :: before[k]
  }

  class Collection {
    var pings: seq<CollectionPing>
    var pingMap: map<PingKey, CollectionPing>
    const timeout: int
    /** The pings Add has put in the map. */
    ghost var added: set<CollectionPing>
    /** The pings Pop or a sweep has taken out of the map since they were
        last added. */
    ghost var removed: set<CollectionPing>

    /** Each map entry is stored under its own key, and is a ping that was
        added and has been neither popped nor swept since. */
    ghost predicate Valid()
      reads this
    {
      forall k :: k in pingMap ==> KeyOf(pingMap[k]) == k && pingMap[k] in added && pingMap[k] !in removed
    }

    /** NewCollection. */
    constructor (timeout: int)
      ensures Valid()
      ensures pings == [] && pingMap == map[] && this.timeout == timeout && added == {} && removed == {}
    {
      pings := [];
      pingMap := map[];
      this.timeout := timeout;
      added := {};
      removed := {};
    }

    /** ClearExpired: deletes from the map every ping of the leading run of
        expired slice entries, then reslices from `deli`. */
    method ClearExpired(now: int)
      requires Valid()
      modifies this
      ensures Valid() && added == old(added)
      ensures removed == old(removed) + Dropped(old(pingMap), pingMap)
      ensures pingMap == SweptMap(old(pingMap), old(pings), timeout, now)
      ensures pings == TrimmedPings(old(pings), timeout, now)
    {
      ghost var before := pingMap;
      var deli := 0;
      var i := 0;
      var n := ExpiredPrefix(pings, timeout, now);
      while i < |pings|
        invariant 0 <= i <= n <= |pings|
        invariant pings == old(pings) && added == old(added) && removed == old(removed) && deli == 0
        invariant pingMap == before - KeySet(pings[..i])
      {
        var p := pings[i];
        if !Expired(p, timeout, now) {
          deli := i + 1;
          break;
        }
        assert i < n;
        assert pings[..i + 1] == pings[..i] + [p];
        assert KeySet(pings[..i + 1]) == KeySet(pings[..i]) + {KeyOf(p)} by {
          assert forall j :: 0 <= j < i ==> pings[..i + 1][j] == pings[..i][j];
        }
        pingMap := pingMap - {KeyOf(p)};
        i := i + 1;
      }
      assert i == n;
      assert deli == (if n < |pings| then n + 1 else 0);
      pings := pings[deli..];
      removed := removed + Dropped(before, pingMap);
      ValidAfterDrop(before, pingMap, old(removed));
    }

    /** Add: sweeps, refuses a (key, id) already in the map, else puts the
        ping in the map and appends it to the slice. */
    method Add(p: CollectionPing, now: int) returns (r: Option<Error>)
      requires Valid()
      modifies this
      ensures Valid()
      ensures var swept := SweptMap(old(pingMap), old(pings), timeout, now);
        var trimmed := TrimmedPings(old(pings), timeout, now);
        var sweptOut := old(removed) + Dropped(old(pingMap), swept);
        && (KeyOf(p) in swept ==>
              && r == Some(PingIDInCollection(p.id)) && pingMap == swept && pings == trimmed
              && added == old(added) && removed == sweptOut)
        && (KeyOf(p) !in swept ==>
              && r == None && pingMap == swept[KeyOf(p) := p] && pings == trimmed + [p]
              && added == old(added) + {p} && removed == sweptOut - {p})
    {
      ClearExpired(now);
      var key := PingKey(p.id, p.publicKey);
      if key in pingMap {
        return Some(PingIDInCollection(p.id));
      }
      pingMap := pingMap[key := p];
      pings := pings + [p];
      added := added + {p};
      removed := removed - {p};
      return None;
    }

    /** AddNew: creates a ping with the generated id and the clock reading
        and adds it, passing either error back unchanged. */
    method AddNew(publicKey: Key, generated: Result<uint64>, now: int) returns (r: Result<CollectionPing>)
      requires Valid()
      modifies this
      ensures Valid()
      ensures generated.Err? ==> r == Err(generated.error) && unchanged(this)
      ensures generated.Ok? ==>
        var p := CollectionPing(publicKey, generated.value, now);
        var swept := SweptMap(old(pingMap), old(pings), timeout, now);
        var trimmed := TrimmedPings(old(pings), timeout, now);
        var sweptOut := old(removed) + Dropped(old(pingMap), swept);
        && (KeyOf(p) in swept ==>
              && r == Err(PingIDInCollection(p.id)) && pingMap == swept && pings == trimmed
              && added == old(added) && removed == sweptOut)
        && (KeyOf(p) !in swept ==>
              && r == Ok(p) && pingMap == swept[KeyOf(p) := p] && pings == trimmed + [p]
              && added == old(added) + {p} && removed == sweptOut - {p})
    {
      var made := Ping.New(publicKey, generated, now);
      if made.Err? {
        return Err(made.error);
      }
      var p := CollectionPing(made.value.publicKey, made.value.id, made.value.time);
      var err := Add(p, now);
      if err.Some? {
        return Err(err.value);
      }
      return Ok(p);
    }

    /** Pop: sweeps, then on a hit deletes the key from the map only,
        leaving the ping in the slice, and returns it. */
    method Pop(publicKey: Key, id: uint64, now: int) returns (r: Result<CollectionPing>)
      requires Valid()
      modifies this
      ensures Valid() && added == old(added)
      ensures removed == old(removed) + Dropped(old(pingMap), pingMap)
      ensures pings == TrimmedPings(old(pings), timeout, now)
      ensures var swept := SweptMap(old(pingMap), old(pings), timeout, now);
        var key := PingKey(id, publicKey);
        && (key !in swept ==> r == Err(PingIDNotInCollection(id)) && pingMap == swept)
        && (key in swept ==> r == Ok(swept[key]) && pingMap == swept - {key})
    {
      ClearExpired(now);
      ghost var swept := pingMap;
      var key := PingKey(id, publicKey);
      if key !in pingMap {
        assert Dropped(old(pingMap), pingMap) == Dropped(old(pingMap), swept);
        return Err(PingIDNotInCollection(id));
      }
      var p := pingMap[key];
      pingMap := pingMap - {key};
      DroppedTwice(old(pingMap), swept, pingMap);
      removed := removed + Dropped(swept, pingMap);
      ValidAfterDrop(swept, pingMap, removed - Dropped(swept, pingMap));
      return Ok(p);
    }

    /** Taking keys out of a valid map, and the pings under them into
        `removed`, keeps the map valid. */
    lemma ValidAfterDrop(before: map<PingKey, CollectionPing>, after: map<PingKey, CollectionPing>, removedBefore: set<CollectionPing>)
      requires forall k :: k in before ==> KeyOf(before[k]) == k && before[k] in added && before[k] !in removedBefore
      requires forall k :: k in after ==> k in before && after[k] == before[k]
      requires pingMap == after && removed == removedBefore + Dropped(before, after)
      ensures Valid()
    {
      forall k | k in pingMap
        ensures pingMap[k] !in Dropped(before, after)
      {
        forall j | j in before && j !in after
          ensures before[j] != pingMap[k]
        {
          assert KeyOf(before[j]) == j;
        }
      }
    }
  }

  /** Keys dropped in two steps are the keys dropped in one. */
  lemma DroppedTwice(a: map<PingKey, CollectionPing>, b: map<PingKey, CollectionPing>, c: map<PingKey, CollectionPing>)
    requires forall k :: k in b ==> k in a && b[k] == a[k]
    requires forall k :: k in c ==> k in b && c[k] == b[k]
    ensures Dropped(a, c) == Dropped(a, b) + Dropped(b, c)
  {
  }

  /** As written, the sweep drops the first live ping from the slice: when
      the leading run of expired pings ends at index n, the slice loses
      entries 0..n, and the ping at n stays in the map under its key unless
      an expired ping before it had the same key. */
  lemma TrimDropsFirstLivePing(pingMap: map<PingKey, CollectionPing>, pings: seq<CollectionPing>, timeout: int, now: int)
    requires ExpiredPrefix(pings, timeout, now) < |pings|
    ensures var n := ExpiredPrefix(pings, timeout, now);
      && !Expired(pings[n], timeout, now)
      && TrimmedPings(pings, timeout, now) == pings[n + 1..]
      && (KeyOf(pings[n]) in pingMap && KeyOf(pings[n]) !in KeySet(pings[..n]) ==>
            KeyOf(pings[n]) in SweptMap(pingMap, pings, timeout, now))
  {
  }

  /** As written, when every ping has expired the slice is left whole,
      while every key in it leaves the map. */
  lemma AllExpiredKeepsSlice(pingMap: map<PingKey, CollectionPing>, pings: seq<CollectionPing>, timeout: int, now: int)
    requires forall i :: 0 <= i < |pings| ==> Expired(pings[i], timeout, now)
    ensures TrimmedPings(pings, timeout, now) == pings
    ensures forall i :: 0 <= i < |pings| ==> KeyOf(pings[i]) !in SweptMap(pingMap, pings, timeout, now)
  {
    var n := ExpiredPrefix(pings, timeout, now);
    assert n == |pings|;
    assert pings[..n] == pings;
  }

  /** The sweep deletes from the map exactly the keys of the leading
      expired pings. */
  lemma SweepDeletesLeadingExpired(pingMap: map<PingKey, CollectionPing>, pings: seq<CollectionPing>, timeout: int, now: int, k: PingKey)
    ensures k in SweptMap(pingMap, pings, timeout, now) <==>
      k in pingMap && forall i :: 0 <= i < ExpiredPrefix(pings, timeout, now) ==> KeyOf(pings[i]) != k
  {
    var n := ExpiredPrefix(pings, timeout, now);
    if k in pingMap && k !in SweptMap(pingMap, pings, timeout, now) {
      var i :| 0 <= i < n && KeyOf(pings[..n][i]) == k;
      assert pings[..n][i] == pings[i];
    }
  }
}
