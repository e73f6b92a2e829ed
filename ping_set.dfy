/** dht/ping/set.go: the set of outstanding pings.  A map keyed by (id,
    public-key bytes) gives lookup, and a list in insertion order gives the
    order of expiry; both hold the same pings.  Every Add and Pop first
    sweeps the expired pings off the front of the list. */
module PingSet {
  import opened Bytes
  import opened Errors
  import opened Ping

  /** DefaultTimeout: five seconds. */
  const DefaultTimeout: int := 5 * Second

  /** pingKey: the id and a copy of the key bytes, so two pings with equal
      keys collide however the keys are stored. */
  datatype PingKey = PingKey(id: uint64, publicKey: Key)

  function KeyOf(p: Ping): PingKey
  {
    PingKey(p.id, p.publicKey)
  }

  /** The keys of a list of pings, in order. */
  function Keys(l: seq<Ping>): (ks: seq<PingKey>)
    ensures |ks| == |l| && forall i :: 0 <= i < |l| ==> ks[i] == KeyOf(l[i])
  {
    seq(|l|, i requires 0 <= i < |l| => KeyOf(l[i]))
  }

  predicate DistinctKeys(l: seq<Ping>)
  {
    forall i, j :: 0 <= i < j < |l| ==> KeyOf(l[i]) != KeyOf(l[j])
  }

  /** The map that holds the pings of a list, each under its own key. */
  function MapOf(l: seq<Ping>): map<PingKey, Ping>
  {
    if |l| == 0 then map[] else MapOf(l[..|l| - 1])[KeyOf(l[|l| - 1]) := l[|l| - 1]]
  }

  /** The list with its i-th element taken out. */
  function RemoveAt(l: seq<Ping>, i: nat): seq<Ping>
    requires i < |l|
  {
    l[..i] + l[i + 1..]
  }

  /** What remains of the list once clearExpired has removed pings from
      the front: the longest prefix of expired pings goes, the first ping
      that has not expired stops the sweep. */
  function DropExpired(l: seq<Ping>, timeout: int, now: int): seq<Ping>
  {
    if |l| > 0 && Expired(l[0], timeout, now) then DropExpired(l[1..], timeout, now) else l
  }

  /** The position of the ping a key names. */
  function IndexOfKey(l: seq<Ping>, k: PingKey): (i: nat)
    requires k in Keys(l)
    ensures i < |l| && KeyOf(l[i]) == k
  {
    if KeyOf(l[0]) == k then 0
    else
      assert Keys(l)[1..] == Keys(l[1..]);
      1 + IndexOfKey(l[1..], k)
  }

  /** The reallocation of clearExpired runs when more than a second has
      passed since the last one; `None` is the zero time.Time of a fresh Set,
      so the first sweep always reallocates. */
  predicate ReallocDue(lastRealloc: Option<int>, now: int)
  {
    lastRealloc.None? || now - lastRealloc.value > Second
  }

  function ReallocAfter(lastRealloc: Option<int>, now: int): Option<int>
  {
    if ReallocDue(lastRealloc, now) then Some(now) else lastRealloc
  }

  class Set {
    var pings: map<PingKey, Ping>
    var pingList: seq<Ping>
    const timeout: int
    var lastRealloc: Option<int>

    /** The map holds exactly the pings of the list, each under its own key,
        and no key is in the list twice. */
    predicate Valid()
      reads this
    {
      DistinctKeys(pingList) && pings == MapOf(pingList)
    }

    /** NewSet. */
    constructor (timeout: int)
      ensures Valid()
      ensures pings == map[] && pingList == [] && this.timeout == timeout && lastRealloc == None
    {
      pings := map[];
      pingList := [];
      this.timeout := timeout;
      lastRealloc := None;
    }

    /** Size: the number of map entries, which is the length of the list. */
    function Size(): (n: nat)
      requires Valid()
      reads this
      ensures n == |pings| == |pingList|
    {
      MapOfSize(pingList);
      |pings|
    }

    /** delete: the ping at position `i` leaves the map and the list. */
    method delete(i: nat)
      requires Valid() && i < |pingList|
      modifies this
      ensures Valid()
      ensures pingList == RemoveAt(old(pingList), i)
      ensures pings == old(pings) - {KeyOf(old(pingList)[i])}
      ensures lastRealloc == old(lastRealloc)
    {
      MapOfRemove(pingList, i);
      DistinctKeysRemove(pingList, i);
      pings := pings - {KeyOf(pingList[i])};
      pingList := RemoveAt(pingList, i);
    }

    /** clearExpired: deletes pings from the front of the list while they
        have expired, then reallocates the map when it is due; the
        reallocation copies the map, so only lastRealloc changes. */
    method clearExpired(now: int)
      requires Valid()
      modifies this
      ensures Valid()
      ensures pingList == DropExpired(old(pingList), timeout, now)
      ensures lastRealloc == ReallocAfter(old(lastRealloc), now)
    {
      while |pingList| > 0 && Expired(pingList[0], timeout, now)
        invariant Valid()
        invariant DropExpired(pingList, timeout, now) == DropExpired(old(pingList), timeout, now)
        invariant lastRealloc == old(lastRealloc)
        decreases |pingList|
      {
        assert RemoveAt(pingList, 0) == pingList[1..];
        delete(0);
      }
      if ReallocDue(lastRealloc, now) {
        var clone := map k | k in pings :: pings[k];
        assert clone == pings;
        pings := clone;
        lastRealloc := Some(now);
      }
    }

    /** Add: sweeps, creates the ping with the generated id and the clock
        reading, refuses a (key, id) already present, else puts the ping in
        the map and at the back of the list. */
    method Add(publicKey: Key, generated: Result<uint64>, now: int) returns (r: Result<Ping>)
      requires Valid()
      modifies this
      ensures Valid()
      ensures lastRealloc == ReallocAfter(old(lastRealloc), now)
      ensures var swept := DropExpired(old(pingList), timeout, now);
        && (generated.Err? ==> r == Err(generated.error) && pingList == swept)
        && (generated.Ok? && PingKey(generated.value, publicKey) in Keys(swept) ==>
              r == Err(PingIDInSet(generated.value)) && pingList == swept)
        && (generated.Ok? && PingKey(generated.value, publicKey) !in Keys(swept) ==>
              r == Ok(Ping(publicKey, generated.value, now)) && pingList == swept + [r.value])
    {
      clearExpired(now);
      var p := New(publicKey, generated, now);
      if p.Err? {
        return Err(p.error);
      }
      var key := PingKey(p.value.id, p.value.publicKey);
      MapOfKeys(pingList);
      if key in pings {
        return Err(PingIDInSet(p.value.id));
      }
      DistinctKeysAppend(pingList, p.value);
      pings := pings[key := p.value];
      pingList := pingList + [p.value];
      assert pingList[..|pingList| - 1] == old(DropExpired(pingList, timeout, now));
      return Ok(p.value);
    }

    /** Pop: sweeps, then removes the ping the (key, id) names from the map
        and the list and returns it; a miss is an error and leaves the
        swept set as it is. */
    method Pop(publicKey: Key, id: uint64, now: int) returns (r: Result<Ping>)
      requires Valid()
      modifies this
      ensures Valid()
      ensures lastRealloc == ReallocAfter(old(lastRealloc), now)
      ensures var swept := DropExpired(old(pingList), timeout, now);
        var key := PingKey(id, publicKey);
        && (key !in Keys(swept) ==> r == Err(PingIDNotInSet(id)) && pingList == swept)
        && (key in Keys(swept) ==>
              r == Ok(swept[IndexOfKey(swept, key)])
              && pingList == RemoveAt(swept, IndexOfKey(swept, key)))
    {
      clearExpired(now);
      var key := PingKey(id, publicKey);
      MapOfKeys(pingList);
      if key !in pings {
        return Err(PingIDNotInSet(id));
      }
      var i := IndexOfKey(pingList, key);
      MapOfLookup(pingList, i);
      var p := pings[key];
      delete(i);
      return Ok(p);
    }
  }

  // ---------------------------------------------------------------------
  // The map built from the list

  /** Every key of the list is in its map, holding the ping it names. */
  lemma {:induction false} MapOfLookup(l: seq<Ping>, i: nat)
    requires DistinctKeys(l) && i < |l|
    ensures KeyOf(l[i]) in MapOf(l) && MapOf(l)[KeyOf(l[i])] == l[i]
  {
    if i < |l| - 1 {
      MapOfLookup(l[..|l| - 1], i);
    }
  }

  /** The map holds no key but those of the list. */
  lemma {:induction false} MapOfKeys(l: seq<Ping>)
    ensures forall k :: k in MapOf(l) <==> k in Keys(l)
  {
    if |l| > 0 {
      var p := l[..|l| - 1];
      MapOfKeys(p);
      assert Keys(l) == Keys(p) + [KeyOf(l[|l| - 1])];
    }
  }

  lemma {:induction false} MapOfSize(l: seq<Ping>)
    requires DistinctKeys(l)
    ensures |MapOf(l)| == |l|
  {
    if |l| > 0 {
      var p := l[..|l| - 1];
      MapOfSize(p);
      MapOfKeys(p);
      LastKeyIsNew(l);
    }
  }

  lemma DistinctKeysAppend(l: seq<Ping>, x: Ping)
    requires DistinctKeys(l) && KeyOf(x) !in Keys(l)
    ensures DistinctKeys(l + [x])
  {
    var m := l + [x];
    forall i, j | 0 <= i < j < |m| ensures KeyOf(m[i]) != KeyOf(m[j]) {
      if j == |l| {
        assert Keys(l)[i] == KeyOf(m[i]);
      }
    }
  }

  lemma DistinctKeysRemove(l: seq<Ping>, i: nat)
    requires DistinctKeys(l) && i < |l|
    ensures DistinctKeys(RemoveAt(l, i))
    ensures KeyOf(l[i]) !in Keys(RemoveAt(l, i))
  {
    var m := RemoveAt(l, i);
    forall a, b | 0 <= a < b < |m| ensures KeyOf(m[a]) != KeyOf(m[b]) {
      var a', b' := if a < i then a else a + 1, if b < i then b else b + 1;
      assert m[a] == l[a'] && m[b] == l[b'];
    }
    forall j | 0 <= j < |m| ensures Keys(m)[j] != KeyOf(l[i]) {
      assert m[j] == l[if j < i then j else j + 1];
    }
  }

  /** The last ping of a list with distinct keys is not in the map of the
      pings before it. */
  lemma LastKeyIsNew(l: seq<Ping>)
    requires DistinctKeys(l) && |l| > 0
    ensures KeyOf(l[|l| - 1]) !in MapOf(l[..|l| - 1])
  {
    var p := l[..|l| - 1];
    MapOfKeys(p);
    forall j | 0 <= j < |p| ensures Keys(p)[j] != KeyOf(l[|l| - 1]) {
      assert p[j] == l[j];
    }
  }

  lemma UpdateThenRemove(m: map<PingKey, Ping>, k: PingKey, v: Ping, r: PingKey)
    requires k != r
    ensures (m - {r})[k := v] == m[k := v] - {r}
  {
  }

  /** Taking a ping other than the last out of the list: the last ping
      is added back on top of what removing it from the rest leaves. */
  lemma {:induction false} MapOfRemoveStep(l: seq<Ping>, i: nat)
    requires DistinctKeys(l) && i < |l| - 1
    requires MapOf(RemoveAt(l[..|l| - 1], i)) == MapOf(l[..|l| - 1]) - {KeyOf(l[i])}
    ensures MapOf(RemoveAt(l, i)) == MapOf(l) - {KeyOf(l[i])}
  {
    var n := |l| - 1;
    var p := l[..n];
    var m := RemoveAt(l, i);
    assert m[..|m| - 1] == RemoveAt(p, i);
    assert m[|m| - 1] == l[n];
    assert MapOf(l) == MapOf(p)[KeyOf(l[n]) := l[n]];
    assert MapOf(m) == MapOf(RemoveAt(p, i))[KeyOf(l[n]) := l[n]];
    assert KeyOf(l[n]) != KeyOf(l[i]);
    UpdateThenRemove(MapOf(p), KeyOf(l[n]), l[n], KeyOf(l[i]));
  }

  /** Taking a ping out of the list takes its key out of the map. */
  lemma {:induction false} MapOfRemove(l: seq<Ping>, i: nat)
    requires DistinctKeys(l) && i < |l|
    ensures MapOf(RemoveAt(l, i)) == MapOf(l) - {KeyOf(l[i])}
    decreases |l|
  {
    var n := |l| - 1;
    var p := l[..n];
    if i == n {
      var k := KeyOf(l[i]);
      LastKeyIsNew(l);
      assert RemoveAt(l, i) == p;
      assert MapOf(p)[k := l[n]] - {k} == MapOf(p);
    } else {
      assert DistinctKeys(p) && p[i] == l[i];
      MapOfRemove(p, i);
      MapOfRemoveStep(l, i);
    }
  }

  // ---------------------------------------------------------------------
  // The sweep

  /** The sweep keeps a suffix of the list: every ping it drops had
      expired, and the first ping it keeps has not. */
  lemma {:induction false} DropExpiredIsExpiredPrefix(l: seq<Ping>, timeout: int, now: int)
    ensures var d := DropExpired(l, timeout, now);
      && |d| <= |l| && d == l[|l| - |d|..]
      && (forall i :: 0 <= i < |l| - |d| ==> Expired(l[i], timeout, now))
      && (|d| > 0 ==> !Expired(d[0], timeout, now))
  {
    if |l| > 0 && Expired(l[0], timeout, now) {
      DropExpiredIsExpiredPrefix(l[1..], timeout, now);
      var d := DropExpired(l, timeout, now);
      assert l[1..][|l| - 1 - |d|..] == l[|l| - |d|..];
      forall i | 0 <= i < |l| - |d| ensures Expired(l[i], timeout, now) {
        if i > 0 { assert l[i] == l[1..][i - 1]; }
      }
    }
  }

  predicate SortedByTime(l: seq<Ping>)
  {
    forall i, j :: 0 <= i < j < |l| ==> l[i].time <= l[j].time
  }

  /** When the list is in creation order, the prefix sweep removes every
      expired ping, not just the leading ones. */
  lemma SweepRemovesAllExpired(l: seq<Ping>, timeout: int, now: int)
    requires SortedByTime(l)
    ensures var d := DropExpired(l, timeout, now);
      forall i :: 0 <= i < |d| ==> !Expired(d[i], timeout, now)
  {
    DropExpiredIsExpiredPrefix(l, timeout, now);
    var d := DropExpired(l, timeout, now);
    forall i | 0 <= i < |d| ensures !Expired(d[i], timeout, now) {
      assert d[0] == l[|l| - |d|] && d[i] == l[|l| - |d| + i];
    }
  }

  /** With a clock that never goes backwards the list stays in creation
      order: the sweep keeps a suffix and Add appends the newest ping. */
  lemma AddKeepsOrder(l: seq<Ping>, timeout: int, now: int, p: Ping)
    requires SortedByTime(l)
    requires forall i :: 0 <= i < |l| ==> l[i].time <= now
    requires p.time == now
    ensures SortedByTime(DropExpired(l, timeout, now) + [p])
    ensures SortedByTime(DropExpired(l, timeout, now))
  {
    DropExpiredIsExpiredPrefix(l, timeout, now);
    var d := DropExpired(l, timeout, now);
    var m := d + [p];
    forall i, j | 0 <= i < j < |m| ensures m[i].time <= m[j].time {
      assert m[i] == l[|l| - |d| + i];
      if j < |d| { assert m[j] == l[|l| - |d| + j]; }
    }
  }

  /** Two pings that are in the set under one key are one ping: so a
      second Pop of the same (key, id) misses. */
  lemma PopTwiceMisses(l: seq<Ping>, k: PingKey)
    requires DistinctKeys(l) && k in Keys(l)
    ensures k !in Keys(RemoveAt(l, IndexOfKey(l, k)))
  {
    DistinctKeysRemove(l, IndexOfKey(l, k));
  }

  /** A ping that has expired by the time of Pop is swept before the
      lookup; if it was the only ping, the set is left empty. */
  lemma PopOfExpiredMisses(p: Ping, timeout: int, now: int)
    requires Expired(p, timeout, now)
    ensures DropExpired([p], timeout, now) == []
    ensures KeyOf(p) !in Keys(DropExpired([p], timeout, now))
  {
    assert [p][1..] == [];
  }
}
