/** dht/ping/ping.go: a ping sent to a node, remembered with the node's
    public key, a random ping id and the time it was created.

    The clock is an integer of nanoseconds passed to each operation (the
    package-level `now` the Go code reads), and the id is the result of
    crypto.GeneratePingID passed in. */
module Ping {
  import opened Bytes
  import opened Errors

  const Second: int := 1_000_000_000

  /** Ping: the key, the id and the creation time are fixed by New and
      never changed afterwards. */
  datatype Ping = Ping(publicKey: Key, id: uint64, time: int)

  /** New, given what crypto.GeneratePingID returned and the clock reading. */
  function New(publicKey: Key, generated: Result<uint64>, now: int): (r: Result<Ping>)
    ensures r.Ok? <==> generated.Ok?
    ensures r.Ok? ==> r.value.publicKey == publicKey && r.value.id == generated.value && r.value.time == now
    ensures r.Err? ==> r.error == generated.error
  {
    match generated
    case Err(e) => Err(e)
    case Ok(id) => Ok(Ping(publicKey, id, now))
  }

  /** More than `timeout` nanoseconds have passed since `time`. */
  predicate ExpiredSince(time: int, timeout: int, now: int)
  {
    now - time > timeout
  }

  /** Ping.Expired at clock reading `now`. */
  predicate Expired(p: Ping, timeout: int, now: int): (e: bool)
    ensures e <==> p.time + timeout < now
  {
    ExpiredSince(p.time, timeout, now)
  }

  /** Ping.ID. */
  function ID(p: Ping): (id: uint64)
    ensures id == p.id
  {
    p.id
  }

  /** New stores what it is given, and the id read back is the one
      generated. */
  lemma NewThenID(publicKey: Key, id: uint64, now: int)
    ensures New(publicKey, Ok(id), now).Ok?
    ensures ID(New(publicKey, Ok(id), now).value) == id
    ensures !Expired(New(publicKey, Ok(id), now).value, 0, now)
  {
  }

  /** With a 10 second timeout a ping is alive at 0s and 8s after its
      creation and expired at 11s. */
  lemma TenSecondExpiry(publicKey: Key, id: uint64, start: int)
    ensures var p := New(publicKey, Ok(id), start).value;
      && !Expired(p, 10 * Second, start)
      && !Expired(p, 10 * Second, start + 8 * Second)
      && Expired(p, 10 * Second, start + 11 * Second)
  {
  }

  /** Once expired, a ping stays expired as the clock moves forward, and
      an older ping is expired whenever a younger one is. */
  lemma ExpiredMonotone(p: Ping, q: Ping, timeout: int, now: int, later: int)
    requires now <= later
    ensures Expired(p, timeout, now) ==> Expired(p, timeout, later)
    ensures p.time <= q.time && Expired(q, timeout, now) ==> Expired(p, timeout, now)
  {
  }
}
