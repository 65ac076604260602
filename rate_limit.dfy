/** The fixed-window rate limiter: a process-wide dictionary from an
    identifier to its request count and the end of its current window. */
module RateLimit {
  import opened Basics
  import opened Text

  /** One identifier's window: requests counted so far and the instant
      (milliseconds) after which the window is over. */
  datatype Record = Record(count: int, resetTime: int)

  datatype Options = Options(windowMs: int, maxRequests: int)

  /** What one call reports. */
  datatype Verdict = Verdict(allowed: bool, remaining: int, resetTime: int)

  type Store = map<string, Record>

  /** A window is over only once the clock is strictly past its end. */
  predicate Expired(r: Record, now: int)
  {
    now > r.resetTime
  }

  /** The record an identifier is counted against at `now`: its stored one
      if that window is still open, otherwise a new empty window. */
  function Window(store: Store, id: string, opts: Options, now: int): Record
  {
    if id in store && !Expired(store[id], now) then store[id] else Record(0, now + opts.windowMs)
  }

  /** The effect of one `rateLimit(id, opts)` call at time `now`: the new
      store and the verdict. */
  function Hit(store: Store, id: string, opts: Options, now: int): (r: (Store, Verdict))
    // only the caller's own key changes
    ensures id in r.0 && r.0 - {id} == store - {id}
    // a live window is continued, an absent or expired one restarted with count 1
    ensures id in store && now <= store[id].resetTime ==>
              r.0[id] == Record(store[id].count + 1, store[id].resetTime)
    ensures id !in store || now > store[id].resetTime ==>
              r.0[id] == Record(1, now + opts.windowMs)
    // the verdict reads the incremented record
    ensures r.1.allowed <==> r.0[id].count <= opts.maxRequests
    ensures r.1.remaining >= 0
    ensures r.1.remaining == if opts.maxRequests > r.0[id].count then opts.maxRequests - r.0[id].count else 0
    ensures r.1.resetTime == r.0[id].resetTime
  {
    var w := Window(store, id, opts, now);
    var rec := w.(count := w.count + 1);
    var remaining := if opts.maxRequests - rec.count > 0 then opts.maxRequests - rec.count else 0;
    (store[id := rec], Verdict(rec.count <= opts.maxRequests, remaining, rec.resetTime))
  }

  /** Successive calls for one identifier at the given instants: the final
      store and the verdict of each call. */
  function Run(store: Store, id: string, opts: Options, times: seq<int>): (r: (Store, seq<Verdict>))
    ensures |r.1| == |times|
    decreases |times|
  {
    if times == [] then (store, [])
    else
      var h := Hit(store, id, opts, times[0]);
      var rest := Run(h.0, id, opts, times[1..]);
      (rest.0, [h.1] + rest.1)
  }

  /** `v` is what a call reports whose incremented count is `count` in a
      window ending at `reset`. */
  predicate Reports(v: Verdict, count: int, opts: Options, reset: int)
  {
    && (v.allowed <==> count <= opts.maxRequests)
    && v.remaining == (if opts.maxRequests > count then opts.maxRequests - count else 0)
    && v.resetTime == reset
  }

  /** Inside one open window (end `reset`, `count` requests already made),
      the k-th further call sees count `count + k + 1`: allowed exactly while
      that does not exceed the maximum, refused calls still counted. */
  lemma {:induction false} RunWithinWindow(store: Store, id: string, opts: Options, times: seq<int>, count: int, reset: int)
    requires id in store && store[id] == Record(count, reset)
    requires forall k :: 0 <= k < |times| ==> times[k] <= reset
    ensures forall k :: 0 <= k < |times| ==> Reports(Run(store, id, opts, times).1[k], count + k + 1, opts, reset)
  {
    if times != [] {
      var h := Hit(store, id, opts, times[0]);
      var tail := times[1..];
      assert forall k :: 0 <= k < |tail| ==> tail[k] == times[k + 1];
      RunWithinWindow(h.0, id, opts, tail, count + 1, reset);
      var rest := Run(h.0, id, opts, tail).1;
      var vs := Run(store, id, opts, times).1;
      assert vs == [h.1] + rest;
      forall k | 0 <= k < |times|
        ensures Reports(vs[k], count + k + 1, opts, reset)
      {
        if k == 0 {
          assert times[0] <= reset;
          assert h.0[id] == Record(count + 1, reset);
          assert vs[0] == h.1;
        } else {
          assert vs[k] == rest[k - 1];
          assert Reports(rest[k - 1], (count + 1) + (k - 1) + 1, opts, reset);
        }
      }
    }
  }

  /** From a fresh window opened at `times[0]`, every call made before that
      window ends is allowed exactly when it is among the first
      `maxRequests`, and all of them report the same reset time. */
  lemma FirstWindow(store: Store, id: string, opts: Options, times: seq<int>)
    requires times != []
    requires id !in store || Expired(store[id], times[0])
    requires forall k :: 0 <= k < |times| ==> times[k] <= times[0] + opts.windowMs
    ensures forall k :: 0 <= k < |times| ==> Reports(Run(store, id, opts, times).1[k], k + 1, opts, times[0] + opts.windowMs)
  {
    var h := Hit(store, id, opts, times[0]);
    var reset := times[0] + opts.windowMs;
    var tail := times[1..];
    assert forall k :: 0 <= k < |tail| ==> tail[k] == times[k + 1];
    RunWithinWindow(h.0, id, opts, tail, 1, reset);
    var rest := Run(h.0, id, opts, tail).1;
    var vs := Run(store, id, opts, times).1;
    assert vs == [h.1] + rest;
    forall k | 0 <= k < |times|
      ensures Reports(vs[k], k + 1, opts, reset)
    {
      if k == 0 {
        assert h.0[id] == Record(1, reset);
        assert vs[0] == h.1;
      } else {
        assert vs[k] == rest[k - 1];
        assert Reports(rest[k - 1], 1 + (k - 1) + 1, opts, reset);
      }
    }
  }

  /** The store after `cleanupExpiredRecords()` at `now`: exactly the
      records whose window is still open. */
  function Unexpired(store: Store, now: int): (r: Store)
    ensures r.Keys <= store.Keys
    ensures forall k :: k in store ==> (k in r <==> !Expired(store[k], now))
    ensures forall k :: k in r ==> r[k] == store[k]
  {
    map k | k in store && !Expired(store[k], now) :: store[k]
  }

  /** Sweeping is only a memory optimisation: after a sweep at `swept`, a
      call at any later `now` reports the same verdict and leaves the same
      record for its identifier as it would have without the sweep. */
  lemma CleanupIsTransparent(store: Store, swept: int, id: string, opts: Options, now: int)
    requires swept <= now
    ensures Hit(Unexpired(store, swept), id, opts, now).1 == Hit(store, id, opts, now).1
    ensures Hit(Unexpired(store, swept), id, opts, now).0[id] == Hit(store, id, opts, now).0[id]
  {
    assert Window(Unexpired(store, swept), id, opts, now) == Window(store, id, opts, now);
  }

  /** The process-wide store with its two operations. */
  class Limiter {
    var store: Store

    constructor ()
      ensures store == map[]
    {
      store := map[];
    }

    /** `rateLimit(identifier, options)`, with the clock reading passed in. */
    method RateLimit(identifier: string, options: Options, now: int) returns (result: Verdict)
      modifies this
      ensures (store, result) == Hit(old(store), identifier, options, now)
    {
      if identifier in store && now > store[identifier].resetTime {
        store := store - {identifier};
      }
      if identifier !in store {
        store := store[identifier := Record(0, now + options.windowMs)];
      }
      var record := store[identifier];
      record := record.(count := record.count + 1);
      store := store[identifier := record];
      var allowed := record.count <= options.maxRequests;
      var remaining := if options.maxRequests - record.count > 0 then options.maxRequests - record.count else 0;
      result := Verdict(allowed, remaining, record.resetTime);
      assert record == Window(old(store), identifier, options, now).(count := record.count);
      assert store == old(store)[identifier := record];
    }

    /** `cleanupExpiredRecords()`: visits every key once and deletes those
        whose window is over at `now`. */
    method CleanupExpiredRecords(now: int)
      modifies this
      ensures store == Unexpired(old(store), now)
    {
      var keys := store.Keys;
      ghost var done: set<string> := {};
      while keys != {}
        invariant keys !! done && keys + done == old(store).Keys
        invariant store.Keys == keys + (set k | k in done && !Expired(old(store)[k], now))
        invariant forall k :: k in store ==> store[k] == old(store)[k]
        decreases keys
      {
        var key :| key in keys;
        if now > store[key].resetTime {
          store := store - {key};
        }
        keys := keys - {key};
        done := done + {key};
      }
      assert store.Keys == Unexpired(old(store), now).Keys;
    }
  }

  /** `getClientIP(request)` from the two header values (`None` when a header
      is absent): the first comma-separated field of a non-empty
      `x-forwarded-for`, trimmed; otherwise a non-empty `x-real-ip`;
      otherwise `"unknown"`. */
  function GetClientIP(forwarded: Option<string>, realIP: Option<string>): (ip: string)
    ensures forwarded.Some? && forwarded.value != [] ==>
              ip == Trim(FirstField(forwarded.value, ',')) && ',' !in ip && Contains(forwarded.value, ip)
    ensures (forwarded.None? || forwarded.value == []) && realIP.Some? && realIP.value != [] ==>
              ip == realIP.value
    ensures (forwarded.None? || forwarded.value == []) && (realIP.None? || realIP.value == []) ==>
              ip == "unknown"
  {
    if forwarded.Some? && forwarded.value != [] then
      var field := FirstField(forwarded.value, ',');
      var t := TrimStart(field);
      var ip := TrimEnd(t);
      TrimSlice(forwarded.value, field, t, ip);
      ip
    else if realIP.Some? && realIP.value != [] then
      realIP.value
    else
      "unknown"
  }

  /** The trimmed first field is a contiguous piece of the header. */
  lemma TrimSlice(f: string, field: string, t: string, ip: string)
    requires |field| <= |f| && field == f[..|field|]
    requires |t| <= |field| && t == field[|field| - |t|..]
    requires |ip| <= |t| && ip == t[..|ip|]
    ensures ',' !in field ==> ',' !in ip
    ensures Contains(f, ip)
  {
    var i := |field| - |t|;
    assert ip == f[i..i + |ip|];
    assert OccursAt(f, i, ip);
  }
}
