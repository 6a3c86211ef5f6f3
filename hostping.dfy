/**
 * The liveness detector of hostping.go: a single-entry reply table keyed by the resolved peer
 * address, updated by reply events and drained, one boolean per entry, by idle events.
 *
 * The pinger, the channels that carry its callbacks and the `select` that merges them are not
 * modelled: each event is one call of OnRecv or OnIdle, in the order the loop receives them, and the
 * values sent on `resp` are appended to a sequence.
 */
module HostPing {
  import opened Wrappers

  /** What the reply table stores for a reply; the round-trip time is not modelled. */
  datatype Response = Response(addr: string)

  /** An event the select loop receives: a reply from an address, or the end of a probe cycle. */
  datatype Event = Recv(addr: string) | Idle

  /** The values sent on `resp` for `events`, starting from a table whose entry is replied iff `replied`. */
  function Emissions(replied: bool, addr: string, events: seq<Event>): seq<bool> {
    if events == [] then []
    else
      var pre := events[..|events| - 1];
      Emissions(replied, addr, pre) +
        (if events[|events| - 1] == Idle then [replied || Recv(addr) in pre] else [])
  }

  /** The number of idle events. */
  function IdleCount(events: seq<Event>): nat {
    if events == [] then 0
    else IdleCount(events[..|events| - 1]) + (if events[|events| - 1] == Idle then 1 else 0)
  }

  /** The positions of the idle events, in order. */
  function IdlePositions(events: seq<Event>): seq<nat> {
    if events == [] then []
    else IdlePositions(events[..|events| - 1]) + (if events[|events| - 1] == Idle then [|events| - 1] else [])
  }

  class Pinger {
    /** `ra.String()`, the resolved peer address. */
    const addr: string
    /** The reply table `results`. */
    var results: map<string, Option<Response>>
    /** The values sent on the `resp` channel so far. */
    var resp: seq<bool>

    /** The table holds exactly the resolved address, and a stored reply came from it. */
    ghost predicate Valid()
      reads this
    {
      results.Keys == {addr} && (results[addr].Some? ==> results[addr].value.addr == addr)
    }

    /** A reply has been recorded for the peer. */
    function Replied(): bool
      reads this
      requires Valid()
    {
      results[addr].Some?
    }

    /** The table as `Ping` sets it up: one key, the resolved address, with no reply. */
    constructor (resolved: string)
      ensures Valid() && addr == resolved && !Replied()
      ensures results == map[resolved := None] && resp == []
    {
      addr := resolved;
      results := map[resolved := None];
      resp := [];
    }

    /** A reply from `from`: recorded only if `from` is a key of the table. */
    method OnRecv(from: string)
      requires Valid()
      modifies this
      ensures Valid() && resp == old(resp)
      ensures from in old(results) ==> results == old(results)[from := Some(Response(from))]
      ensures from !in old(results) ==> results == old(results)
      ensures Replied() == (old(Replied()) || from == addr)
    {
      if from in results {
        results := results[from := Some(Response(from))];
      }
    }

    /** The end of a cycle: one value per table entry, `false` iff no reply is stored; the table is kept. */
    method OnIdle()
      requires Valid()
      modifies this
      ensures Valid() && results == old(results)
      ensures resp == old(resp) + [Replied()]
    {
      var pending := results.Keys;
      ghost var sent := 0;
      while pending != {}
        invariant pending <= results.Keys && results == old(results)
        invariant |resp| == |old(resp)| + sent && sent + |pending| == |results.Keys|
        invariant resp[..|old(resp)|] == old(resp)
        invariant forall n :: |old(resp)| <= n < |resp| ==> resp[n] == Replied()
        decreases pending
      {
        var key :| key in pending;
        if results[key].None? {
          resp := resp + [false];
        } else {
          resp := resp + [true];
        }
        pending := pending - {key};
        sent := sent + 1;
      }
      assert |results.Keys| == 1;
      assert resp == old(resp) + [resp[|resp| - 1]];
    }

    /** The select loop over a finite run of events. */
    method Run(events: seq<Event>)
      requires Valid()
      modifies this
      ensures Valid()
      ensures resp == old(resp) + Emissions(old(Replied()), addr, events)
      ensures Replied() == (old(Replied()) || Recv(addr) in events)
    {
      var i := 0;
      while i < |events|
        invariant 0 <= i <= |events| && Valid()
        invariant resp == old(resp) + Emissions(old(Replied()), addr, events[..i])
        invariant Replied() == (old(Replied()) || Recv(addr) in events[..i])
      {
        assert events[..i + 1][..i] == events[..i];
        assert events[..i + 1] == events[..i] + [events[i]];
        match events[i] {
          case Recv(from) => OnRecv(from);
          case Idle => OnIdle();
        }
        i := i + 1;
      }
      assert events[..|events|] == events;
    }
  }

  /**
   * `Ping` over a finite run of events: resolving the host either fails, and then nothing is processed
   * or sent, or yields the address the reply table is keyed by.
   */
  method Ping(resolution: Result<string, string>, events: seq<Event>) returns (sent: seq<bool>)
    ensures resolution.Failure? ==> sent == []
    ensures resolution.Success? ==> sent == Emissions(false, resolution.value, events)
  {
    if resolution.Failure? {
      // `panic(err)` before the table exists
      return [];
    }
    var p := new Pinger(resolution.value);
    p.Run(events);
    sent := p.resp;
  }

  // ---------------------------------------------------------------------------------------------
  // What the emitted values mean
  // ---------------------------------------------------------------------------------------------

  /** One value per cycle. */
  lemma {:induction false} EmissionsCount(replied: bool, addr: string, events: seq<Event>)
    ensures |Emissions(replied, addr, events)| == IdleCount(events) == |IdlePositions(events)|
  {
    if events != [] {
      EmissionsCount(replied, addr, events[..|events| - 1]);
    }
  }

  lemma {:induction false} IdlePositionsAreIdle(events: seq<Event>)
    ensures forall k :: 0 <= k < |IdlePositions(events)| ==>
      IdlePositions(events)[k] < |events| && events[IdlePositions(events)[k]] == Idle
  {
    if events != [] {
      IdlePositionsAreIdle(events[..|events| - 1]);
    }
  }

  /**
   * Reference reading of the stream: the value of cycle `k` is `true` iff a reply from the peer was
   * recorded before that cycle ended, at any earlier time, since the table is never reset.
   */
  lemma {:induction false} EmissionAt(replied: bool, addr: string, events: seq<Event>, k: nat)
    requires k < |IdlePositions(events)|
    ensures k < |Emissions(replied, addr, events)| && IdlePositions(events)[k] < |events|
    ensures Emissions(replied, addr, events)[k] == (replied || Recv(addr) in events[..IdlePositions(events)[k]])
  {
    var pre := events[..|events| - 1];
    EmissionsCount(replied, addr, events);
    EmissionsCount(replied, addr, pre);
    IdlePositionsAreIdle(events);
    if k < |IdlePositions(pre)| {
      EmissionAt(replied, addr, pre, k);
      var p := IdlePositions(pre)[k];
      assert IdlePositions(events)[k] == p;
      assert pre[..p] == events[..p];
    } else {
      assert IdlePositions(events)[k] == |events| - 1;
    }
  }

  /** Once a value is `true`, every later value is `true`. */
  lemma {:induction false} EmissionsMonotone(replied: bool, addr: string, events: seq<Event>, k: nat, l: nat)
    requires k <= l < |Emissions(replied, addr, events)|
    requires Emissions(replied, addr, events)[k]
    ensures Emissions(replied, addr, events)[l]
  {
    EmissionsCount(replied, addr, events);
    EmissionAt(replied, addr, events, k);
    EmissionAt(replied, addr, events, l);
    var pk, pl := IdlePositions(events)[k], IdlePositions(events)[l];
    IdlePositionsOrdered(events, k, l);
    if !replied {
      var n :| 0 <= n < pk && events[..pk][n] == Recv(addr);
      assert events[..pl][n] == Recv(addr);
    }
  }

  lemma {:induction false} IdlePositionsOrdered(events: seq<Event>, k: nat, l: nat)
    requires k <= l < |IdlePositions(events)|
    ensures IdlePositions(events)[k] <= IdlePositions(events)[l]
  {
    var pre := events[..|events| - 1];
    IdlePositionsAreIdle(pre);
    if l < |IdlePositions(pre)| {
      IdlePositionsOrdered(pre, k, l);
    }
  }

  /** Without any reply from the peer, every value is `false`. */
  lemma {:induction false} NoReplyAllFalse(addr: string, events: seq<Event>)
    requires Recv(addr) !in events
    ensures forall k :: 0 <= k < |Emissions(false, addr, events)| ==> !Emissions(false, addr, events)[k]
  {
    EmissionsCount(false, addr, events);
    forall k | 0 <= k < |Emissions(false, addr, events)| ensures !Emissions(false, addr, events)[k] {
      EmissionAt(false, addr, events, k);
      IdlePositionsAreIdle(events);
      var p := IdlePositions(events)[k];
      assert events == events[..p] + events[p..];
    }
  }

  /** A reply event sends nothing by itself. */
  lemma RecvSendsNothing(replied: bool, addr: string, events: seq<Event>, from: string)
    ensures Emissions(replied, addr, events + [Recv(from)]) == Emissions(replied, addr, events)
  {
    assert (events + [Recv(from)])[..|events|] == events;
  }

  /** Repeated replies within a cycle send the same values as one reply. */
  lemma RepeatedReplyIdempotent(replied: bool, addr: string, events: seq<Event>)
    ensures Emissions(replied, addr, events + [Recv(addr), Recv(addr), Idle]) ==
            Emissions(replied, addr, events + [Recv(addr), Idle])
  {
    var one, two := events + [Recv(addr)], events + [Recv(addr), Recv(addr)];
    assert Emissions(replied, addr, events + [Recv(addr), Recv(addr), Idle]) == Emissions(replied, addr, two) + [true] by {
      assert events + [Recv(addr), Recv(addr), Idle] == two + [Idle];
      assert (two + [Idle])[..|two|] == two;
      assert two[|events|] == Recv(addr);
    }
    assert Emissions(replied, addr, events + [Recv(addr), Idle]) == Emissions(replied, addr, one) + [true] by {
      assert events + [Recv(addr), Idle] == one + [Idle];
      assert (one + [Idle])[..|one|] == one;
      assert one[|events|] == Recv(addr);
    }
    assert Emissions(replied, addr, two) == Emissions(replied, addr, one) by {
      assert two == one + [Recv(addr)];
      RecvSendsNothing(replied, addr, one, addr);
    }
  }
}
