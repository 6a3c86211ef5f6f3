/**
 * The failover controller of main.go: one iteration of the reconciliation loop and one step of the
 * reactive loop, as methods that return the collaborator calls they issue, in order.
 *
 * The answers of the collaborators (the route tables DescribeRouteTables returns, the HTTP response
 * code, the peer's instance state) are inputs. Sessions, sleeping, logging and the channels are not
 * modelled.
 */
module Failover {
  import opened Wrappers
  import AwsApiTools

  /** The HTTP response code that counts as a healthy peer. */
  const HealthyRespCode: int := 200
  /** The instance state in which the peer keeps its routes. */
  const PendingState: string := "pending"

  /** The configuration fields the two loops read. */
  datatype Config = Config(otherInstancePubIP: string, httpPort: string, vpcID: string, myRoutingTables: seq<string>)

  /** A call into the collaborators, with the arguments that matter. */
  datatype Call =
    | InstanceIDbyPublicIP(publicIP: string)
    | RespCode(url: string)
    | InstanceStatebyInstancePubIP(publicIP: string)
    | DescribeRouteTableIDNatInstanceID(vpcID: string)
    | ReplaceRoute(routeTableID: string, instanceID: string)

  /** The address of the peer's HTTP health handler. */
  function HealthURL(cfg: Config): string {
    "http://" + cfg.otherInstancePubIP + ":" + cfg.httpPort
  }

  /** `RTsInIDs[t]`: a key missing from a Go map reads as "". */
  function Owner(owners: map<string, string>, t: string): string {
    if t in owners then owners[t] else ""
  }

  predicate NoDuplicates(calls: seq<Call>) {
    forall i, j :: 0 <= i < j < |calls| ==> calls[i] != calls[j]
  }

  // ---------------------------------------------------------------------------------------------
  // The reconciliation loop
  // ---------------------------------------------------------------------------------------------

  /** The replacements a reconciliation pass over `tables` issues, in order. */
  function ReconcileCalls(owners: map<string, string>, self: string, tables: seq<string>): seq<Call> {
    if tables == [] then []
    else
      var t := tables[|tables| - 1];
      ReconcileCalls(owners, self, tables[..|tables| - 1]) + (if Owner(owners, t) != self then [ReplaceRoute(t, self)] else [])
  }

  /** The `for` loop over the configured route tables; the map is read once, before the loop. */
  method ReconcilePass(owners: map<string, string>, self: string, tables: seq<string>) returns (calls: seq<Call>)
    ensures calls == ReconcileCalls(owners, self, tables)
  {
    calls := [];
    for i := 0 to |tables|
      invariant calls == ReconcileCalls(owners, self, tables[..i])
    {
      assert tables[..i + 1][..i] == tables[..i];
      if Owner(owners, tables[i]) != self {
        calls := calls + [ReplaceRoute(tables[i], self)];
      }
    }
    assert tables[..|tables|] == tables;
  }

  /** One iteration of the reconciliation loop: read the ownership map, then the pass. */
  method ReconcileIteration(cfg: Config, self: string, routeTables: AwsApiTools.DescribeRouteTablesOutput)
    returns (calls: seq<Call>)
    ensures calls == [DescribeRouteTableIDNatInstanceID(cfg.vpcID)] +
      ReconcileCalls(AwsApiTools.RouteOwnership(routeTables), self, cfg.myRoutingTables)
  {
    var owners := AwsApiTools.DescribeRouteTableIDNatInstanceID(routeTables);
    var replaced := ReconcilePass(owners, self, cfg.myRoutingTables);
    calls := [DescribeRouteTableIDNatInstanceID(cfg.vpcID)] + replaced;
  }

  // ---------------------------------------------------------------------------------------------
  // The reactive loop
  // ---------------------------------------------------------------------------------------------

  /** The replacements a takeover issues: one for every table of the map not owned by self. */
  function TakeoverSet(owners: map<string, string>, self: string): set<Call> {
    set t | t in owners && owners[t] != self :: ReplaceRoute(t, self)
  }

  /** The `range` over the ownership map; Go visits its keys in no fixed order. */
  method TakeoverPass(owners: map<string, string>, self: string) returns (calls: seq<Call>)
    ensures NoDuplicates(calls)
    ensures forall c :: c in calls <==> c in TakeoverSet(owners, self)
  {
    calls := [];
    var unvisited := owners.Keys;
    while unvisited != {}
      invariant unvisited <= owners.Keys
      invariant NoDuplicates(calls)
      invariant forall c :: c in calls <==> c in TakeoverSet(owners, self) && c.routeTableID !in unvisited
      decreases unvisited
    {
      var t :| t in unvisited;
      if owners[t] != self {
        calls := calls + [ReplaceRoute(t, self)];
      }
      unvisited := unvisited - {t};
    }
  }

  /** The lookups of the verification sequence, in the order the reactive loop issues them. */
  function Lookups(cfg: Config): seq<Call> {
    [InstanceIDbyPublicIP(cfg.otherInstancePubIP), RespCode(HealthURL(cfg)),
     InstanceStatebyInstancePubIP(cfg.otherInstancePubIP), DescribeRouteTableIDNatInstanceID(cfg.vpcID)]
  }

  /**
   * The body of the reactive loop for one liveness value `ping`. `respCode`, `instanceState` and
   * `routeTables` are what the HTTP probe, the instance-state lookup and DescribeRouteTables answer.
   */
  method ReactiveStep(cfg: Config, self: string, ping: bool, respCode: int, instanceState: string,
                      routeTables: AwsApiTools.DescribeRouteTablesOutput)
    returns (calls: seq<Call>)
    ensures ping ==> calls == []
    ensures !ping && respCode == HealthyRespCode ==> calls == Lookups(cfg)[..2]
    ensures !ping && respCode != HealthyRespCode && instanceState == PendingState ==> calls == Lookups(cfg)[..3]
    ensures !ping && respCode != HealthyRespCode && instanceState != PendingState ==>
      |calls| >= 4 && calls[..4] == Lookups(cfg) && NoDuplicates(calls[4..]) &&
      forall c :: c in calls[4..] <==> c in TakeoverSet(AwsApiTools.RouteOwnership(routeTables), self)
  {
    calls := [];
    if !ping {
      calls := calls + [InstanceIDbyPublicIP(cfg.otherInstancePubIP)];
      calls := calls + [RespCode(HealthURL(cfg))];
      if respCode != HealthyRespCode {
        calls := calls + [InstanceStatebyInstancePubIP(cfg.otherInstancePubIP)];
        if instanceState != PendingState {
          calls := calls + [DescribeRouteTableIDNatInstanceID(cfg.vpcID)];
          var owners := AwsApiTools.DescribeRouteTableIDNatInstanceID(routeTables);
          var replaced := TakeoverPass(owners, self);
          assert calls == Lookups(cfg);
          calls := calls + replaced;
          assert calls[4..] == replaced;
        }
      }
    }
  }

  // ---------------------------------------------------------------------------------------------
  // What the reconciliation pass issues
  // ---------------------------------------------------------------------------------------------

  /** The pass issues `ReplaceRoute(t, self)` exactly for the configured tables whose owner is not self, and nothing else. */
  lemma {:induction false} ReconcileCallsExactlyWhen(owners: map<string, string>, self: string, tables: seq<string>, c: Call)
    ensures c in ReconcileCalls(owners, self, tables) <==>
      c.ReplaceRoute? && c.routeTableID in tables && Owner(owners, c.routeTableID) != self && c.instanceID == self
  {
    if tables != [] {
      var pre := tables[..|tables| - 1];
      ReconcileCallsExactlyWhen(owners, self, pre, c);
      assert tables == pre + [tables[|tables| - 1]];
    }
  }

  /** The calls follow the configuration order: a pass over `t1 + t2` is the pass over `t1`, then over `t2`. */
  lemma {:induction false} ReconcileCallsAppend(owners: map<string, string>, self: string, t1: seq<string>, t2: seq<string>)
    ensures ReconcileCalls(owners, self, t1 + t2) == ReconcileCalls(owners, self, t1) + ReconcileCalls(owners, self, t2)
  {
    if t2 == [] {
      assert t1 + t2 == t1;
    } else {
      var t2' := t2[..|t2| - 1];
      assert (t1 + t2)[..|t1 + t2| - 1] == t1 + t2';
      ReconcileCallsAppend(owners, self, t1, t2');
    }
  }

  /** A table that is not owned gets one call per time it is configured, and an owned one gets none. */
  lemma {:induction false} ReconcileCallCount(owners: map<string, string>, self: string, tables: seq<string>, t: string)
    ensures multiset(ReconcileCalls(owners, self, tables))[ReplaceRoute(t, self)] ==
      if Owner(owners, t) != self then multiset(tables)[t] else 0
  {
    if tables != [] {
      var pre, last := tables[..|tables| - 1], tables[|tables| - 1];
      var tail := if Owner(owners, last) != self then [ReplaceRoute(last, self)] else [];
      ReconcileCallCount(owners, self, pre, t);
      MultisetLast(tables, t);
      MultisetAppend(ReconcileCalls(owners, self, pre), tail, ReplaceRoute(t, self));
    }
  }

  lemma MultisetLast<T>(s: seq<T>, y: T)
    requires s != []
    ensures multiset(s)[y] == multiset(s[..|s| - 1])[y] + (if s[|s| - 1] == y then 1 else 0)
  {
    assert s == s[..|s| - 1] + [s[|s| - 1]];
  }

  lemma MultisetAppend<T>(a: seq<T>, b: seq<T>, y: T)
    ensures multiset(a + b)[y] == multiset(a)[y] + multiset(b)[y]
  {
  }

  /** A configured table missing from the map reads as "", so a non-empty self takes it. */
  lemma AbsentTableReassigned(owners: map<string, string>, self: string, tables: seq<string>, t: string)
    requires t in tables && t !in owners && self != ""
    ensures ReplaceRoute(t, self) in ReconcileCalls(owners, self, tables)
  {
    ReconcileCallsExactlyWhen(owners, self, tables, ReplaceRoute(t, self));
  }

  /**
   * When DescribeRouteTables fails or its wrapper recovers a panic, the empty map makes the pass
   * reassign every configured table, in order, and gives the takeover nothing to issue.
   */
  lemma {:induction false} FailedDescribeReassignsAll(self: string, tables: seq<string>, out: AwsApiTools.DescribeRouteTablesOutput)
    requires self != ""
    requires out.Failure? || exists i, j :: (0 <= i < |out.value| && 0 <= j < |out.value[i].routes| &&
      AwsApiTools.RoutePanics(out.value[i], out.value[i].routes[j]))
    ensures |ReconcileCalls(AwsApiTools.RouteOwnership(out), self, tables)| == |tables|
    ensures forall i :: 0 <= i < |tables| ==>
      ReconcileCalls(AwsApiTools.RouteOwnership(out), self, tables)[i] == ReplaceRoute(tables[i], self)
    ensures TakeoverSet(AwsApiTools.RouteOwnership(out), self) == {}
  {
    AwsApiTools.FailedDescribeEmptyMap(out);
    if tables != [] {
      FailedDescribeReassignsAll(self, tables[..|tables| - 1], out);
    }
  }

  /** The example of a pair of tables, one owned by self and one by the peer. */
  lemma ReconcileExample()
    ensures ReconcileCalls(map["rt-1" := "i-self", "rt-2" := "i-peer"], "i-self", ["rt-1", "rt-2"]) ==
      [ReplaceRoute("rt-2", "i-self")]
  {
    var owners := map["rt-1" := "i-self", "rt-2" := "i-peer"];
    assert ["rt-1", "rt-2"][..1] == ["rt-1"];
    assert ReconcileCalls(owners, "i-self", ["rt-1"]) == [];
  }

  /**
   * One route without an IPv4 destination (an IPv6 route, or the prefix-list route of a gateway
   * endpoint) empties the ownership map. The peer's default route is then invisible: a takeover issues
   * nothing, and reconciliation reassigns the configured table as if nobody owned it.
   */
  lemma NilDestinationHidesOwners()
    ensures var peerOnly := [AwsApiTools.RouteTable("rt-1", [AwsApiTools.Association("rt-1")],
                               [AwsApiTools.Route(Some(AwsApiTools.DefaultRouteCidr), Some("i-peer"))])];
      AwsApiTools.RouteOwnership(Success(peerOnly)) == map["rt-1" := "i-peer"]
    ensures var withEndpoint := [AwsApiTools.RouteTable("rt-1", [AwsApiTools.Association("rt-1")],
                                  [AwsApiTools.Route(Some(AwsApiTools.DefaultRouteCidr), Some("i-peer")),
                                   AwsApiTools.Route(None, None)])];
      AwsApiTools.RouteOwnership(Success(withEndpoint)) == map[] &&
      TakeoverSet(AwsApiTools.RouteOwnership(Success(withEndpoint)), "i-self") == {} &&
      ReconcileCalls(AwsApiTools.RouteOwnership(Success(withEndpoint)), "i-self", ["rt-1"]) == [ReplaceRoute("rt-1", "i-self")]
  {
    var t := AwsApiTools.RouteTable("rt-1", [AwsApiTools.Association("rt-1")],
               [AwsApiTools.Route(Some(AwsApiTools.DefaultRouteCidr), Some("i-peer")), AwsApiTools.Route(None, None)]);
    assert AwsApiTools.RoutePanics(t, t.routes[1]);
    assert AwsApiTools.TablePanics([t][0]);
    assert AwsApiTools.Panics([t]);
    var u := AwsApiTools.RouteTable("rt-1", [AwsApiTools.Association("rt-1")],
               [AwsApiTools.Route(Some(AwsApiTools.DefaultRouteCidr), Some("i-peer"))]);
    assert !AwsApiTools.RoutePanics(u, u.routes[0]);
    assert !AwsApiTools.Panics([u]);
    assert [u][..0] == [] && u.routes[..0] == [];
    assert AwsApiTools.RouteEntry(u, u.routes[0]) == [("rt-1", "i-peer")];
    assert AwsApiTools.RouteEntries(u, u.routes) == [("rt-1", "i-peer")];
    assert AwsApiTools.Entries([u]) == [("rt-1", "i-peer")];
    assert [("rt-1", "i-peer")][..0] == [];
  }

  // ---------------------------------------------------------------------------------------------
  // What the replacements do to the ownership map
  // ---------------------------------------------------------------------------------------------

  /** The map the next DescribeRouteTables reports once `calls` have succeeded, in order. */
  function Applied(owners: map<string, string>, calls: seq<Call>): map<string, string> {
    if calls == [] then owners
    else
      var c := calls[|calls| - 1];
      var before := Applied(owners, calls[..|calls| - 1]);
      if c.ReplaceRoute? then AwsApiTools.ReplacedOwner(before, c.routeTableID, c.instanceID) else before
  }

  /** Every replacement among `calls` points a table at `self`. */
  predicate TargetsOnly(calls: seq<Call>, self: string) {
    forall c :: c in calls && c.ReplaceRoute? ==> c.instanceID == self
  }

  /** Replacements that all target self leave self as the owner of every table of the map they name, whatever their order. */
  lemma {:induction false} AppliedSelfCalls(owners: map<string, string>, calls: seq<Call>, self: string)
    requires TargetsOnly(calls, self)
    ensures Applied(owners, calls).Keys == owners.Keys
    ensures forall t :: t in owners ==>
      Applied(owners, calls)[t] == if ReplaceRoute(t, self) in calls then self else owners[t]
  {
    if calls != [] {
      var pre := calls[..|calls| - 1];
      assert calls == pre + [calls[|calls| - 1]];
      AppliedSelfCalls(owners, pre, self);
    }
  }

  /** The two loops race on the route tables; since both only ever set self, the order of their calls does not matter. */
  lemma ApplyOrderIrrelevant(owners: map<string, string>, self: string, calls1: seq<Call>, calls2: seq<Call>)
    requires TargetsOnly(calls1, self) && TargetsOnly(calls2, self)
    requires forall t :: ReplaceRoute(t, self) in calls1 <==> ReplaceRoute(t, self) in calls2
    ensures Applied(owners, calls1) == Applied(owners, calls2)
  {
    AppliedSelfCalls(owners, calls1, self);
    AppliedSelfCalls(owners, calls2, self);
  }

  lemma ReconcileTargetsSelf(owners: map<string, string>, self: string, tables: seq<string>)
    ensures TargetsOnly(ReconcileCalls(owners, self, tables), self)
  {
    forall c | c in ReconcileCalls(owners, self, tables) ensures c.ReplaceRoute? && c.instanceID == self {
      ReconcileCallsExactlyWhen(owners, self, tables, c);
    }
  }

  /** A pass over tables that self owns already issues nothing. */
  lemma {:induction false} ReconcileCallsNone(owners: map<string, string>, self: string, tables: seq<string>)
    requires forall i :: 0 <= i < |tables| ==> Owner(owners, tables[i]) == self
    ensures ReconcileCalls(owners, self, tables) == []
  {
    if tables != [] {
      ReconcileCallsNone(owners, self, tables[..|tables| - 1]);
    }
  }

  /**
   * Reconciling again after the pass's calls succeeded only reissues calls for configured tables that
   * are missing from the map (a table without a default route has nothing to replace); when every
   * configured table is in the map, nothing is issued.
   */
  lemma ReconcileIdempotent(owners: map<string, string>, self: string, tables: seq<string>)
    ensures forall c :: c in ReconcileCalls(Applied(owners, ReconcileCalls(owners, self, tables)), self, tables) ==>
      c.ReplaceRoute? && c.routeTableID !in owners
    ensures (forall t :: t in tables ==> t in owners) ==>
      ReconcileCalls(Applied(owners, ReconcileCalls(owners, self, tables)), self, tables) == []
  {
    var first := ReconcileCalls(owners, self, tables);
    var after := Applied(owners, first);
    ReconcileTargetsSelf(owners, self, tables);
    AppliedSelfCalls(owners, first, self);
    forall c | c in ReconcileCalls(after, self, tables) ensures c.ReplaceRoute? && c.routeTableID !in owners {
      ReconcileCallsExactlyWhen(after, self, tables, c);
      if c.routeTableID in owners {
        ReconcileCallsExactlyWhen(owners, self, tables, ReplaceRoute(c.routeTableID, self));
      }
    }
    if forall t :: t in tables ==> t in owners {
      forall i | 0 <= i < |tables| ensures Owner(after, tables[i]) == self {
        ReconcileCallsExactlyWhen(owners, self, tables, ReplaceRoute(tables[i], self));
      }
      ReconcileCallsNone(after, self, tables);
    }
  }

  /**
   * After a takeover's calls succeeded, in whatever order, self owns every table of the map: a second
   * takeover issues nothing, and reconciliation only touches configured tables missing from the map.
   */
  lemma TakeoverIdempotent(owners: map<string, string>, self: string, calls: seq<Call>, tables: seq<string>)
    requires forall c :: c in calls <==> c in TakeoverSet(owners, self)
    ensures TakeoverSet(Applied(owners, calls), self) == {}
    ensures forall c :: c in ReconcileCalls(Applied(owners, calls), self, tables) ==> c.ReplaceRoute? && c.routeTableID !in owners
  {
    var after := Applied(owners, calls);
    AppliedSelfCalls(owners, calls, self);
    forall t | t in after ensures after[t] == self {
      if owners[t] != self {
        assert ReplaceRoute(t, self) in TakeoverSet(owners, self);
      }
    }
    forall c | c in ReconcileCalls(after, self, tables) ensures c.ReplaceRoute? && c.routeTableID !in owners {
      ReconcileCallsExactlyWhen(after, self, tables, c);
    }
  }

  /**
   * However the calls of a reconciliation pass and of a takeover interleave, the resulting map is the
   * one obtained by applying the pass first and the takeover second.
   */
  lemma LoopsConverge(owners: map<string, string>, self: string, tables: seq<string>, takeover: seq<Call>,
                      observed: map<string, string>, interleaving: seq<Call>)
    requires forall c :: c in takeover <==> c in TakeoverSet(observed, self)
    requires forall c :: c in interleaving <==> c in ReconcileCalls(owners, self, tables) || c in takeover
    ensures Applied(owners, interleaving) == Applied(owners, ReconcileCalls(owners, self, tables) + takeover)
  {
    var both := ReconcileCalls(owners, self, tables) + takeover;
    ReconcileTargetsSelf(owners, self, tables);
    assert TargetsOnly(both, self);
    ApplyOrderIrrelevant(owners, self, interleaving, both);
  }
}
