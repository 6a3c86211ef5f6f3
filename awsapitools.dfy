/**
 * The decision logic inside the EC2 wrappers of awsapitools.go.
 *
 * The EC2 responses are inputs (a `Result`, so that an API error is an input too). Every modelled
 * wrapper there defers `errhandling.CatchPanic`, which recovers a panic; since the wrappers' results are
 * unnamed, a recovered panic makes the wrapper return the zero value of its result type: the nil
 * map (read as empty) or the empty string.
 */
module AwsApiTools {
  import opened Wrappers

  /** The destination of the default route, the only route the controller reads or replaces. */
  const DefaultRouteCidr: string := "0.0.0.0/0"
  /** The owner recorded for a default route that does not target an instance. */
  const NotAssignedToEc2: string := "not_assigned_to_ec2"
  /** What InstancePublicIP answers for an instance without a public DNS name. */
  const HasNoPublicIP: string := "has_no_PublicIP"
  /** The one CIDR for which ModifySecurityGroup sends nothing. */
  const LocalhostCidr: string := "127.0.0.1/32"

  newtype Int64 = x: int | -0x8000_0000_0000_0000 <= x < 0x8000_0000_0000_0000

  // ---------------------------------------------------------------------------------------------
  // DescribeRouteTables: the response and the route-ownership map built from it
  // ---------------------------------------------------------------------------------------------

  datatype Association = Association(routeTableId: string)

  /** A route; a nil `DestinationCidrBlock` (an IPv6 or prefix-list route) is `None`. */
  datatype Route = Route(destinationCidrBlock: Option<string>, instanceId: Option<string>)

  datatype RouteTable = RouteTable(routeTableId: string, associations: seq<Association>, routes: seq<Route>)

  /** The route tables of the VPC, or the error DescribeRouteTables returned. */
  type DescribeRouteTablesOutput = Result<seq<RouteTable>, string>

  /** One assignment `rtIDInstID[key] = value` performed by the map-building loop. */
  type Entry = (string, string)

  predicate IsDefaultRoute(r: Route) {
    r.destinationCidrBlock == Some(DefaultRouteCidr)
  }

  /** The owner a default route records: its instance, or the sentinel. */
  function RouteValue(r: Route): string {
    r.instanceId.GetOr(NotAssignedToEc2)
  }

  /** The map key of a table is the route-table id of its first association. */
  predicate KeyedBy(t: RouteTable, k: string) {
    t.associations != [] && t.associations[0].routeTableId == k
  }

  /** Visiting `r` in table `t` dereferences nil or indexes an empty association list. */
  predicate RoutePanics(t: RouteTable, r: Route) {
    r.destinationCidrBlock.None? || (IsDefaultRoute(r) && t.associations == [])
  }

  /** One of `routes`, visited in table `t`, makes the inner loop panic. */
  predicate RoutesPanic(t: RouteTable, routes: seq<Route>) {
    exists j :: 0 <= j < |routes| && RoutePanics(t, routes[j])
  }

  /** Some route of table `t` makes the inner loop panic. */
  predicate TablePanics(t: RouteTable) {
    RoutesPanic(t, t.routes)
  }

  /** Some route of the response makes the loop panic. */
  predicate Panics(tables: seq<RouteTable>) {
    exists i :: 0 <= i < |tables| && TablePanics(tables[i])
  }

  /** Route `j` of table `i` exists and is a default route. */
  predicate DefaultRouteAt(tables: seq<RouteTable>, i: int, j: int) {
    0 <= i < |tables| && 0 <= j < |tables[i].routes| && IsDefaultRoute(tables[i].routes[j])
  }

  /** The assignment route `r` of table `t` contributes, if any. */
  function RouteEntry(t: RouteTable, r: Route): seq<Entry> {
    if IsDefaultRoute(r) && t.associations != [] then [(t.associations[0].routeTableId, RouteValue(r))] else []
  }

  /** The assignments of the inner loop over `routes`, in iteration order. */
  function RouteEntries(t: RouteTable, routes: seq<Route>): seq<Entry> {
    if routes == [] then []
    else RouteEntries(t, routes[..|routes| - 1]) + RouteEntry(t, routes[|routes| - 1])
  }

  /** The assignments of both loops over `tables`, in iteration order. */
  function Entries(tables: seq<RouteTable>): seq<Entry> {
    if tables == [] then []
    else
      var t := tables[|tables| - 1];
      Entries(tables[..|tables| - 1]) + RouteEntries(t, t.routes)
  }

  /** The map left by performing `entries` in order on an empty map. */
  function BuildMap(entries: seq<Entry>): map<string, string> {
    if entries == [] then map[]
    else
      var e := entries[|entries| - 1];
      BuildMap(entries[..|entries| - 1])[e.0 := e.1]
  }

  /** What DescribeRouteTableIDNatInstanceID returns for a DescribeRouteTables outcome. */
  function RouteOwnership(out: DescribeRouteTablesOutput): map<string, string> {
    match out
    case Failure(_) => map[]
    case Success(tables) => if Panics(tables) then map[] else BuildMap(Entries(tables))
  }

  /**
   * The map-building loops of DescribeRouteTableIDNatInstanceID; the inner loop over the routes of
   * one table is AddDefaultRoutes.
   */
  method DescribeRouteTableIDNatInstanceID(out: DescribeRouteTablesOutput) returns (rtIDInstID: map<string, string>)
    ensures rtIDInstID == RouteOwnership(out)
  {
    if out.Failure? {
      return map[];
    }
    var tables := out.value;
    rtIDInstID := map[];
    var i := 0;
    while i < |tables|
      invariant 0 <= i <= |tables|
      invariant !Panics(tables[..i])
      invariant rtIDInstID == BuildMap(Entries(tables[..i]))
    {
      var panicked;
      rtIDInstID, panicked := AddDefaultRoutes(rtIDInstID, tables[i], Entries(tables[..i]));
      if panicked {
        // the deferred recover makes the function return its zero value
        PanicsPrefix(tables, i + 1);
        return map[];
      }
      i := i + 1;
      PanicsPrefix(tables, i);
      EntriesPrefix(rtIDInstID, tables, i);
    }
    assert tables[..|tables|] == tables;
  }

  /**
   * The inner loop over the routes of table `r`, performed on the map built so far (the result of the
   * assignments `done`). `panicked` says that a route made it panic, and then `m` is meaningless.
   */
  method AddDefaultRoutes(rtIDInstID: map<string, string>, r: RouteTable, ghost done: seq<Entry>)
    returns (m: map<string, string>, panicked: bool)
    requires rtIDInstID == BuildMap(done)
    ensures panicked <==> TablePanics(r)
    ensures !panicked ==> m == BuildMap(done + RouteEntries(r, r.routes))
  {
    m := rtIDInstID;
    var j := 0;
    RouteEntriesPrefix(r, r.routes, 0);
    assert done + RouteEntries(r, r.routes[..0]) == done;
    while j < |r.routes|
      invariant 0 <= j <= |r.routes|
      invariant !RoutesPanic(r, r.routes[..j])
      invariant m == BuildMap(done + RouteEntries(r, r.routes[..j]))
    {
      var rt := r.routes[j];
      ghost var m0 := m;
      if rt.destinationCidrBlock.None? {
        // `*rt.DestinationCidrBlock` dereferences nil
        RoutesPanicPrefix(r, r.routes, j + 1);
        return m, true;
      }
      if rt.destinationCidrBlock.value == DefaultRouteCidr {
        if r.associations == [] {
          // `r.Associations[0]` is out of range
          RoutesPanicPrefix(r, r.routes, j + 1);
          return m, true;
        }
        if rt.instanceId.Some? {
          m := m[r.associations[0].routeTableId := rt.instanceId.value];
        } else {
          m := m[r.associations[0].routeTableId := NotAssignedToEc2];
        }
      }
      j := j + 1;
      AddDefaultRoutesStep(m0, m, r, done, j);
      RoutesPanicPrefix(r, r.routes, j);
    }
    RouteEntriesPrefix(r, r.routes, j);
    panicked := false;
  }

  /** One assignment of the inner loop, for the map built so far. */
  lemma AddDefaultRoutesStep(m0: map<string, string>, m: map<string, string>, r: RouteTable, done: seq<Entry>, n: int)
    requires 0 < n <= |r.routes| && !RoutePanics(r, r.routes[n - 1])
    requires m0 == BuildMap(done + RouteEntries(r, r.routes[..n - 1]))
    requires RouteEntry(r, r.routes[n - 1]) == [] ==> m == m0
    requires RouteEntry(r, r.routes[n - 1]) != [] ==> m == m0[r.associations[0].routeTableId := RouteValue(r.routes[n - 1])]
    ensures m == BuildMap(done + RouteEntries(r, r.routes[..n]))
  {
    RouteEntriesPrefix(r, r.routes, n);
    Assoc(done, RouteEntries(r, r.routes[..n - 1]), RouteEntry(r, r.routes[n - 1]));
    BuildMapSnoc(done + RouteEntries(r, r.routes[..n - 1]), RouteEntry(r, r.routes[n - 1]));
  }

  /** One more route of the inner loop, for the panic condition. */
  lemma RoutesPanicPrefix(t: RouteTable, routes: seq<Route>, j: int)
    requires 0 < j <= |routes|
    ensures RoutesPanic(t, routes[..j]) <==> RoutesPanic(t, routes[..j - 1]) || RoutePanics(t, routes[j - 1])
    ensures RoutePanics(t, routes[j - 1]) ==> RoutesPanic(t, routes)
    ensures j == |routes| ==> routes[..j] == routes
  {
    var p, q := routes[..j], routes[..j - 1];
    if RoutesPanic(t, p) {
      var k :| 0 <= k < |p| && RoutePanics(t, p[k]);
      if k < j - 1 {
        assert q[k] == p[k];
      }
    }
    if RoutesPanic(t, q) {
      var k :| 0 <= k < |q| && RoutePanics(t, q[k]);
      assert p[k] == q[k];
    }
  }

  /** One more route of the inner loop. */
  lemma RouteEntriesPrefix(t: RouteTable, routes: seq<Route>, j: int)
    requires 0 <= j <= |routes|
    ensures j == 0 ==> RouteEntries(t, routes[..j]) == []
    ensures j > 0 ==> RouteEntries(t, routes[..j]) == RouteEntries(t, routes[..j - 1]) + RouteEntry(t, routes[j - 1])
    ensures j == |routes| ==> routes[..j] == routes
  {
    if j > 0 {
      assert routes[..j][..j - 1] == routes[..j - 1];
    }
  }

  /** A panic within the first `i` tables is a panic of the first `i - 1` or of table `i - 1`; every prefix of a response that does not panic does not panic. */
  lemma PanicsPrefix(tables: seq<RouteTable>, i: int)
    requires 0 < i <= |tables|
    ensures Panics(tables[..i]) <==> Panics(tables[..i - 1]) || TablePanics(tables[i - 1])
    ensures TablePanics(tables[i - 1]) ==> Panics(tables)
    ensures i == |tables| ==> tables[..i] == tables
  {
    var p, q := tables[..i], tables[..i - 1];
    if Panics(p) {
      var k :| 0 <= k < |p| && TablePanics(p[k]);
      if k < i - 1 {
        assert q[k] == p[k];
      }
    }
    if Panics(q) {
      var k :| 0 <= k < |q| && TablePanics(q[k]);
      assert p[k] == q[k];
    }
    if TablePanics(tables[i - 1]) {
      assert p[i - 1] == tables[i - 1];
    }
  }

  /** One more table of the outer loop. */
  lemma EntriesPrefix(m: map<string, string>, tables: seq<RouteTable>, i: int)
    requires 0 < i <= |tables|
    requires m == BuildMap(Entries(tables[..i - 1]) + RouteEntries(tables[i - 1], tables[i - 1].routes))
    ensures m == BuildMap(Entries(tables[..i]))
  {
    assert tables[..i][..i - 1] == tables[..i - 1];
  }

  lemma Assoc(a: seq<Entry>, b: seq<Entry>, c: seq<Entry>)
    ensures a + (b + c) == (a + b) + c
  {
  }

  /** Performing at most one more assignment. */
  lemma BuildMapSnoc(es: seq<Entry>, e: seq<Entry>)
    requires |e| <= 1
    ensures e == [] ==> BuildMap(es + e) == BuildMap(es)
    ensures e != [] ==> BuildMap(es + e) == BuildMap(es)[e[0].0 := e[0].1]
  {
    if e == [] {
      assert es + e == es;
    } else {
      assert (es + e)[..|es|] == es;
    }
  }

  // ---------------------------------------------------------------------------------------------
  // Lemmas about the map-building loops
  // ---------------------------------------------------------------------------------------------

  lemma {:induction false} BuildMapKeys(es: seq<Entry>)
    ensures BuildMap(es).Keys == set e | e in es :: e.0
  {
    if es != [] {
      var pre := es[..|es| - 1];
      BuildMapKeys(pre);
      assert es == pre + [es[|es| - 1]];
    }
  }

  lemma {:induction false} BuildMapValues(es: seq<Entry>, k: string)
    requires k in BuildMap(es)
    ensures (k, BuildMap(es)[k]) in es
  {
    var pre := es[..|es| - 1];
    var e := es[|es| - 1];
    assert es == pre + [e];
    if e.0 != k {
      BuildMapValues(pre, k);
    }
  }

  /** Later assignments override earlier ones. */
  lemma {:induction false} BuildMapAppend(a: seq<Entry>, b: seq<Entry>)
    ensures BuildMap(a + b) == BuildMap(a) + BuildMap(b)
  {
    if b == [] {
      assert a + b == a;
    } else {
      var b' := b[..|b| - 1];
      assert (a + b)[..|a + b| - 1] == a + b';
      BuildMapAppend(a, b');
    }
  }

  lemma {:induction false} RouteEntriesAppend(t: RouteTable, r1: seq<Route>, r2: seq<Route>)
    ensures RouteEntries(t, r1 + r2) == RouteEntries(t, r1) + RouteEntries(t, r2)
  {
    if r2 == [] {
      assert r1 + r2 == r1;
    } else {
      var r2' := r2[..|r2| - 1];
      assert (r1 + r2)[..|r1 + r2| - 1] == r1 + r2';
      RouteEntriesAppend(t, r1, r2');
    }
  }

  lemma {:induction false} EntriesAppend(t1: seq<RouteTable>, t2: seq<RouteTable>)
    ensures Entries(t1 + t2) == Entries(t1) + Entries(t2)
  {
    if t2 == [] {
      assert t1 + t2 == t1;
    } else {
      var t2' := t2[..|t2| - 1];
      assert (t1 + t2)[..|t1 + t2| - 1] == t1 + t2';
      EntriesAppend(t1, t2');
    }
  }

  lemma {:induction false} RouteEntriesMembership(t: RouteTable, routes: seq<Route>, e: Entry)
    ensures e in RouteEntries(t, routes) <==> exists j :: 0 <= j < |routes| && e in RouteEntry(t, routes[j])
  {
    if routes != [] {
      var pre := routes[..|routes| - 1];
      RouteEntriesMembership(t, pre, e);
      if e in RouteEntries(t, pre) {
        var j :| 0 <= j < |pre| && e in RouteEntry(t, pre[j]);
        assert routes[j] == pre[j];
      }
      if exists j :: 0 <= j < |routes| && e in RouteEntry(t, routes[j]) {
        var j :| 0 <= j < |routes| && e in RouteEntry(t, routes[j]);
        if j < |pre| {
          assert pre[j] == routes[j];
        }
      }
    }
  }

  /** Route `j` of table `i` performs assignment `e`. */
  predicate AssignedAt(tables: seq<RouteTable>, e: Entry, i: int, j: int) {
    0 <= i < |tables| && 0 <= j < |tables[i].routes| && e in RouteEntry(tables[i], tables[i].routes[j])
  }

  lemma {:induction false} EntriesMembership(tables: seq<RouteTable>, e: Entry)
    ensures e in Entries(tables) <==> exists i, j :: AssignedAt(tables, e, i, j)
  {
    if tables != [] {
      var pre, t := tables[..|tables| - 1], tables[|tables| - 1];
      EntriesMembership(pre, e);
      RouteEntriesMembership(t, t.routes, e);
      assert e in Entries(tables) <==> e in Entries(pre) || e in RouteEntries(t, t.routes);
      if e in Entries(pre) {
        var i, j :| AssignedAt(pre, e, i, j);
        assert tables[i] == pre[i];
        assert AssignedAt(tables, e, i, j);
      } else if e in RouteEntries(t, t.routes) {
        var j :| 0 <= j < |t.routes| && e in RouteEntry(t, t.routes[j]);
        assert AssignedAt(tables, e, |tables| - 1, j);
      }
      if exists i, j :: AssignedAt(tables, e, i, j) {
        var i, j :| AssignedAt(tables, e, i, j);
        if i < |pre| {
          assert pre[i] == tables[i];
          assert AssignedAt(pre, e, i, j);
        } else {
          assert tables[i] == t;
        }
      }
    }
  }

  // ---------------------------------------------------------------------------------------------
  // What the map means
  // ---------------------------------------------------------------------------------------------

  /** The map has an entry exactly for the first-association ids of tables with a default route. */
  lemma OwnershipKeys(tables: seq<RouteTable>, k: string)
    requires !Panics(tables)
    ensures k in RouteOwnership(Success(tables)) <==> exists i, j :: DefaultRouteAt(tables, i, j) && KeyedBy(tables[i], k)
  {
    var es := Entries(tables);
    var m := RouteOwnership(Success(tables));
    assert m == BuildMap(es);
    BuildMapKeys(es);
    if k in m {
      var e :| e in es && e.0 == k;
      EntriesMembership(tables, e);
      var i, j :| AssignedAt(tables, e, i, j);
      assert DefaultRouteAt(tables, i, j) && KeyedBy(tables[i], k);
    }
    if exists i, j :: DefaultRouteAt(tables, i, j) && KeyedBy(tables[i], k) {
      var i, j :| DefaultRouteAt(tables, i, j) && KeyedBy(tables[i], k);
      var e := (k, RouteValue(tables[i].routes[j]));
      assert AssignedAt(tables, e, i, j);
      EntriesMembership(tables, e);
      assert e in es;
    }
  }

  /** Every value is the instance of a default route keyed by that entry, or the sentinel for one without an instance. */
  lemma OwnershipValues(out: DescribeRouteTablesOutput, k: string)
    requires k in RouteOwnership(out)
    ensures out.Success? && !Panics(out.value)
    ensures exists i, j :: (DefaultRouteAt(out.value, i, j) && KeyedBy(out.value[i], k) &&
      (out.value[i].routes[j].instanceId == Some(RouteOwnership(out)[k]) ||
       (out.value[i].routes[j].instanceId == None && RouteOwnership(out)[k] == NotAssignedToEc2)))
  {
    var tables := out.value;
    var es := Entries(tables);
    BuildMapValues(es, k);
    var e := (k, RouteOwnership(out)[k]);
    EntriesMembership(tables, e);
    var i, j :| AssignedAt(tables, e, i, j);
    assert DefaultRouteAt(tables, i, j) && KeyedBy(tables[i], k);
  }

  /** A response without any default route yields the empty map, whether or not it panics. */
  lemma NoDefaultRouteEmptyMap(out: DescribeRouteTablesOutput)
    requires out.Success? ==> forall i, j :: !DefaultRouteAt(out.value, i, j)
    ensures RouteOwnership(out) == map[]
  {
    if out.Success? && !Panics(out.value) {
      forall k | k in RouteOwnership(out) ensures false {
        OwnershipKeys(out.value, k);
      }
    }
  }

  /**
   * An error from DescribeRouteTables, or any route that panics where it is visited (one without an
   * IPv4 destination, or a default route in a table with no association), yields the empty map.
   */
  lemma FailedDescribeEmptyMap(out: DescribeRouteTablesOutput)
    requires out.Failure? || exists i, j :: (0 <= i < |out.value| && 0 <= j < |out.value[i].routes| &&
      RoutePanics(out.value[i], out.value[i].routes[j]))
    ensures RouteOwnership(out) == map[]
  {
    if out.Success? {
      var i, j :| 0 <= i < |out.value| && 0 <= j < |out.value[i].routes| && RoutePanics(out.value[i], out.value[i].routes[j]);
      assert TablePanics(out.value[i]);
    }
  }

  /** A later default route keyed by `k`, in the order the loops visit routes. */
  ghost predicate LaterDefaultRouteFor(tables: seq<RouteTable>, i: int, j: int, k: string) {
    exists i', j' :: DefaultRouteAt(tables, i', j') && (i' > i || (i' == i && j' > j)) && KeyedBy(tables[i'], k)
  }

  /** The assignments made before route `j` of table `i`. */
  ghost function EntriesBefore(tables: seq<RouteTable>, i: int, j: int): seq<Entry>
    requires DefaultRouteAt(tables, i, j)
  {
    Entries(tables[..i]) + RouteEntries(tables[i], tables[i].routes[..j])
  }

  /** The assignments made after route `j` of table `i`. */
  ghost function EntriesAfter(tables: seq<RouteTable>, i: int, j: int): seq<Entry>
    requires DefaultRouteAt(tables, i, j)
  {
    RouteEntries(tables[i], tables[i].routes[j + 1..]) + Entries(tables[i + 1..])
  }

  lemma EntriesSplitAt(tables: seq<RouteTable>, i: int)
    requires 0 <= i < |tables|
    ensures Entries(tables) == Entries(tables[..i]) + RouteEntries(tables[i], tables[i].routes) + Entries(tables[i + 1..])
  {
    var t, before, after := tables[i], tables[..i], tables[i + 1..];
    SplitSeq(tables, i);
    EntriesAppend(before + [t], after);
    assert (before + [t])[..|before|] == before;
  }

  lemma RouteEntriesSplitAt(t: RouteTable, routes: seq<Route>, j: int)
    requires 0 <= j < |routes|
    ensures RouteEntries(t, routes) == RouteEntries(t, routes[..j]) + RouteEntry(t, routes[j]) + RouteEntries(t, routes[j + 1..])
  {
    var r, before, after := routes[j], routes[..j], routes[j + 1..];
    SplitSeq(routes, j);
    RouteEntriesAppend(t, before + [r], after);
    assert (before + [r])[..|before|] == before;
  }

  lemma SplitSeq<T>(s: seq<T>, i: int)
    requires 0 <= i < |s|
    ensures s == (s[..i] + [s[i]]) + s[i + 1..]
  {
    assert s == s[..i] + s[i..];
    assert s[i..] == [s[i]] + s[i + 1..];
  }

  lemma Regroup(a: seq<Entry>, b1: seq<Entry>, e: seq<Entry>, b2: seq<Entry>, c: seq<Entry>)
    ensures a + (b1 + e + b2) + c == (a + b1) + e + (b2 + c)
  {
  }

  lemma SplitEntries(tables: seq<RouteTable>, i: int, j: int)
    requires DefaultRouteAt(tables, i, j)
    ensures Entries(tables) ==
      EntriesBefore(tables, i, j) + RouteEntry(tables[i], tables[i].routes[j]) + EntriesAfter(tables, i, j)
  {
    EntriesSplitAt(tables, i);
    RouteEntriesSplitAt(tables[i], tables[i].routes, j);
    Regroup(Entries(tables[..i]), RouteEntries(tables[i], tables[i].routes[..j]), RouteEntry(tables[i], tables[i].routes[j]),
      RouteEntries(tables[i], tables[i].routes[j + 1..]), Entries(tables[i + 1..]));
  }

  lemma NothingLaterAssigns(tables: seq<RouteTable>, i: int, j: int, k: string, x: Entry)
    requires DefaultRouteAt(tables, i, j) && !LaterDefaultRouteFor(tables, i, j, k)
    requires x in EntriesAfter(tables, i, j)
    ensures x.0 != k
  {
    var t := tables[i];
    var rAfter, after := t.routes[j + 1..], tables[i + 1..];
    if x in RouteEntries(t, rAfter) {
      RouteEntriesMembership(t, rAfter, x);
      var j' :| 0 <= j' < |rAfter| && x in RouteEntry(t, rAfter[j']);
      assert DefaultRouteAt(tables, i, j + 1 + j') && KeyedBy(tables[i], x.0);
      assert LaterDefaultRouteFor(tables, i, j, x.0);
    } else {
      EntriesMembership(after, x);
      var i', j' :| AssignedAt(after, x, i', j');
      assert tables[i + 1 + i'] == after[i'];
      assert DefaultRouteAt(tables, i + 1 + i', j') && KeyedBy(tables[i + 1 + i'], x.0);
      assert LaterDefaultRouteFor(tables, i, j, x.0);
    }
  }

  /** When several default routes share a key, the last one visited decides the entry. */
  lemma LastDefaultRouteWins(tables: seq<RouteTable>, i: int, j: int, k: string)
    requires !Panics(tables)
    requires DefaultRouteAt(tables, i, j) && KeyedBy(tables[i], k)
    requires !LaterDefaultRouteFor(tables, i, j, k)
    ensures k in RouteOwnership(Success(tables))
    ensures RouteOwnership(Success(tables))[k] == RouteValue(tables[i].routes[j])
  {
    var e := (k, RouteValue(tables[i].routes[j]));
    assert RouteEntry(tables[i], tables[i].routes[j]) == [e];
    var pre, post := EntriesBefore(tables, i, j), EntriesAfter(tables, i, j);
    SplitEntries(tables, i, j);
    forall x | x in post ensures x.0 != k {
      NothingLaterAssigns(tables, i, j, k, x);
    }
    BuildMapKeys(post);
    BuildMapAppend(pre + [e], post);
    assert (pre + [e])[..|pre|] == pre;
  }

  // ---------------------------------------------------------------------------------------------
  // ReplaceRoute: its request, and what the request does to the next DescribeRouteTables
  // ---------------------------------------------------------------------------------------------

  datatype ReplaceRouteInput = ReplaceRouteInput(
    destinationCidrBlock: string, routeTableId: string, dryRun: bool, instanceId: string)

  /** The request ReplaceRoute sends. */
  function ReplaceRouteRequest(routeTableID: string, instanceID: string): (req: ReplaceRouteInput)
    ensures req.destinationCidrBlock == DefaultRouteCidr && !req.dryRun
    ensures req.routeTableId == routeTableID && req.instanceId == instanceID
  {
    ReplaceRouteInput(DefaultRouteCidr, routeTableID, false, instanceID)
  }

  /** A route after the request: the route with the requested destination now targets the instance. */
  function ReplacedRoute(r: Route, req: ReplaceRouteInput): Route {
    if r.destinationCidrBlock == Some(req.destinationCidrBlock) then Route(r.destinationCidrBlock, Some(req.instanceId)) else r
  }

  function ReplacedRoutes(routes: seq<Route>, req: ReplaceRouteInput): seq<Route> {
    if routes == [] then []
    else ReplacedRoutes(routes[..|routes| - 1], req) + [ReplacedRoute(routes[|routes| - 1], req)]
  }

  function ReplacedTable(t: RouteTable, req: ReplaceRouteInput): RouteTable {
    if t.routeTableId == req.routeTableId then t.(routes := ReplacedRoutes(t.routes, req)) else t
  }

  /** The route tables of the VPC once EC2 has carried out the request. */
  function ReplacedTables(tables: seq<RouteTable>, req: ReplaceRouteInput): seq<RouteTable> {
    if tables == [] then []
    else ReplacedTables(tables[..|tables| - 1], req) + [ReplacedTable(tables[|tables| - 1], req)]
  }

  /** EC2 associates a route table only with its own id. */
  predicate WellFormed(tables: seq<RouteTable>) {
    forall i :: 0 <= i < |tables| ==> forall a :: a in tables[i].associations ==> a.routeTableId == tables[i].routeTableId
  }

  /** The ownership map once `t` has been made to point at `id`: a table with no default route has nothing to replace. */
  function ReplacedOwner(owners: map<string, string>, t: string, id: string): map<string, string> {
    if t in owners then owners[t := id] else owners
  }

  /** The assignments `es` with every value for key `k` replaced by `v`. */
  function RewriteEntries(es: seq<Entry>, k: string, v: string): seq<Entry> {
    if es == [] then []
    else
      var e := es[|es| - 1];
      RewriteEntries(es[..|es| - 1], k, v) + [(e.0, if e.0 == k then v else e.1)]
  }

  lemma {:induction false} ReplacedRoutesAt(routes: seq<Route>, req: ReplaceRouteInput)
    ensures |ReplacedRoutes(routes, req)| == |routes|
    ensures forall j :: 0 <= j < |routes| ==> ReplacedRoutes(routes, req)[j] == ReplacedRoute(routes[j], req)
  {
    if routes != [] {
      ReplacedRoutesAt(routes[..|routes| - 1], req);
    }
  }

  lemma {:induction false} ReplacedTablesAt(tables: seq<RouteTable>, req: ReplaceRouteInput)
    ensures |ReplacedTables(tables, req)| == |tables|
    ensures forall i :: 0 <= i < |tables| ==> ReplacedTables(tables, req)[i] == ReplacedTable(tables[i], req)
  {
    if tables != [] {
      ReplacedTablesAt(tables[..|tables| - 1], req);
    }
  }

  lemma {:induction false} RewriteEntriesAppend(a: seq<Entry>, b: seq<Entry>, k: string, v: string)
    ensures RewriteEntries(a + b, k, v) == RewriteEntries(a, k, v) + RewriteEntries(b, k, v)
  {
    if b == [] {
      assert a + b == a;
    } else {
      var b' := b[..|b| - 1];
      assert (a + b)[..|a + b| - 1] == a + b';
      RewriteEntriesAppend(a, b', k, v);
    }
  }

  /** Rewriting entries whose keys all differ from `k` changes nothing. */
  lemma {:induction false} RewriteOtherKey(es: seq<Entry>, k: string, v: string)
    requires forall e :: e in es ==> e.0 != k
    ensures RewriteEntries(es, k, v) == es
  {
    if es != [] {
      RewriteOtherKey(es[..|es| - 1], k, v);
      assert es == es[..|es| - 1] + [es[|es| - 1]];
    }
  }

  lemma {:induction false} RouteEntriesKeys(t: RouteTable, routes: seq<Route>, e: Entry)
    requires WellFormed([t])
    requires e in RouteEntries(t, routes)
    ensures e.0 == t.routeTableId
  {
    RouteEntriesMembership(t, routes, e);
    var j :| 0 <= j < |routes| && e in RouteEntry(t, routes[j]);
    assert t.associations[0] in t.associations;
    assert [t][0] == t;
  }

  lemma {:induction false} RouteEntriesReplaced(t: RouteTable, routes: seq<Route>, req: ReplaceRouteInput)
    requires WellFormed([t]) && req.destinationCidrBlock == DefaultRouteCidr && t.routeTableId == req.routeTableId
    ensures RouteEntries(t, ReplacedRoutes(routes, req)) == RewriteEntries(RouteEntries(t, routes), req.routeTableId, req.instanceId)
  {
    if routes != [] {
      var pre := routes[..|routes| - 1];
      var r := routes[|routes| - 1];
      RouteEntriesReplaced(t, pre, req);
      var rr := ReplacedRoutes(routes, req);
      assert rr[..|rr| - 1] == ReplacedRoutes(pre, req);
      RewriteEntriesAppend(RouteEntries(t, pre), RouteEntry(t, r), req.routeTableId, req.instanceId);
      if RouteEntry(t, r) != [] {
        assert t.associations[0] in t.associations;
        assert [t][0] == t;
        assert [RouteEntry(t, r)[0]][..0] == [];
      }
    }
  }

  /** A route's assignment depends on its table only through the table's associations. */
  lemma {:induction false} RouteEntriesAssociationsOnly(t: RouteTable, t': RouteTable, routes: seq<Route>)
    requires t.associations == t'.associations
    ensures RouteEntries(t, routes) == RouteEntries(t', routes)
  {
    if routes != [] {
      RouteEntriesAssociationsOnly(t, t', routes[..|routes| - 1]);
    }
  }

  lemma WellFormedParts(tables: seq<RouteTable>)
    requires WellFormed(tables) && tables != []
    ensures WellFormed(tables[..|tables| - 1]) && WellFormed([tables[|tables| - 1]])
  {
  }

  /** The request leaves the assignments of a table with another id as they were. */
  lemma RouteEntriesUntouched(t: RouteTable, req: ReplaceRouteInput)
    requires WellFormed([t]) && t.routeTableId != req.routeTableId
    ensures RouteEntries(ReplacedTable(t, req), ReplacedTable(t, req).routes) ==
      RewriteEntries(RouteEntries(t, t.routes), req.routeTableId, req.instanceId)
  {
    forall e | e in RouteEntries(t, t.routes) ensures e.0 != req.routeTableId {
      RouteEntriesKeys(t, t.routes, e);
    }
    RewriteOtherKey(RouteEntries(t, t.routes), req.routeTableId, req.instanceId);
  }

  lemma {:induction false} EntriesReplaced(tables: seq<RouteTable>, req: ReplaceRouteInput)
    requires WellFormed(tables) && req.destinationCidrBlock == DefaultRouteCidr
    ensures Entries(ReplacedTables(tables, req)) == RewriteEntries(Entries(tables), req.routeTableId, req.instanceId)
  {
    if tables != [] {
      var pre := tables[..|tables| - 1];
      var t := tables[|tables| - 1];
      WellFormedParts(tables);
      EntriesReplaced(pre, req);
      var rt := ReplacedTables(tables, req);
      assert rt[..|rt| - 1] == ReplacedTables(pre, req);
      assert rt[|rt| - 1] == ReplacedTable(t, req);
      RewriteEntriesAppend(Entries(pre), RouteEntries(t, t.routes), req.routeTableId, req.instanceId);
      if t.routeTableId == req.routeTableId {
        RouteEntriesReplaced(t, t.routes, req);
        RouteEntriesAssociationsOnly(t, ReplacedTable(t, req), ReplacedTable(t, req).routes);
      } else {
        RouteEntriesUntouched(t, req);
      }
    }
  }

  lemma {:induction false} BuildMapRewrite(es: seq<Entry>, k: string, v: string)
    ensures BuildMap(RewriteEntries(es, k, v)) == ReplacedOwner(BuildMap(es), k, v)
  {
    if es != [] {
      var pre := es[..|es| - 1];
      BuildMapRewrite(pre, k, v);
      var rw := RewriteEntries(es, k, v);
      assert rw[..|rw| - 1] == RewriteEntries(pre, k, v);
    }
  }

  lemma PanicsReplaced(tables: seq<RouteTable>, req: ReplaceRouteInput)
    ensures Panics(ReplacedTables(tables, req)) <==> Panics(tables)
  {
    var rt := ReplacedTables(tables, req);
    ReplacedTablesAt(tables, req);
    forall i | 0 <= i < |tables| ensures |rt[i].routes| == |tables[i].routes| &&
      forall j :: 0 <= j < |tables[i].routes| ==> (RoutePanics(rt[i], rt[i].routes[j]) <==> RoutePanics(tables[i], tables[i].routes[j]))
    {
      ReplacedRoutesAt(tables[i].routes, req);
    }
    if Panics(tables) {
      var i :| 0 <= i < |tables| && TablePanics(tables[i]);
      var j :| 0 <= j < |tables[i].routes| && RoutePanics(tables[i], tables[i].routes[j]);
      assert RoutePanics(rt[i], rt[i].routes[j]);
      assert TablePanics(rt[i]);
    }
    if Panics(rt) {
      var i :| 0 <= i < |rt| && TablePanics(rt[i]);
      var j :| 0 <= j < |rt[i].routes| && RoutePanics(rt[i], rt[i].routes[j]);
      assert RoutePanics(tables[i], tables[i].routes[j]);
      assert TablePanics(tables[i]);
    }
  }

  /**
   * Round trip: after ReplaceRoute(t, id) succeeds, DescribeRouteTableIDNatInstanceID reports `id` as the
   * owner of `t` and every other entry as before; a table with no entry still has none.
   */
  lemma ReplaceThenDescribe(tables: seq<RouteTable>, t: string, id: string)
    requires WellFormed(tables)
    ensures RouteOwnership(Success(ReplacedTables(tables, ReplaceRouteRequest(t, id)))) ==
      ReplacedOwner(RouteOwnership(Success(tables)), t, id)
  {
    var req := ReplaceRouteRequest(t, id);
    PanicsReplaced(tables, req);
    if !Panics(tables) {
      EntriesReplaced(tables, req);
      BuildMapRewrite(Entries(tables), t, id);
    }
  }

  // ---------------------------------------------------------------------------------------------
  // ModifySecurityGroup: the localhost guard
  // ---------------------------------------------------------------------------------------------

  datatype IpPermission = IpPermission(fromPort: Int64, toPort: Int64, ipProtocol: string, cidrIps: seq<string>)

  datatype AuthorizeSecurityGroupIngressInput = AuthorizeSecurityGroupIngressInput(
    dryRun: bool, groupId: string, ipPermissions: seq<IpPermission>)

  /** The request opens `cidr` in some permission. */
  predicate Authorizes(req: AuthorizeSecurityGroupIngressInput, cidr: string) {
    exists p :: p in req.ipPermissions && cidr in p.cidrIps
  }

  /** The ingress request ModifySecurityGroup sends, or `None` when it returns before sending one. */
  function ModifySecurityGroup(protocol: string, cidrIP: string, sgGroupID: string, fromPort: Int64, toPort: Int64)
    : (req: Option<AuthorizeSecurityGroupIngressInput>)
    ensures req.None? <==> cidrIP == LocalhostCidr
    ensures forall c :: req.Some? && Authorizes(req.value, c) <==> cidrIP != LocalhostCidr && c == cidrIP
    ensures req.Some? ==> (req.value.groupId == sgGroupID && !req.value.dryRun &&
      forall p :: p in req.value.ipPermissions ==> p.fromPort == fromPort && p.toPort == toPort && p.ipProtocol == protocol)
  {
    if cidrIP == LocalhostCidr then None
    else
      var p := IpPermission(fromPort, toPort, protocol, [cidrIP]);
      assert p in [p];
      Some(AuthorizeSecurityGroupIngressInput(false, sgGroupID, [p]))
  }

  // ---------------------------------------------------------------------------------------------
  // InstancePublicIP: the public-IP fallback
  // ---------------------------------------------------------------------------------------------

  datatype InterfaceAssociation = InterfaceAssociation(publicIp: Option<string>)
  datatype NetworkInterface = NetworkInterface(association: Option<InterfaceAssociation>)
  datatype Instance = Instance(publicDnsName: Option<string>, networkInterfaces: seq<NetworkInterface>)
  datatype Reservation = Reservation(instances: seq<Instance>)

  /** The reservations DescribeInstances returned, or its error. */
  type DescribeInstancesOutput = Result<seq<Reservation>, string>

  /** `resp.Reservations[0].Instances[0]`, or `None` where those indexes panic. */
  function FirstInstance(out: DescribeInstancesOutput): Option<Instance>
  {
    if out.Success? && out.value != [] && out.value[0].instances != [] then Some(out.value[0].instances[0]) else None
  }

  /** `NetworkInterfaces[0].Association.PublicIp`, or `None` where that panics. */
  function FirstInterfacePublicIp(inst: Instance): Option<string>
  {
    if inst.networkInterfaces != [] && inst.networkInterfaces[0].association.Some? then
      inst.networkInterfaces[0].association.value.publicIp
    else None
  }

  /** The address InstancePublicIP returns; a recovered panic returns "". */
  function InstancePublicIP(out: DescribeInstancesOutput): (publicIP: string)
    ensures FirstInstance(out).None? ==> publicIP == ""
    ensures FirstInstance(out).Some? ==>
      var inst := FirstInstance(out).value;
      (inst.publicDnsName == Some("") ==> publicIP == HasNoPublicIP) &&
      (inst.publicDnsName.None? ==> publicIP == "") &&
      (inst.publicDnsName.Some? && inst.publicDnsName.value != "" ==> publicIP == FirstInterfacePublicIp(inst).GetOr(""))
  {
    match FirstInstance(out)
    case None => ""
    case Some(inst) =>
      match inst.publicDnsName
      case None => ""
      case Some(dns) => if dns != "" then FirstInterfacePublicIp(inst).GetOr("") else HasNoPublicIP
  }

  /** The sentinel is answered only for an instance whose DNS name is empty, or whose public address is the sentinel itself. */
  lemma HasNoPublicIPOnlyWithoutDnsName(out: DescribeInstancesOutput)
    requires InstancePublicIP(out) == HasNoPublicIP
    ensures FirstInstance(out).Some?
    ensures FirstInstance(out).value.publicDnsName == Some("") ||
      FirstInterfacePublicIp(FirstInstance(out).value) == Some(HasNoPublicIP)
  {
  }
}
