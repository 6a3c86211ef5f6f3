# awsnathealth in Dafny

A model of the decision logic of awsnathealth, a failover controller for a pair of AWS NAT instances.
Each instance runs two loops:

- **The reconciliation loop** reads which instance each route table's default route (`0.0.0.0/0`)
  points at. It then takes back every table in its own configured list that it does not own.
- **The reactive loop** listens to an ICMP liveness detector. When the peer stops answering, the loop
  checks three things in turn: the peer's HTTP health handler, the peer's EC2 instance state, and the
  route-ownership map. It then points every default route not already its own at itself.

The model has four modules:

- `Wrappers` (`wrappers.dfy`): `Option`, standing for a Go pointer that may be nil, and `Result`,
  standing for the outcome of an SDK call.
- `AwsApiTools` (`awsapitools.dfy`): the route-ownership loops of
  `DescribeRouteTableIDNatInstanceID`, proved against a fold over the tables. Also:
  - the request `ReplaceRoute` sends, and what that request does to the next ownership map;
  - the localhost guard of `ModifySecurityGroup`;
  - the fallback of `InstancePublicIP`.
- `HostPing` (`hostping.dfy`): the reply table of `Ping` as a class. A reply event updates the table,
  and an idle event emits one boolean per entry. It also states what the emitted stream means.
- `Failover` (`failover.dfy`): one reconciliation iteration and one reactive step, as methods that
  return the calls they issue, in order. Also lemmas on how the replacements change the map.

Every modelled wrapper defers `errhandling.CatchPanic`, and their results are unnamed. So a wrapper
that panics (an API error turned into `panic(err)`, a nil dereference, an index out of range)
returns the zero value of its result type: an empty map or `""`. The modelled functions return that
value in every such case the data types can express; the pointers they cannot express are listed
under "Left out". The calling loops then carry on with the zero value. They do not stop the
iteration and apply no special handling.

A consequence of this: one route without an IPv4 destination anywhere in the VPC empties the whole
ownership map (awsapitools/awsapitools.go:43). IPv6 routes and the prefix-list routes of gateway
endpoints are such routes. A default route in a table with no association does the same
(awsapitools/awsapitools.go:45). From then on every reconciliation pass reassigns every configured
table, and a takeover issues nothing, even while the peer owns the routes. `AwsApiTools.FailedDescribeEmptyMap` and
`Failover.FailedDescribeReassignsAll` state this for every such route; `Failover.NilDestinationHidesOwners`
works through one concrete table.

The collaborators' answers are parameters:
- the DescribeRouteTables response;
- the HTTP response code;
- the peer's instance state;
- the outcome of resolving the peer's address;
- the stream of reply and idle events.

## Model

| member | source | states |
|---|---|---|
| AwsApiTools.DescribeRouteTableIDNatInstanceID | awsapitools/awsapitools.go:21-53 | The nested loops build exactly `RouteOwnership` of the response. That is the empty map after an API error or a recovered panic, and otherwise the map left by performing every default-route assignment in visiting order. |
| AwsApiTools.AddDefaultRoutes | awsapitools/awsapitools.go:42-50 | The inner loop over one table panics exactly when some route has a nil destination, or is a default route of a table with no association. Otherwise the map is the one the assignments so far would build, followed by this table's default-route assignments. |
| AwsApiTools.OwnershipKeys | awsapitools/awsapitools.go:41-47 | For a response that does not panic, a key is in the map exactly when some table has a default route and that table's first association has this id. |
| AwsApiTools.OwnershipValues | awsapitools/awsapitools.go:44-48 | Every entry comes from a default route of a table keyed by it. The value is that route's instance id, or `not_assigned_to_ec2` when the route has no instance. |
| AwsApiTools.NoDefaultRouteEmptyMap | awsapitools/awsapitools.go:26-43 | A response without any `0.0.0.0/0` route yields the empty map. |
| AwsApiTools.FailedDescribeEmptyMap | awsapitools/awsapitools.go:37-47 | An API error, or any route anywhere in the response that panics where it is visited, yields the empty map. Such a route has no IPv4 destination, or is a default route in a table with no association. |
| AwsApiTools.LastDefaultRouteWins | awsapitools/awsapitools.go:41-50 | When several default routes share a key, the entry holds the value of the last one visited. |
| AwsApiTools.ReplaceRouteRequest | awsapitools/awsapitools.go:61-66 | The request always has destination `0.0.0.0/0` and no dry run. It carries exactly the given route-table id and instance id. |
| AwsApiTools.ReplaceThenDescribe | awsapitools/awsapitools.go:61-66 | Round trip, for tables associated only under their own id: after the request takes effect, the ownership map has `id` for table `t` and is unchanged elsewhere. A table with no entry still has none. |
| AwsApiTools.ModifySecurityGroup | awsapitools/awsapitools.go:238-258 | No request exactly when the CIDR is `127.0.0.1/32`. Otherwise the request opens that CIDR and no other, for the given group, ports and protocol, with no dry run. |
| AwsApiTools.InstancePublicIP | awsapitools/awsapitools.go:202-206 | Returns `has_no_PublicIP` for an empty DNS name and the first interface's public IP for a non-empty one. Returns `""` where a recovered panic returns the zero value: no instance, a nil DNS name, or a missing interface or address. |
| AwsApiTools.HasNoPublicIPOnlyWithoutDnsName | awsapitools/awsapitools.go:202-206 | The sentinel comes back only for an instance whose DNS name is empty, or whose public address is itself the sentinel. |
| HostPing.Pinger.constructor | hostping/hostping.go:27-28 | The table starts with exactly one key, the resolved address, with no reply. |
| HostPing.Pinger.OnRecv | hostping/hostping.go:46-49 | A reply from an address in the table records it. A reply from any other address leaves the table unchanged. Nothing is emitted. |
| HostPing.Pinger.OnIdle | hostping/hostping.go:50-57 | Emits one value per table entry: `false` when no reply is stored, `true` otherwise. The table is left as it was. |
| HostPing.Pinger.Run | hostping/hostping.go:44-58 | The select loop emits exactly `Emissions` of the events. Afterwards the peer counts as replied exactly when it had replied before or some event is a reply from it. |
| HostPing.Ping | hostping/hostping.go:22-58 | If resolution fails, nothing is processed or emitted. Otherwise the emissions are those of a table that starts with no reply. |
| HostPing.EmissionsCount | hostping/hostping.go:50-57 | One value per idle event. |
| HostPing.EmissionAt | hostping/hostping.go:44-58 | For the k-th idle event, the value is `true` exactly when the peer replied at any time before it. The table is never reset. |
| HostPing.EmissionsMonotone | hostping/hostping.go:50-58 | Once a value is `true`, every later value is `true`. |
| HostPing.NoReplyAllFalse | hostping/hostping.go:52-53 | Without any reply from the peer, every value is `false`. |
| HostPing.RecvSendsNothing | hostping/hostping.go:46-49 | A reply event emits nothing. |
| HostPing.RepeatedReplyIdempotent | hostping/hostping.go:47-48 | Two replies before an idle event emit the same values as one reply. |
| Failover.ReconcilePass | main.go:92-97 | The loop over the configured tables issues exactly `ReconcileCalls`. |
| Failover.ReconcileIteration | main.go:91-97 | One iteration reads the ownership map once and then runs the pass against that map. |
| Failover.ReconcileCallsExactlyWhen | main.go:92-96 | The pass issues `ReplaceRoute(t, self)` exactly for the configured tables whose owner is not self. It issues no other call: never an unconfigured table, never another instance. |
| Failover.ReconcileCallsAppend | main.go:92-97 | The calls follow the order of the configured list. |
| Failover.ReconcileCallCount | main.go:91-97 | A table that is not owned gets one call per time it is listed, because the map is not re-read. An owned table gets none. |
| Failover.AbsentTableReassigned | main.go:93 | A configured table missing from the map reads as `""`, so a non-empty self reassigns it. |
| Failover.FailedDescribeReassignsAll | main.go:91-96 | When DescribeRouteTables fails, or any route in its response panics as above, the pass reassigns every configured table, in order, and the takeover set is empty. |
| Failover.NilDestinationHidesOwners | awsapitools/awsapitools.go:43 | The dereference of a route's `DestinationCidrBlock` panics on a nil destination. With the peer's default route alone, the map names the peer. Add one route with a nil destination and the map is empty. The takeover (main.go:117-123) then issues nothing, and reconciliation reassigns the table. |
| Failover.ReconcileExample | main.go:92-97 | With `rt-1` owned by self and `rt-2` by the peer, the pass issues only `ReplaceRoute(rt-2, self)`. |
| Failover.TakeoverPass | main.go:119-123 | The range over the map issues each replacement at most once. The replacements are exactly one per table of the map, configured or not, whose owner is not self. |
| Failover.ReactiveStep | main.go:103-125 | A `true` ping issues nothing. Otherwise there are lookups then a decision: code 200 stops after the instance lookup and the probe, and state `pending` stops after the state lookup. Any other state reads the map and then issues exactly the takeover set. |
| Failover.AppliedSelfCalls | main.go:95 | Replacements that all point at self, applied in any order, leave self as the owner of exactly the tables of the map they name. The other entries keep their owners. |
| Failover.ApplyOrderIrrelevant | main.go:119-123 | Two sequences of replacements to self that name the same tables leave the same map. |
| Failover.ReconcileTargetsSelf | main.go:95 | Every call of the pass points a table at self. |
| Failover.ReconcileCallsNone | main.go:92-96 | A pass over tables that self already owns issues nothing. |
| Failover.ReconcileIdempotent | main.go:91-97 | Reconciling again after the pass's calls took effect only issues calls for tables missing from the map. When every configured table is in the map, it issues nothing. |
| Failover.TakeoverIdempotent | main.go:117-123 | After the takeover's calls took effect, a second takeover issues nothing. Reconciliation then only touches tables missing from the map. |
| Failover.LoopsConverge | main.go:88-123 | The two loops' calls may interleave in any order. The resulting map is always the one obtained by applying the pass first and the takeover second. |

## Left out

- The AWS SDK and its sessions: `AwsSessIon`, `MetadataInstanceID`, the network call of `ReplaceRoute`, and the other wrappers of `awsapitools.go`. Their results are parameters of the model. `ReplaceRoute`'s effect is the function `ReplacedTables` on the route tables, or `ReplacedOwner` on the ownership map.
- `InstanceIDbyPublicIP` and `InstanceStatebyInstancePubIP`: the reactive loop only logs the first, and the second's answer is an input of `ReactiveStep`. Their DescribeInstances lookups are not modelled.
- errhandling and httptools are not part of this model. `CatchPanic` is taken to recover every panic, and `RespCode`'s answer is an input.
- The fastping pinger, `net.ResolveIPAddr` and the round-trip times: raw network I/O that no decision uses. The replies and cycle ends are a sequence of events, and resolution is a `Result`.
- Goroutines, the `onRecv`, `onIdle` and `pingschannel` channels, and `select`. Each loop body is a single step over given inputs. `Failover.LoopsConverge` states what the race between the two loops can and cannot change.
- The infinite loops, `time.Sleep` and the check interval: timing only. The model is one iteration of each loop, and `HostPing.Pinger.Run` is a finite run of events.
- TOML parsing, command-line flags, logging and the `init` setup: I/O plumbing.
- `HostPing.Pinger.OnIdle`: Go visits the map in no fixed order. The model picks the keys in any order. The table has exactly one key, so exactly one value is emitted.
- `Failover.TakeoverPass`: the order in which calls are issued depends on Go's map iteration, so the contract states the set and the absence of duplicates, not an order.
- `AwsApiTools.ReplaceThenDescribe`: requires that every association of a table names the table itself. EC2 guarantees this, but the response type does not.
- `AwsApiTools.ModifySecurityGroup`: the AuthorizeSecurityGroupIngress call and its error are not modelled, since the function returns nothing either way; the model returns the request it would send.
- `AwsApiTools.InstancePublicIP` takes the DescribeInstances outcome as input; an error `Failure` gives `""`, as the recovered `panic(err)` does.
- `AwsApiTools.DescribeRouteTableIDNatInstanceID`: the response `resp`, each route-table element `r`, each route element `rt`, `Associations[0]` and its `RouteTableId` are all taken to be non-nil pointers. The model holds tables and routes as values, and `Association.routeTableId` is a plain string. In Go any one of these being nil would panic too and give the empty map (awsapitools/awsapitools.go:41-47).
- `AwsApiTools.InstancePublicIP`: `PublicDnsName` may be nil (it gives `""`). The response `resp` and the reservation, instance and network-interface pointers are taken to be non-nil (awsapitools/awsapitools.go:202-206).
- `Failover.ReconcileIdempotent`: reconciliation is not idempotent in the code. A configured table without a default route has no key in the map, so it reads as `""`. `ReplaceRoute` on it fails and creates no route, so every pass issues that call again (main.go:93-95).
- `HostPing.Ping`: the `panic(err)` after a failed resolution (hostping/hostping.go:22-25) has no deferred recover. It runs in the goroutine started at main.go:66, so it ends the whole process, both loops included. The model only says that nothing is emitted.
- hostping/hostping.go:50-57 writes nothing to `results`, so the reply table is never reset. Every value after the first reply is `true`.
- A failed wrapper call returns its zero value through the deferred recover, and the loop carries on with it. So a failed DescribeRouteTables makes reconciliation reassign every configured table, and a takeover then issues nothing.
