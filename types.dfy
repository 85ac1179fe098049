/**
 * The page data the route map is initialised with, and the two ways the map
 * code looks an entity up by id: `Array.prototype.find` (first match) and a
 * `Map` built from `[id, entity]` pairs (a later pair overwrites an earlier
 * one, so the last match wins).
 */
module Types {
  import opened Wrappers

  /** A GeoJSON position: `[lng, lat]`, possibly followed by an altitude. */
  type Position = p: seq<real> | |p| >= 2 witness [0.0, 0.0]

  /** A route as supplied with the page: a LineString's positions (None when the geometry is falsy), its length in metres, and the connection it draws. */
  datatype Route = Route(geometry: Option<seq<Position>>, distance: real, connectionId: int)

  /** The fields of a network interface that the map code reads. */
  datatype Interface = Interface(id: int, ifName: string, ifDescr: string)

  /** The fields of a node that the map code reads. */
  datatype Node = Node(id: int, name: string, interfaces: seq<Interface>)

  datatype Connection = Connection(
    id: int,
    description: string,
    deviceAId: int,
    portAId: int,
    deviceBId: int,
    portBId: int,
    odpPath: Option<seq<int>>)

  /** Array.prototype.findIndex(x => key(x) === k), with -1 as None. */
  function FirstIndex<T>(xs: seq<T>, key: T -> int, k: int): (r: Option<nat>)
    ensures r.None? <==> forall i :: 0 <= i < |xs| ==> key(xs[i]) != k
    ensures r.Some? ==> r.value < |xs| && key(xs[r.value]) == k
                        && forall j :: 0 <= j < r.value ==> key(xs[j]) != k
  {
    if xs == [] then None
    else if key(xs[0]) == k then Some(0)
    else
      match FirstIndex(xs[1..], key, k)
      case Some(i) => Some(i + 1)
      case None => None
  }

  /** The index of the last element whose key is k. */
  function LastIndex<T>(xs: seq<T>, key: T -> int, k: int): (r: Option<nat>)
    ensures r.None? <==> forall i :: 0 <= i < |xs| ==> key(xs[i]) != k
    ensures r.Some? ==> r.value < |xs| && key(xs[r.value]) == k
                        && forall j :: r.value < j < |xs| ==> key(xs[j]) != k
  {
    if xs == [] then None
    else if key(xs[|xs| - 1]) == k then Some(|xs| - 1)
    else
      var prefix := xs[..|xs| - 1];
      assert forall i :: 0 <= i < |prefix| ==> prefix[i] == xs[i];
      LastIndex(prefix, key, k)
  }

  /** Array.prototype.find(x => key(x) === k): the first element whose key is k. */
  function FirstMatch<T>(xs: seq<T>, key: T -> int, k: int): Option<T> {
    match FirstIndex(xs, key, k)
    case Some(i) => Some(xs[i])
    case None => None
  }

  /** new Map(xs.map(x => [key(x), x])).get(k): the last element whose key is k. */
  function LastMatch<T>(xs: seq<T>, key: T -> int, k: int): Option<T> {
    match LastIndex(xs, key, k)
    case Some(i) => Some(xs[i])
    case None => None
  }

  function RouteKey(r: Route): int { r.connectionId }
  function ConnectionKey(c: Connection): int { c.id }
  function NodeKey(n: Node): int { n.id }

  /** `routes.find(r => r.connectionId === connectionId)`; a NaN id matches nothing. */
  function FindRoute(routes: seq<Route>, connectionId: Option<int>): Option<Route> {
    if connectionId.None? then None else FirstMatch(routes, RouteKey, connectionId.value)
  }

  /** `connections.find(c => c.id === id)` */
  function FindConnection(connections: seq<Connection>, id: int): Option<Connection> {
    FirstMatch(connections, ConnectionKey, id)
  }

  /** `connectionMap.get(id)`; a NaN id matches nothing. */
  function ConnectionById(connections: seq<Connection>, id: Option<int>): Option<Connection> {
    if id.None? then None else LastMatch(connections, ConnectionKey, id.value)
  }

  /** `nodeMap.get(id)`; a NaN id matches nothing. */
  function NodeById(nodes: seq<Node>, id: Option<int>): Option<Node> {
    if id.None? then None else LastMatch(nodes, NodeKey, id.value)
  }
}
