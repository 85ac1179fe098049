/**
 * The find-point form's submit handler, as a value: the validations in the
 * order the handler runs them, the traversal line (reversed when the chosen
 * start node is the connection's B device), the point `turf.along` gives on
 * it, and the Google Maps link for that point.
 *
 * `turf.along` and JavaScript's Number-to-string conversion are foreign code:
 * both are parameters (`along`, `numberText`).
 */
module FindPoint {
  import opened Wrappers
  import opened Types
  import opened JsText

  /** Why a submit produced no point. */
  datatype Failure =
    | InvalidDistance                         // alert "Invalid distance."
    | RouteNotFound                           // alert "Route not found for this connection."
    | DistanceExceedsRoute(routeDistance: real) // alert naming the route's distance
    | ConnectionNotFound                      // silent return
    | GeometryMissing                         // the route has no geometry: the handler throws
    | LineTooShort                            // turf.lineString throws on a reversed line of fewer than two positions
    | StartNodeMissing                        // the start-node select has no option: reading its text throws

  /** A located point: the line walked, the distance, the point's lat/lng and its link. */
  datatype Located = Located(line: seq<Position>, distance: real, lat: real, lng: real, link: string)

  /** `[...coords].reverse()` */
  function Reverse<T>(s: seq<T>): (r: seq<T>)
    ensures |r| == |s|
    ensures forall i :: 0 <= i < |s| ==> r[i] == s[|s| - 1 - i]
  {
    if s == [] then [] else Reverse(s[1..]) + [s[0]]
  }

  lemma ReverseIsInvolution<T>(s: seq<T>)
    ensures Reverse(Reverse(s)) == s
  {
    assert forall i :: 0 <= i < |s| ==> Reverse(Reverse(s))[i] == s[i];
  }

  /** The line walked from the chosen start node: reversed exactly when it is the B device. */
  function TraversalLine(coords: seq<Position>, startNodeId: Option<int>, conn: Connection): seq<Position> {
    if startNodeId == Some(conn.deviceBId) then Reverse(coords) else coords
  }

  const MapsLinkPrefix: string := "https://www.google.com/maps?q="

  /** `https://www.google.com/maps?q=${lat},${lng}` */
  function MapsLink(lat: real, lng: real, numberText: real -> string): string {
    MapsLinkPrefix + numberText(lat) + "," + numberText(lng)
  }

  /** Reads the two number texts back out of a maps link. */
  function ParseMapsLink(link: string): Option<(string, string)> {
    if !StartsWith(link, MapsLinkPrefix) then None
    else
      var parts := Split(link[|MapsLinkPrefix|..], ',');
      if |parts| == 2 then Some((parts[0], parts[1])) else None
  }

  /** The submit handler's decision, in the order the source checks. */
  function Locate(
    routes: seq<Route>, connections: seq<Connection>,
    connectionId: Option<int>, startNodeId: Option<int>, distance: Option<real>,
    along: (seq<Position>, real) -> Position, numberText: real -> string): (r: Result<Located, Failure>)
    ensures distance.None? ==> r == Failure(InvalidDistance)
    ensures distance.Some? && FindRoute(routes, connectionId).None? ==> r == Failure(RouteNotFound)
    ensures distance.Some? && FindRoute(routes, connectionId).Some? ==>
              var route := FindRoute(routes, connectionId).value;
              var conn := ConnectionById(connections, connectionId);
              && (distance.value > route.distance ==> r == Failure(DistanceExceedsRoute(route.distance)))
              && (distance.value <= route.distance && conn.None? ==> r == Failure(ConnectionNotFound))
              && (distance.value <= route.distance && conn.Some? && route.geometry.None? ==> r == Failure(GeometryMissing))
              && (distance.value <= route.distance && conn.Some? && route.geometry.Some? ==>
                    var coords := route.geometry.value;
                    var reversed := startNodeId == Some(conn.value.deviceBId);
                    && (reversed && |coords| < 2 ==> r == Failure(LineTooShort))
                    && (!(reversed && |coords| < 2) ==>
                          && r.Success?
                          && r.value.line == TraversalLine(coords, startNodeId, conn.value)
                          && r.value.distance == distance.value
                          && r.value.lat == along(r.value.line, distance.value)[1]
                          && r.value.lng == along(r.value.line, distance.value)[0]
                          && r.value.link == MapsLink(r.value.lat, r.value.lng, numberText)))
  {
    if distance.None? then Failure(InvalidDistance)
    else
      match FindRoute(routes, connectionId)
      case None => Failure(RouteNotFound)
      case Some(route) =>
        if distance.value > route.distance then Failure(DistanceExceedsRoute(route.distance))
        else
          match ConnectionById(connections, connectionId)
          case None => Failure(ConnectionNotFound)
          case Some(conn) =>
            match route.geometry
            case None => Failure(GeometryMissing)
            case Some(coords) =>
              if startNodeId == Some(conn.deviceBId) && |coords| < 2 then Failure(LineTooShort)
              else
                var line := TraversalLine(coords, startNodeId, conn);
                var point := along(line, distance.value);
                var lat := point[1];
                var lng := point[0];
                Success(Located(line, distance.value, lat, lng, MapsLink(lat, lng, numberText)))
  }

  // ---------------------------------------------------------------------------
  // Properties

  /** The traversal line has the stored line's length and is its mirror image exactly when starting from B. */
  lemma TraversalLineOrder(coords: seq<Position>, startNodeId: Option<int>, conn: Connection)
    ensures |TraversalLine(coords, startNodeId, conn)| == |coords|
    ensures forall i :: 0 <= i < |coords| ==>
              TraversalLine(coords, startNodeId, conn)[i]
                == if startNodeId == Some(conn.deviceBId) then coords[|coords| - 1 - i] else coords[i]
  {
  }

  /** A distance beyond the route's length always fails with that length, and never places a point. */
  lemma DistanceBeyondRouteFails(
    routes: seq<Route>, connections: seq<Connection>,
    connectionId: Option<int>, startNodeId: Option<int>, d: real,
    along: (seq<Position>, real) -> Position, numberText: real -> string)
    requires FindRoute(routes, connectionId).Some? && d > FindRoute(routes, connectionId).value.distance
    ensures Locate(routes, connections, connectionId, startNodeId, Some(d), along, numberText)
              == Failure(DistanceExceedsRoute(FindRoute(routes, connectionId).value.distance))
  {
  }

  /** A distance equal to the route's length is accepted, the check being a strict `>`, unless the line to reverse is too short. */
  lemma RouteLengthAccepted(
    routes: seq<Route>, connections: seq<Connection>,
    connectionId: Option<int>, startNodeId: Option<int>, d: real,
    along: (seq<Position>, real) -> Position, numberText: real -> string)
    requires FindRoute(routes, connectionId).Some? && FindRoute(routes, connectionId).value.geometry.Some?
    requires ConnectionById(connections, connectionId).Some?
    requires d == FindRoute(routes, connectionId).value.distance
    requires startNodeId == Some(ConnectionById(connections, connectionId).value.deviceBId) ==>
               |FindRoute(routes, connectionId).value.geometry.value| >= 2
    ensures Locate(routes, connections, connectionId, startNodeId, Some(d), along, numberText).Success?
  {
  }

  /**
   * Starting from B walks the stored line backwards: the point is the one
   * `along` finds on the reversed line, and reversing once more gives back the
   * stored line.
   */
  lemma StartFromBWalksReversed(
    routes: seq<Route>, connections: seq<Connection>,
    connectionId: Option<int>, d: real,
    along: (seq<Position>, real) -> Position, numberText: real -> string)
    requires ConnectionById(connections, connectionId).Some?
    requires Locate(routes, connections, connectionId,
                    Some(ConnectionById(connections, connectionId).value.deviceBId), Some(d), along, numberText).Success?
    ensures var r := Locate(routes, connections, connectionId,
                            Some(ConnectionById(connections, connectionId).value.deviceBId), Some(d), along, numberText);
            var coords := FindRoute(routes, connectionId).value.geometry.value;
            && r.value.line == Reverse(coords)
            && Reverse(r.value.line) == coords
            && r.value.lat == along(Reverse(coords), d)[1]
            && r.value.lng == along(Reverse(coords), d)[0]
  {
    ReverseIsInvolution(FindRoute(routes, connectionId).value.geometry.value);
  }

  /** The link carries the point's latitude first and its longitude second, and both read back. */
  lemma {:induction false} MapsLinkReadsBack(lat: real, lng: real, numberText: real -> string)
    requires ',' !in numberText(lat) && ',' !in numberText(lng)
    ensures ParseMapsLink(MapsLink(lat, lng, numberText)) == Some((numberText(lat), numberText(lng)))
  {
    var link := MapsLink(lat, lng, numberText);
    assert link[..|MapsLinkPrefix|] == MapsLinkPrefix;
    assert link[|MapsLinkPrefix|..] == numberText(lat) + [','] + numberText(lng);
    SplitAtFirst(numberText(lat), ',', numberText(lng));
    SplitWithoutSeparator(numberText(lng), ',');
  }
}
