/**
 * The route map page's state after `init`: one layer per route that has a
 * geometry, each drawn in its connection's colour and caching that style as
 * its original style; the index from connection id to layer; the one selected
 * route layer; the one find-point marker; and the find-point dialog.
 *
 * A layer is identified by the position of its route in the page's `routes`.
 * Leaflet, turf and the DOM are not modelled: a layer is its current style, a
 * marker is its position and link, a `<select>` is its options.
 */
module MapLogic {
  import opened Wrappers
  import opened Types
  import opened JsText
  import opened Selection
  import ColorHash
  import FindPoint
  import ConnectionForm

  // ---------------------------------------------------------------------------
  // What the build loop draws

  /** The style a route's layer is drawn with: its connection id's colour, weight 3, opacity 0.8. */
  function RouteStyle(route: Route): Style {
    BaseStyle(ColorHash.ColorFor(IntToString(route.connectionId)))
  }

  /** The popup title of a route's layer: `conn?.description || "Connection"`, `conn` the first connection with the route's id. */
  function PopupTitle(connections: seq<Connection>, connectionId: int): string {
    match FindConnection(connections, connectionId)
    case Some(conn) => if conn.description != "" then conn.description else "Connection"
    case None => "Connection"
  }

  /** The popup title of each route's layer. */
  function TitleOf(connections: seq<Connection>): Route -> string {
    (route: Route) => PopupTitle(connections, route.connectionId)
  }

  /**
   * What the build loop records for the first n routes: `value(route)` under
   * the layer of each route that has a geometry.
   */
  function Drawn<V>(routes: seq<Route>, n: nat, value: Route -> V): map<LayerId, V>
    requires n <= |routes|
  {
    if n == 0 then map[]
    else
      var recorded := Drawn(routes, n - 1, value);
      if routes[n - 1].geometry.Some? then recorded[n - 1 := value(routes[n - 1])] else recorded
  }

  /** `routeLayers` after the first n routes: each drawn route's layer stored under its connection id. */
  function LayerIndex(routes: seq<Route>, n: nat): map<int, LayerId>
    requires n <= |routes|
  {
    if n == 0 then map[]
    else
      var index := LayerIndex(routes, n - 1);
      if routes[n - 1].geometry.Some? then index[routes[n - 1].connectionId := n - 1] else index
  }

  /** The node a device select's value names: none for an empty value, else `nodeMap.get(parseInt(value))`. */
  function DeviceNode(nodes: seq<Node>, deviceValue: string): Option<Node> {
    if deviceValue == "" then None else NodeById(nodes, ParseInt(deviceValue))
  }

  /** The empty-value guard changes nothing: parseInt("") is NaN, which names no node. */
  lemma DeviceNodeIsLookup(nodes: seq<Node>, deviceValue: string)
    ensures DeviceNode(nodes, deviceValue) == NodeById(nodes, ParseInt(deviceValue))
    ensures DeviceNode(nodes, deviceValue).Some? ==>
              ParseInt(deviceValue) == Some(DeviceNode(nodes, deviceValue).value.id)
  {
    ParseIntOfEmpty();
  }

  /** The markers of `ms` other than `m`: `map.removeLayer(m)`. */
  function Without(ms: seq<Marker>, m: Marker): (r: seq<Marker>)
    ensures forall x :: x in r <==> x in ms && x != m
  {
    if ms == [] then []
    else if ms[0] == m then Without(ms[1..], m)
    else [ms[0]] + Without(ms[1..], m)
  }

  /** Removing the only marker leaves none. */
  lemma WithoutOnly(m: Marker)
    ensures Without([m], m) == []
  {
    assert [m][1..] == [];
  }

  /** A `<select>`'s value: the chosen option's value, or "" when it has no option. */
  function SelectedValue(options: seq<ConnectionForm.Choice>, choice: nat): string
    requires options != [] ==> choice < |options|
  {
    if options == [] then "" else options[choice].value
  }

  // ---------------------------------------------------------------------------
  // Properties of the build loop

  /** Only routes with a geometry get a layer, and each layer records its own route's value. */
  lemma {:induction false} DrawnSpec<V>(routes: seq<Route>, n: nat, value: Route -> V)
    requires n <= |routes|
    ensures forall l: LayerId :: l in Drawn(routes, n, value) <==> l < n && routes[l].geometry.Some?
    ensures forall l :: l in Drawn(routes, n, value) ==> Drawn(routes, n, value)[l] == value(routes[l])
  {
    if n > 0 {
      DrawnSpec(routes, n - 1, value);
    }
  }

  /** A route's style is a base style: weight 3, opacity 0.8 and a "#rrggbb" colour. */
  lemma RouteStyleIsBase(route: Route)
    ensures IsBaseStyle(RouteStyle(route))
  {
    ColorHash.ColorShape(ColorHash.Hash(IntToString(route.connectionId)));
  }

  /** Right after the build loop, nothing is selected and the layer state is consistent. */
  lemma InitialLayersConsistent(routes: seq<Route>)
    ensures Consistent(Layers(Drawn(routes, |routes|, RouteStyle), Drawn(routes, |routes|, RouteStyle), None))
  {
    DrawnSpec(routes, |routes|, RouteStyle);
    forall l | l in Drawn(routes, |routes|, RouteStyle)
      ensures IsBaseStyle(Drawn(routes, |routes|, RouteStyle)[l])
    {
      RouteStyleIsBase(routes[l]);
    }
  }

  /** `routeLayers[cid]` exists exactly for the connections some drawn route belongs to, and holds the last such layer. */
  lemma {:induction false} LayerIndexIsLastLayer(routes: seq<Route>, n: nat, cid: int)
    requires n <= |routes|
    ensures cid in LayerIndex(routes, n) <==>
              exists j :: 0 <= j < n && routes[j].geometry.Some? && routes[j].connectionId == cid
    ensures cid in LayerIndex(routes, n) ==>
              var j := LayerIndex(routes, n)[cid];
              && j < n && routes[j].geometry.Some? && routes[j].connectionId == cid
              && forall k :: j < k < n && routes[k].geometry.Some? ==> routes[k].connectionId != cid
  {
    if n > 0 {
      LayerIndexIsLastLayer(routes, n - 1, cid);
    }
  }

  /** Every layer in the index is a drawn layer. */
  lemma LayerIndexInDrawn(routes: seq<Route>)
    ensures forall cid :: cid in LayerIndex(routes, |routes|) ==>
              LayerIndex(routes, |routes|)[cid] in Drawn(routes, |routes|, RouteStyle)
  {
    DrawnSpec(routes, |routes|, RouteStyle);
    forall cid | cid in LayerIndex(routes, |routes|)
      ensures LayerIndex(routes, |routes|)[cid] in Drawn(routes, |routes|, RouteStyle)
    {
      LayerIndexIsLastLayer(routes, |routes|, cid);
    }
  }

  /**
   * The popup title is the description of the first connection with the
   * route's id when that description is non-empty, and "Connection" otherwise;
   * it is never empty.
   */
  lemma PopupTitleSpec(connections: seq<Connection>, connectionId: int)
    ensures PopupTitle(connections, connectionId) != ""
    ensures forall i :: 0 <= i < |connections| && connections[i].id == connectionId
                        && (forall j :: 0 <= j < i ==> connections[j].id != connectionId) ==>
              PopupTitle(connections, connectionId)
                == if connections[i].description != "" then connections[i].description else "Connection"
    ensures (forall i :: 0 <= i < |connections| ==> connections[i].id != connectionId) ==>
              PopupTitle(connections, connectionId) == "Connection"
    ensures PopupTitle(connections, connectionId) != "Connection" ==>
              exists i :: 0 <= i < |connections| && connections[i].id == connectionId
                          && connections[i].description == PopupTitle(connections, connectionId)
                          && forall j :: 0 <= j < i ==> connections[j].id != connectionId
  {
    var found := FirstIndex(connections, ConnectionKey, connectionId);
    if found.Some? {
      var k := found.value;
      forall i | 0 <= i < |connections| && connections[i].id == connectionId
                 && (forall j :: 0 <= j < i ==> connections[j].id != connectionId)
        ensures i == k
      {
      }
    }
  }

  // ---------------------------------------------------------------------------
  // The page

  /** A find-point marker: where it stands and the Google Maps link its popup copies. */
  datatype Marker = Marker(lat: real, lng: real, link: string)

  /** A port `<select>`: its options and whether it is disabled. */
  class PortSelect {
    var options: seq<ConnectionForm.Choice>
    var disabled: bool
  }

  class MapSession {
    const nodes: seq<Node>
    const connections: seq<Connection>
    const routes: seq<Route>
    /** Each layer's cached `originalStyle`. */
    const original: map<LayerId, Style>
    const popupTitles: map<LayerId, string>
    /** `routeLayers`: connection id to the layer drawn for it. */
    const routeLayers: map<int, LayerId>

    /** Each layer's current style. */
    var styles: map<LayerId, Style>
    var selectedRouteLayer: Option<LayerId>
    var findPointMarker: Option<Marker>
    /** The find-point markers currently added to the map. */
    var markersOnMap: seq<Marker>
    /** The find-point dialog: its hidden connection id field and its start-node options. */
    var findPointConnectionId: string
    var startNodeOptions: seq<ConnectionForm.Choice>

    ghost function View(): Layers
      reads this
    {
      Layers(styles, original, selectedRouteLayer)
    }

    /**
     * What the handlers maintain: the layer state is consistent, `routeLayers`
     * names drawn layers, and the map shows at most one find-point marker, the
     * one `findPointMarker` names (a submit that throws can leave it removed).
     * The constant fields are what the constructor built from the routes,
     * which its postcondition states.
     */
    ghost predicate Valid()
      reads this
    {
      && Consistent(View())
      && (forall cid :: cid in routeLayers ==> routeLayers[cid] in styles)
      && (markersOnMap == [] || (findPointMarker.Some? && markersOnMap == [findPointMarker.value]))
    }

    /** `init`: the route build loop over the page's routes. */
    constructor (nodes: seq<Node>, connections: seq<Connection>, routes: seq<Route>)
      ensures this.nodes == nodes && this.connections == connections && this.routes == routes
      ensures styles == Drawn(routes, |routes|, RouteStyle) && original == styles
      ensures popupTitles == Drawn(routes, |routes|, TitleOf(connections))
      ensures routeLayers == LayerIndex(routes, |routes|)
      ensures selectedRouteLayer == None && findPointMarker == None && markersOnMap == []
      ensures findPointConnectionId == "" && startNodeOptions == []
      ensures Valid()
    {
      var drawn: map<LayerId, Style> := map[];
      var titles: map<LayerId, string> := map[];
      var index: map<int, LayerId> := map[];
      var i := 0;
      while i < |routes|
        invariant 0 <= i <= |routes|
        invariant drawn == Drawn(routes, i, RouteStyle)
        invariant titles == Drawn(routes, i, TitleOf(connections))
        invariant index == LayerIndex(routes, i)
      {
        var route := routes[i];
        if route.geometry.Some? {
          var color := ColorHash.StringToColor(IntToString(route.connectionId));
          drawn := drawn[i := BaseStyle(color)];
          titles := titles[i := PopupTitle(connections, route.connectionId)];
          index := index[route.connectionId := i];
        }
        i := i + 1;
      }
      this.nodes := nodes;
      this.connections := connections;
      this.routes := routes;
      original := drawn;
      popupTitles := titles;
      routeLayers := index;
      styles := drawn;
      selectedRouteLayer := None;
      findPointMarker := None;
      markersOnMap := [];
      findPointConnectionId := "";
      startNodeOptions := [];
      InitialLayersConsistent(routes);
      LayerIndexInDrawn(routes);
    }

    /** The map's click handler: restore the selected layer's original style and clear the selection. */
    method MapClick()
      requires Valid()
      modifies this`styles, this`selectedRouteLayer
      ensures Valid()
      ensures View() == Clear(old(View()))
    {
      if selectedRouteLayer.Some? {
        var previous := selectedRouteLayer.value;
        styles := styles[previous := original[previous]];
        selectedRouteLayer := None;
      }
      ClearKeepsConsistent(old(View()));
    }

    /**
     * A route layer's click handler: restore the previous selection, highlight
     * this layer and select it. Propagation to the map is stopped exactly when
     * the click came from a DOM event.
     */
    method LayerClick(layer: LayerId, hasOriginalEvent: bool) returns (stopPropagation: bool)
      requires Valid() && layer in styles
      modifies this`styles, this`selectedRouteLayer
      ensures Valid()
      ensures View() == Select(old(View()), layer)
      ensures stopPropagation == hasOriginalEvent
    {
      if selectedRouteLayer.Some? {
        var previous := selectedRouteLayer.value;
        styles := styles[previous := original[previous]];
      }
      styles := styles[layer := Highlight];
      selectedRouteLayer := Some(layer);
      stopPropagation := hasOriginalEvent;
      SelectKeepsConsistent(old(View()), layer);
    }

    /** A table row's view button: fire a click on the layer drawn for the row's connection, if any. */
    method ViewRoute(connectionIdAttr: string)
      requires Valid()
      modifies this`styles, this`selectedRouteLayer
      ensures Valid()
      ensures var cid := ParseInt(connectionIdAttr);
              if cid.Some? && cid.value in routeLayers
              then View() == Select(old(View()), routeLayers[cid.value])
              else View() == old(View())
    {
      if connectionIdAttr == "" {
        return;
      }
      var cid := ParseInt(connectionIdAttr);
      if cid.Some? && cid.value in routeLayers {
        LayerIndexInDrawn(routes);
        var stopped := LayerClick(routeLayers[cid.value], false);
      }
    }

    /** A table row's find-point button: fill in the dialog for the row's connection, if it exists. */
    method OpenFindPoint(connectionIdAttr: string)
      modifies this`findPointConnectionId, this`startNodeOptions
      ensures var conn := ConnectionById(connections, ParseInt(connectionIdAttr));
              if conn.None?
              then findPointConnectionId == old(findPointConnectionId) && startNodeOptions == old(startNodeOptions)
              else && findPointConnectionId == IntToString(conn.value.id)
                   && ParseInt(findPointConnectionId) == Some(conn.value.id)
                   && startNodeOptions == ConnectionForm.StartNodeChoices(nodes, conn.value)
    {
      var connectionId := ParseInt(connectionIdAttr);
      var conn := ConnectionById(connections, connectionId);
      if conn.None? {
        return;
      }
      findPointConnectionId := IntToString(connectionId.value);
      startNodeOptions := ConnectionForm.StartNodeChoices(nodes, conn.value);
      ParseIntOfIntToString(connectionId.value);
    }

    /**
     * The find-point form's submit handler. `choice` is the option the user
     * left selected in the start-node select (`selectedIndex`); with no option
     * the select's value is "". On success the previous marker is removed from
     * the map and the new one added. When the start-node select has no option,
     * the handler removes the previous marker and then throws while reading
     * the selected option's text, so no marker is added and `findPointMarker`
     * still names the removed one. On any other failure nothing changes.
     */
    method SubmitFindPoint(
      choice: nat, distance: Option<real>,
      along: (seq<Position>, real) -> Position, numberText: real -> string)
      returns (outcome: Result<FindPoint.Located, FindPoint.Failure>)
      requires Valid()
      requires startNodeOptions != [] ==> choice < |startNodeOptions|
      modifies this`findPointMarker, this`markersOnMap
      ensures Valid()
      ensures var located := FindPoint.Locate(routes, connections, ParseInt(findPointConnectionId),
                                              ParseInt(SelectedValue(startNodeOptions, choice)), distance, along, numberText);
              && outcome == (if located.Success? && startNodeOptions == [] then Failure(FindPoint.StartNodeMissing) else located)
              && (located.Failure? ==> findPointMarker == old(findPointMarker) && markersOnMap == old(markersOnMap))
              && (located.Success? && startNodeOptions == [] ==>
                    findPointMarker == old(findPointMarker) && markersOnMap == [])
      ensures outcome.Success? ==>
                && findPointMarker == Some(Marker(outcome.value.lat, outcome.value.lng, outcome.value.link))
                && markersOnMap == [findPointMarker.value]
    {
      var connectionId := ParseInt(findPointConnectionId);
      var startNodeId := ParseInt(SelectedValue(startNodeOptions, choice));
      outcome := FindPoint.Locate(routes, connections, connectionId, startNodeId, distance, along, numberText);
      if outcome.Failure? {
        return;
      }
      var shown := ShowLocated(outcome.value);
      if !shown {
        outcome := Failure(FindPoint.StartNodeMissing);
      }
    }

    /**
     * What the handler does once `turf.along` has placed the point: remove the
     * previous marker, read the start node's text, which throws when the select
     * has no option, and add the new marker. Whether it got that far is the
     * result.
     */
    method ShowLocated(located: FindPoint.Located) returns (shown: bool)
      requires Valid()
      modifies this`findPointMarker, this`markersOnMap
      ensures Valid()
      ensures shown <==> startNodeOptions != []
      ensures !shown ==> findPointMarker == old(findPointMarker) && markersOnMap == []
      ensures shown ==>
                && findPointMarker == Some(Marker(located.lat, located.lng, located.link))
                && markersOnMap == [findPointMarker.value]
    {
      RemoveFindPointMarker();
      if startNodeOptions == [] {
        return false;
      }
      var marker := Marker(located.lat, located.lng, located.link);
      findPointMarker := Some(marker);
      markersOnMap := markersOnMap + [marker];
      return true;
    }

    /** `if (findPointMarker) map.removeLayer(findPointMarker)`: the map is left with no find-point marker. */
    method RemoveFindPointMarker()
      requires Valid()
      modifies this`markersOnMap
      ensures Valid() && markersOnMap == []
    {
      if findPointMarker.Some? {
        if markersOnMap != [] {
          WithoutOnly(findPointMarker.value);
        }
        markersOnMap := Without(markersOnMap, findPointMarker.value);
      }
    }

    /**
     * `populatePorts`: empty and disable the port select, then, when the chosen
     * device is a known node, enable it and add one option per interface.
     */
    method PopulatePorts(deviceValue: string, portSelect: PortSelect, selectedPortId: Option<int>)
      modifies portSelect`options, portSelect`disabled
      ensures var node := DeviceNode(nodes, deviceValue);
              && portSelect.disabled == node.None?
              && portSelect.options == (if node.None? then [] else ConnectionForm.PortChoices(node.value.interfaces, selectedPortId))
    {
      portSelect.options := [];
      portSelect.disabled := true;
      if deviceValue == "" {
        return;
      }
      var node := NodeById(nodes, ParseInt(deviceValue));
      assert node == DeviceNode(nodes, deviceValue);
      if node.Some? {
        portSelect.disabled := false;
        AppendPortOptions(portSelect, node.value.interfaces, selectedPortId);
        assert portSelect.options == ConnectionForm.PortChoices(node.value.interfaces, selectedPortId);
      }
    }

    /** `node.interfaces.forEach(...)`: append one option per interface. */
    static method AppendPortOptions(portSelect: PortSelect, interfaces: seq<Interface>, selectedPortId: Option<int>)
      modifies portSelect`options
      ensures portSelect.options == old(portSelect.options) + ConnectionForm.PortChoices(interfaces, selectedPortId)
    {
      var k := 0;
      while k < |interfaces|
        invariant 0 <= k <= |interfaces|
        invariant portSelect.options == old(portSelect.options) + ConnectionForm.PortChoices(interfaces[..k], selectedPortId)
      {
        ConnectionForm.PortChoicesSnoc(interfaces, k, selectedPortId);
        portSelect.options := portSelect.options + [ConnectionForm.PortChoice(interfaces[k], selectedPortId)];
        k := k + 1;
      }
      assert interfaces[..|interfaces|] == interfaces;
    }
  }
}
