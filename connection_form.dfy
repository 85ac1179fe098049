/**
 * The pure parts of the connection and find-point forms: parsing the ODP path
 * field, choosing between create and update, and the option lists of the port
 * and start-node selects.
 */
module ConnectionForm {
  import opened Wrappers
  import opened Types
  import opened JsText
  import FindPoint

  // ---------------------------------------------------------------------------
  // The ODP path field

  /** `.filter(n => !isNaN(n))`: the integers among the parsed values, in order. */
  function Somes(xs: seq<Option<int>>): seq<int> {
    if xs == [] then []
    else if xs[0].Some? then [xs[0].value] + Somes(xs[1..])
    else Somes(xs[1..])
  }

  /** `s => parseInt(s.trim())` */
  function ParsePiece(piece: string): Option<int> {
    ParseInt(Trim(piece))
  }

  /** `.map(parse)` */
  function ParseEach(pieces: seq<string>, parse: string -> Option<int>): (r: seq<Option<int>>)
    ensures |r| == |pieces|
  {
    seq(|pieces|, i requires 0 <= i < |pieces| => parse(pieces[i]))
  }

  /** `.map(s => parseInt(s.trim())).filter(n => !isNaN(n))` */
  function ParsePieces(pieces: seq<string>): seq<int> {
    Somes(ParseEach(pieces, ParsePiece))
  }

  /** `odpPath.split(",").map(s => parseInt(s.trim())).filter(n => !isNaN(n))` */
  function ParseOdpPath(text: string): seq<int> {
    ParsePieces(Split(text, ','))
  }

  /** The decimal form of each id. */
  function Decimals(ids: seq<int>): (r: seq<string>)
    ensures |r| == |ids|
    ensures forall i :: 0 <= i < |ids| ==> r[i] == IntToString(ids[i])
  {
    if ids == [] then [] else [IntToString(ids[0])] + Decimals(ids[1..])
  }

  /** What the edit button writes into the ODP path field: `conn.odpPath?.join(", ") || ""`. */
  function OdpPathText(odpPath: Option<seq<int>>): string {
    match odpPath
    case None => ""
    case Some(ids) => Join(Decimals(ids), ", ")
  }

  /** Dropping NaNs keeps the order of what remains: it distributes over concatenation. */
  lemma {:induction false} SomesAppend(a: seq<Option<int>>, b: seq<Option<int>>)
    ensures Somes(a + b) == Somes(a) + Somes(b)
  {
    if a != [] {
      assert (a + b)[0] == a[0] && (a + b)[1..] == a[1..] + b;
      SomesAppend(a[1..], b);
      if a[0].Some? {
        assert Somes(a + b) == [a[0].value] + (Somes(a[1..]) + Somes(b));
      }
    } else {
      assert a + b == b;
    }
  }

  lemma ParseEachAppend(a: seq<string>, b: seq<string>, parse: string -> Option<int>)
    ensures ParseEach(a + b, parse) == ParseEach(a, parse) + ParseEach(b, parse)
  {
    assert forall i :: 0 <= i < |a| ==> (a + b)[i] == a[i];
    assert forall i :: |a| <= i < |a| + |b| ==> (a + b)[i] == b[i - |a|];
  }

  /** Parsing keeps the order of the pieces: it distributes over concatenation. */
  lemma ParsePiecesAppend(a: seq<string>, b: seq<string>)
    ensures ParsePieces(a + b) == ParsePieces(a) + ParsePieces(b)
  {
    assert ParseEach(a + b, ParsePiece) == ParseEach(a, ParsePiece) + ParseEach(b, ParsePiece) by {
      ParseEachAppend(a, b, ParsePiece);
    }
    SomesAppend(ParseEach(a, ParsePiece), ParseEach(b, ParsePiece));
  }

  /** One piece contributes its integer, or nothing when parseInt gives NaN. */
  lemma ParsePiecesSingle(p: string)
    ensures ParsePieces([p]) == if ParsePiece(p).Some? then [ParsePiece(p).value] else []
  {
    var values := ParseEach([p], ParsePiece);
    assert values == [ParsePiece(p)];
    assert values[0] == ParsePiece(p) && values[1..] == [];
    assert Somes(values[1..]) == [];
    assert Somes(values) == (if values[0].Some? then [values[0].value] else []) + Somes(values[1..]);
  }

  /** A decimal preceded by whitespace parses back, as one piece. */
  lemma PieceOfDecimal(w: string, n: int)
    requires forall i :: 0 <= i < |w| ==> IsWhitespace(w[i])
    ensures ',' !in w + IntToString(n)
    ensures ParsePieces([w + IntToString(n)]) == [n]
  {
    var first := IntToString(n);
    assert ',' !in w;
    assert ',' !in first;
    assert Trim(w + first) == first by {
      TrimStartSkipsWhitespace(w, first);
      TrimIntToString(n);
    }
    ParseIntOfIntToString(n);
    ParsePiecesSingle(w + first);
  }

  lemma {:induction false} ParseJoinedDecimals(w: string, ids: seq<int>)
    requires |ids| >= 1
    requires forall i :: 0 <= i < |w| ==> IsWhitespace(w[i])
    ensures ParsePieces(Split(w + Join(Decimals(ids), ", "), ',')) == ids
    decreases |ids|
  {
    var first := IntToString(ids[0]);
    PieceOfDecimal(w, ids[0]);
    if |ids| == 1 {
      assert w + Join(Decimals(ids), ", ") == w + first;
      SplitWithoutSeparator(w + first, ',');
    } else {
      var rest := Join(Decimals(ids[1..]), ", ");
      assert Decimals(ids)[1..] == Decimals(ids[1..]);
      assert w + Join(Decimals(ids), ", ") == (w + first) + [','] + (" " + rest);
      SplitAtFirst(w + first, ',', " " + rest);
      ParseJoinedDecimals(" ", ids[1..]);
      ParsePiecesAppend([w + first], Split(" " + rest, ','));
    }
  }

  /** Submitting the ODP path the edit button filled in gives back the connection's path. */
  lemma OdpPathRoundTrip(odpPath: Option<seq<int>>)
    ensures ParseOdpPath(OdpPathText(odpPath)) == odpPath.GetOr([])
  {
    if odpPath.Some? && |odpPath.value| >= 1 {
      ParseJoinedDecimals("", odpPath.value);
      assert "" + OdpPathText(odpPath) == OdpPathText(odpPath);
    } else {
      assert OdpPathText(odpPath) == "";
      SplitWithoutSeparator("", ',');
      ParsePiecesSingle("");
    }
  }

  // ---------------------------------------------------------------------------
  // Create or update

  datatype SaveRequest = SaveRequest(verb: string, url: string)

  const ConnectionsPath: string := "/api/nodes/connections"

  /** The request the connection form sends: an update exactly when the hidden id field is non-empty. */
  function ConnectionSave(apiBaseUrl: string, connectionId: string): (r: SaveRequest)
    ensures r.verb == "PUT" <==> connectionId != ""
    ensures r.verb == "PUT" || r.verb == "POST"
    ensures StartsWith(r.url, apiBaseUrl + ConnectionsPath)
    ensures |r.url| == |apiBaseUrl + ConnectionsPath| + if connectionId != "" then 1 + |connectionId| else 0
    ensures connectionId != "" ==> r.url[|apiBaseUrl + ConnectionsPath|] == '/'
    ensures connectionId != "" ==> r.url[|apiBaseUrl + ConnectionsPath| + 1..] == connectionId
    ensures connectionId == "" ==> r.url == apiBaseUrl + ConnectionsPath
  {
    var isEdit := connectionId != "";
    var url := if isEdit then apiBaseUrl + ConnectionsPath + "/" + connectionId else apiBaseUrl + ConnectionsPath;
    assert url[..|apiBaseUrl + ConnectionsPath|] == apiBaseUrl + ConnectionsPath;
    SaveRequest(if isEdit then "PUT" else "POST", url)
  }

  /** After the edit button, saving updates that connection: PUT to a URL ending in its id. */
  lemma EditSavesConnection(apiBaseUrl: string, conn: Connection)
    ensures var r := ConnectionSave(apiBaseUrl, IntToString(conn.id));
            r.verb == "PUT" && ParseInt(r.url[|apiBaseUrl + ConnectionsPath| + 1..]) == Some(conn.id)
  {
    ParseIntOfIntToString(conn.id);
  }

  /** The JSON body the connection form sends; a NaN from parseInt is None. */
  datatype Payload = Payload(
    deviceAId: Option<int>, portAId: Option<int>,
    deviceBId: Option<int>, portBId: Option<int>,
    description: string, odpPath: seq<int>)

  /** The body built from the form's field values. */
  function ConnectionPayload(
    deviceA: string, portA: string, deviceB: string, portB: string,
    description: string, odpPath: string): Payload
  {
    Payload(ParseInt(deviceA), ParseInt(portA), ParseInt(deviceB), ParseInt(portB), description, ParseOdpPath(odpPath))
  }

  /**
   * When the selects hold the values the edit button gave them, saving sends
   * the connection's own fields back; a missing ODP path comes back empty.
   */
  lemma EditResubmitsConnection(conn: Connection)
    ensures ConnectionPayload(
              IntToString(conn.deviceAId), IntToString(conn.portAId),
              IntToString(conn.deviceBId), IntToString(conn.portBId),
              conn.description, OdpPathText(conn.odpPath))
            == Payload(
              Some(conn.deviceAId), Some(conn.portAId), Some(conn.deviceBId), Some(conn.portBId),
              conn.description, conn.odpPath.GetOr([]))
  {
    ParseIntOfIntToString(conn.deviceAId);
    ParseIntOfIntToString(conn.portAId);
    ParseIntOfIntToString(conn.deviceBId);
    ParseIntOfIntToString(conn.portBId);
    OdpPathRoundTrip(conn.odpPath);
  }

  // ---------------------------------------------------------------------------
  // Select options

  /** An `<option>`: its value, its text and whether it is selected. */
  datatype Choice = Choice(value: string, text: string, selected: bool)

  /** The option populatePorts appends for one interface. */
  function PortChoice(iface: Interface, selectedPortId: Option<int>): Choice {
    Choice(IntToString(iface.id), iface.ifName + " (" + iface.ifDescr + ")", Some(iface.id) == selectedPortId)
  }

  /** The options populatePorts appends, one per interface, in order. */
  function PortChoices(ifaces: seq<Interface>, selectedPortId: Option<int>): seq<Choice> {
    if ifaces == [] then []
    else PortChoices(ifaces[..|ifaces| - 1], selectedPortId) + [PortChoice(ifaces[|ifaces| - 1], selectedPortId)]
  }

  lemma {:induction false} PortChoicesAt(ifaces: seq<Interface>, selectedPortId: Option<int>)
    ensures |PortChoices(ifaces, selectedPortId)| == |ifaces|
    ensures forall i :: 0 <= i < |ifaces| ==> PortChoices(ifaces, selectedPortId)[i] == PortChoice(ifaces[i], selectedPortId)
  {
    if ifaces != [] {
      var init := ifaces[..|ifaces| - 1];
      PortChoicesAt(init, selectedPortId);
      var last := PortChoice(ifaces[|ifaces| - 1], selectedPortId);
      var front := PortChoices(init, selectedPortId);
      var whole := PortChoices(ifaces, selectedPortId);
      assert whole == front + [last];
      forall i | 0 <= i < |ifaces|
        ensures whole[i] == PortChoice(ifaces[i], selectedPortId)
      {
        if i < |init| {
          assert whole[i] == front[i] && init[i] == ifaces[i];
        } else {
          assert whole[i] == last;
        }
      }
    }
  }

  /** One more interface adds its option at the end. */
  lemma PortChoicesSnoc(ifaces: seq<Interface>, k: nat, selectedPortId: Option<int>)
    requires k < |ifaces|
    ensures PortChoices(ifaces[..k + 1], selectedPortId)
              == PortChoices(ifaces[..k], selectedPortId) + [PortChoice(ifaces[k], selectedPortId)]
  {
    assert ifaces[..k + 1][..k] == ifaces[..k];
  }

  /** One option per interface: its value reads back as the interface id, and it is selected exactly for the given port. */
  lemma PortChoicesSpec(ifaces: seq<Interface>, selectedPortId: Option<int>)
    ensures |PortChoices(ifaces, selectedPortId)| == |ifaces|
    ensures forall i :: 0 <= i < |ifaces| ==>
              var c := PortChoices(ifaces, selectedPortId)[i];
              && ParseInt(c.value) == Some(ifaces[i].id)
              && c.text == ifaces[i].ifName + " (" + ifaces[i].ifDescr + ")"
              && (c.selected <==> selectedPortId == Some(ifaces[i].id))
  {
    PortChoicesAt(ifaces, selectedPortId);
    forall i | 0 <= i < |ifaces|
      ensures ParseInt(IntToString(ifaces[i].id)) == Some(ifaces[i].id)
    {
      ParseIntOfIntToString(ifaces[i].id);
    }
  }

  /** The options of the find-point start-node select: node A's, then node B's, each when the node exists. */
  function StartNodeChoices(nodes: seq<Node>, conn: Connection): seq<Choice> {
    var nodeA := NodeById(nodes, Some(conn.deviceAId));
    var nodeB := NodeById(nodes, Some(conn.deviceBId));
    (if nodeA.Some? then [Choice(IntToString(nodeA.value.id), nodeA.value.name, false)] else [])
    + (if nodeB.Some? then [Choice(IntToString(nodeB.value.id), nodeB.value.name, false)] else [])
  }

  /**
   * Whichever start node is chosen, the submit handler reverses the route
   * exactly when the choice is B's option, or when A and B are the same device.
   */
  lemma StartChoiceDirection(nodes: seq<Node>, conn: Connection, i: nat, coords: seq<Position>)
    requires i < |StartNodeChoices(nodes, conn)|
    ensures var choices := StartNodeChoices(nodes, conn);
            var start := ParseInt(choices[i].value);
            var isB := NodeById(nodes, Some(conn.deviceBId)).Some? && i == |choices| - 1;
            && (start == Some(conn.deviceAId) || start == Some(conn.deviceBId))
            && (FindPoint.TraversalLine(coords, start, conn) == FindPoint.Reverse(coords)
                  <== (isB || conn.deviceAId == conn.deviceBId))
            && (FindPoint.TraversalLine(coords, start, conn) == coords
                  <== !(isB || conn.deviceAId == conn.deviceBId))
  {
    var nodeA := NodeById(nodes, Some(conn.deviceAId));
    var nodeB := NodeById(nodes, Some(conn.deviceBId));
    var choices := StartNodeChoices(nodes, conn);
    if nodeB.Some? && i == |choices| - 1 {
      assert NodeKey(nodeB.value) == conn.deviceBId;
      assert choices[i].value == IntToString(conn.deviceBId);
      ParseIntOfIntToString(conn.deviceBId);
    } else {
      assert nodeA.Some? && i == 0;
      assert NodeKey(nodeA.value) == conn.deviceAId;
      assert choices[i].value == IntToString(conn.deviceAId);
      ParseIntOfIntToString(conn.deviceAId);
    }
  }
}
