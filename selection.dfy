/**
 * Route-layer styles and the single selected route layer, as values.
 * Every layer remembers the style it was drawn with (`originalStyle`); a click
 * on a layer highlights it, a click on the map background un-highlights the
 * selection. The class in map_session.dfy applies these transitions in place.
 */
module Selection {
  import opened Wrappers
  import ColorHash

  type LayerId = nat

  /** Leaflet path options: stroke colour, weight and opacity. */
  datatype Style = Style(color: string, weight: int, opacity: real)

  /** The style a clicked route layer is given. */
  const Highlight: Style := Style("#FFFF00", 5, 1.0)

  /** The style a route layer is drawn with, and the `originalStyle` it caches. */
  function BaseStyle(color: string): Style {
    Style(color, 3, 0.8)
  }

  predicate IsBaseStyle(s: Style) {
    ColorHash.IsColorString(s.color) && s.weight == 3 && s.opacity == 0.8
  }

  /** The current style and the cached original style of each layer, and the selected layer. */
  datatype Layers = Layers(styles: map<LayerId, Style>, original: map<LayerId, Style>, selected: Option<LayerId>)

  predicate WellFormed(s: Layers) {
    s.styles.Keys == s.original.Keys && (s.selected.Some? ==> s.selected.value in s.styles)
  }

  /**
   * What the click handlers keep true: original styles are base styles, the
   * selected layer (if any) is highlighted, and every other layer shows its
   * own original style.
   */
  predicate Consistent(s: Layers) {
    && WellFormed(s)
    && (forall l :: l in s.original ==> IsBaseStyle(s.original[l]))
    && (s.selected.Some? ==> s.styles[s.selected.value] == Highlight)
    && (forall l :: l in s.styles && s.selected != Some(l) ==> s.styles[l] == s.original[l])
  }

  /** The layers currently drawn in the highlight style. */
  function Highlighted(s: Layers): set<LayerId> {
    set l | l in s.styles && s.styles[l] == Highlight
  }

  /** `setStyle(selectedRouteLayer.originalStyle)` on the selected layer, if there is one. */
  function RestoreSelected(s: Layers): (styles: map<LayerId, Style>)
    requires WellFormed(s)
    ensures styles.Keys == s.styles.Keys
    ensures forall l :: l in styles ==> styles[l] == (if s.selected == Some(l) then s.original[l] else s.styles[l])
  {
    if s.selected.Some? then s.styles[s.selected.value := s.original[s.selected.value]] else s.styles
  }

  /** The layer click handler: restore the previous selection, highlight `l`, select it. */
  function Select(s: Layers, l: LayerId): (r: Layers)
    requires WellFormed(s) && l in s.styles
    ensures WellFormed(r) && r.original == s.original && r.styles.Keys == s.styles.Keys
    ensures r.selected == Some(l) && r.styles[l] == Highlight
    ensures forall m :: m in s.styles && m != l ==>
              r.styles[m] == (if s.selected == Some(m) then s.original[m] else s.styles[m])
  {
    Layers(RestoreSelected(s)[l := Highlight], s.original, Some(l))
  }

  /** The map click handler: restore the selected layer, if any, and clear the selection. */
  function Clear(s: Layers): (r: Layers)
    requires WellFormed(s)
    ensures WellFormed(r) && r.original == s.original && r.selected == None
    ensures s.selected.None? ==> r == s
  {
    Layers(RestoreSelected(s), s.original, None)
  }

  /** A click the session reacts to. */
  datatype Click = LayerClick(layer: LayerId) | MapClick

  predicate ClicksKnown(s: Layers, clicks: seq<Click>) {
    forall i :: 0 <= i < |clicks| && clicks[i].LayerClick? ==> clicks[i].layer in s.styles
  }

  /** The state after a sequence of clicks. */
  function Run(s: Layers, clicks: seq<Click>): (r: Layers)
    requires WellFormed(s) && ClicksKnown(s, clicks)
    ensures WellFormed(r) && r.styles.Keys == s.styles.Keys && r.original == s.original
    decreases |clicks|
  {
    if clicks == [] then s
    else
      var next := match clicks[0]
        case LayerClick(l) => Select(s, l)
        case MapClick => Clear(s);
      assert ClicksKnown(next, clicks[1..]) by {
        forall i | 0 <= i < |clicks[1..]| && clicks[1..][i].LayerClick?
          ensures clicks[1..][i].layer in next.styles
        {
          assert clicks[1..][i] == clicks[i + 1];
        }
      }
      Run(next, clicks[1..])
  }

  // ---------------------------------------------------------------------------
  // Properties

  lemma SelectKeepsConsistent(s: Layers, l: LayerId)
    requires Consistent(s) && l in s.styles
    ensures Consistent(Select(s, l))
  {
  }

  lemma ClearKeepsConsistent(s: Layers)
    requires Consistent(s)
    ensures Consistent(Clear(s))
  {
  }

  /** Any sequence of layer and map clicks keeps the invariant. */
  lemma {:induction false} RunKeepsConsistent(s: Layers, clicks: seq<Click>)
    requires Consistent(s) && ClicksKnown(s, clicks)
    ensures Consistent(Run(s, clicks))
    decreases |clicks|
  {
    if clicks != [] {
      var next := match clicks[0]
        case LayerClick(l) => Select(s, l)
        case MapClick => Clear(s);
      if clicks[0].LayerClick? {
        SelectKeepsConsistent(s, clicks[0].layer);
      } else {
        ClearKeepsConsistent(s);
      }
      assert ClicksKnown(next, clicks[1..]) by {
        forall i | 0 <= i < |clicks[1..]| && clicks[1..][i].LayerClick?
          ensures clicks[1..][i].layer in next.styles
        {
          assert clicks[1..][i] == clicks[i + 1];
        }
      }
      RunKeepsConsistent(next, clicks[1..]);
    }
  }

  /**
   * In a consistent state exactly the selected layer is highlighted: at most
   * one layer. A layer's own colour can be the highlight yellow; its weight 3
   * still tells it apart from the highlight's weight 5.
   */
  lemma HighlightedIsSelection(s: Layers)
    requires Consistent(s)
    ensures Highlighted(s) == (if s.selected.Some? then {s.selected.value} else {})
    ensures |Highlighted(s)| <= 1
  {
  }

  /** Selecting a then b leaves a in its own original style and only b highlighted. */
  lemma SelectThenSelect(s: Layers, a: LayerId, b: LayerId)
    requires Consistent(s) && a in s.styles && b in s.styles && a != b
    ensures Select(Select(s, a), b).styles[a] == s.original[a]
    ensures Highlighted(Select(Select(s, a), b)) == {b}
  {
    SelectKeepsConsistent(s, a);
    SelectKeepsConsistent(Select(s, a), b);
    HighlightedIsSelection(Select(Select(s, a), b));
  }

  /** A map click after any selection returns every layer to its original style. */
  lemma ClearRestoresAll(s: Layers)
    requires Consistent(s)
    ensures Clear(s).styles == s.original
    ensures Highlighted(Clear(s)) == {}
  {
    ClearKeepsConsistent(s);
    HighlightedIsSelection(Clear(s));
  }
}
