/**
 * The map synchroniser (src/components/map/CampusMap.tsx): a map surface created once
 * per mount, an id-keyed registry of markers rebuilt whenever the location list
 * changes, and a selection-follow step that moves the viewport and opens a popup.
 *
 * Leaflet is represented by what the component asks of it: a surface handle,
 * the markers drawn on that surface, the viewport, and the click listener.
 */
module CampusMap {

  import opened Options
  import opened LocationTypes

  datatype SurfaceHandle = SurfaceHandle(serial: nat)

  /** An opaque marker object; `serial` stands for the object identity of `L.marker(...)`. */
  datatype MarkerHandle = MarkerHandle(serial: nat)

  /** The `k`-th marker allocated once `base` markers exist. */
  function FreshHandle(base: nat, k: nat): MarkerHandle {
    MarkerHandle(base + k)
  }

  datatype Viewport = Viewport(center: LatLng, zoom: int)

  /** What the bound popup shows: name, category label and, if truthy, the description. */
  datatype Popup = Popup(title: string, caption: string, description: Option<string>)

  /** A drawn marker: position, hover title, category glyph, popup, and the location its click selects. */
  datatype Marker = Marker(position: LatLng, title: string, glyph: string, popup: Popup, selects: Location)

  const InitialZoom: int := 15
  const SelectedZoom: int := 17

  /**
   * The marker drawn for a location: at its coordinates, titled with its name, showing
   * its category's icon and label, with the description in the popup only when it is
   * a non-empty string, and selecting that very location when clicked.
   */
  function MarkerFor(loc: Location): (m: Marker)
    ensures m.position == LatLng(loc.lat, loc.lng) && m.title == loc.name && m.selects == loc
    ensures m.glyph == Config(loc.category).icon && m.popup.caption == Config(loc.category).caption
    ensures m.popup.title == loc.name
    ensures m.popup.description.Some? <==> loc.description.Some? && loc.description.value != []
    ensures m.popup.description.Some? ==> m.popup.description == loc.description
  {
    var d := Config(loc.category);
    var description := if loc.description.Some? && loc.description.value != [] then loc.description else None;
    Marker(LatLng(loc.lat, loc.lng), loc.name, d.icon, Popup(loc.name, d.caption, description), loc)
  }

  /** The ids of a location list. */
  function Ids(locs: seq<Location>): set<string> {
    set i | 0 <= i < |locs| :: locs[i].id
  }

  predicate UniqueIds(locs: seq<Location>) {
    forall i, j :: 0 <= i < j < |locs| ==> locs[i].id != locs[j].id
  }

  /**
   * The table the registry mirrors after a reconciliation pass: each id maps to the
   * location inserted for it last, as repeated `Map.set` calls leave it.
   */
  function Registered(locs: seq<Location>): map<string, Location>
    decreases |locs|
  {
    if locs == [] then map[]
    else Registered(locs[..|locs| - 1])[locs[|locs| - 1].id := locs[|locs| - 1]]
  }

  /** The registry's key set is exactly the set of ids in the list. */
  lemma {:induction false} RegisteredKeys(locs: seq<Location>)
    ensures Registered(locs).Keys == Ids(locs)
    decreases |locs|
  {
    if locs != [] {
      var init := locs[..|locs| - 1];
      RegisteredKeys(init);
      assert Ids(locs) == Ids(init) + {locs[|locs| - 1].id} by {
        forall id | id in Ids(locs) ensures id in Ids(init) + {locs[|locs| - 1].id} {
          var i :| 0 <= i < |locs| && locs[i].id == id;
          if i < |locs| - 1 { assert init[i] == locs[i]; }
        }
        forall id | id in Ids(init) ensures id in Ids(locs) {
          var i :| 0 <= i < |init| && init[i].id == id;
          assert locs[i] == init[i];
        }
      }
    }
  }

  /** Extending the list by its next element adds or overwrites that element's entry. */
  lemma RegisteredStep(locs: seq<Location>, i: nat)
    requires i < |locs|
    ensures Registered(locs[..i + 1]) == Registered(locs[..i])[locs[i].id := locs[i]]
    ensures Ids(locs[..i + 1]) == Ids(locs[..i]) + {locs[i].id}
  {
    assert locs[..i + 1][..i] == locs[..i];
    RegisteredKeys(locs[..i]);
    RegisteredKeys(locs[..i + 1]);
  }

  /** Each registry entry holds a location carrying that very id. */
  lemma {:induction false} RegisteredOwnId(locs: seq<Location>, id: string)
    requires id in Registered(locs)
    ensures Registered(locs)[id].id == id
    decreases |locs|
  {
    if locs[|locs| - 1].id != id {
      RegisteredOwnId(locs[..|locs| - 1], id);
    }
  }

  /** On duplicate ids the later list entry wins: an entry no later entry shares an id with is the one kept. */
  lemma {:induction false} RegisteredLastWins(locs: seq<Location>, i: nat)
    requires i < |locs|
    requires forall j :: i < j < |locs| ==> locs[j].id != locs[i].id
    ensures locs[i].id in Registered(locs) && Registered(locs)[locs[i].id] == locs[i]
    decreases |locs|
  {
    if i < |locs| - 1 {
      var init := locs[..|locs| - 1];
      forall j | i < j < |init| ensures init[j].id != init[i].id {
        assert init[j] == locs[j];
      }
      RegisteredLastWins(init, i);
    }
  }

  /** With unique ids the registry has one entry per location. */
  lemma {:induction false} RegisteredSize(locs: seq<Location>)
    requires UniqueIds(locs)
    ensures |Registered(locs)| == |locs|
    decreases |locs|
  {
    if locs != [] {
      var init := locs[..|locs| - 1];
      var last := locs[|locs| - 1];
      assert UniqueIds(init) by {
        forall i, j | 0 <= i < j < |init| ensures init[i].id != init[j].id {
          assert init[i] == locs[i] && init[j] == locs[j];
        }
      }
      RegisteredSize(init);
      RegisteredKeys(init);
      forall i | 0 <= i < |init| ensures init[i].id != last.id {
        assert init[i] == locs[i];
      }
      assert last.id !in Ids(init);
    }
  }

  /** The registry holds, for each key of `table`, a drawn marker built from that entry. */
  ghost predicate Mirrors(registry: map<string, MarkerHandle>, layers: map<MarkerHandle, Marker>, table: map<string, Location>) {
    && registry.Keys == table.Keys
    && forall id :: id in registry ==> registry[id] in layers && layers[registry[id]] == MarkerFor(table[id])
  }

  /** The markers allocated from `base` on are drawn for `locs`, one per entry, in order. */
  ghost predicate DrawnInOrder(layers: map<MarkerHandle, Marker>, base: nat, locs: seq<Location>) {
    forall k :: 0 <= k < |locs| ==>
      FreshHandle(base, k) in layers && layers[FreshHandle(base, k)] == MarkerFor(locs[k])
  }

  /** `layers` keeps every marker of `earlier` and adds only markers allocated from `base` on. */
  ghost predicate Extends(layers: map<MarkerHandle, Marker>, earlier: map<MarkerHandle, Marker>, base: nat) {
    && (forall h :: h in earlier ==> h in layers && layers[h] == earlier[h])
    && (forall h :: h in layers ==> h in earlier || base <= h.serial)
  }

  /** Every handle in use was allocated before the counter reached `count`. */
  ghost predicate Allocated(registry: map<string, MarkerHandle>, layers: map<MarkerHandle, Marker>, count: nat) {
    && (forall h :: h in layers ==> h.serial < count)
    && (forall id :: id in registry ==> registry[id].serial < count)
  }

  /**
   * After a pass over `locs`, the marker registered under an id is drawn, and a click on
   * it selects the location registered for that id, which carries that id.
   */
  lemma ClickSelectsRegistered(registry: map<string, MarkerHandle>, layers: map<MarkerHandle, Marker>,
                               locs: seq<Location>, id: string)
    requires Mirrors(registry, layers, Registered(locs)) && id in registry
    ensures registry[id] in layers
    ensures layers[registry[id]].selects == Registered(locs)[id]
    ensures layers[registry[id]].selects.id == id
  {
    RegisteredOwnId(locs, id);
  }

  /** Every registered marker was allocated once `base` markers existed. */
  ghost predicate RegisteredFrom(registry: map<string, MarkerHandle>, base: nat) {
    forall id :: id in registry ==> base <= registry[id].serial
  }

  lemma MirrorsStep(registry: map<string, MarkerHandle>, layers: map<MarkerHandle, Marker>,
                    table: map<string, Location>, loc: Location, serial: nat)
    requires Mirrors(registry, layers, table)
    requires forall id :: id in registry ==> registry[id].serial < serial
    ensures Mirrors(registry[loc.id := MarkerHandle(serial)], layers[MarkerHandle(serial) := MarkerFor(loc)],
                    table[loc.id := loc])
  {
  }

  lemma DrawnStep(layers: map<MarkerHandle, Marker>, base: nat, locs: seq<Location>, loc: Location)
    requires DrawnInOrder(layers, base, locs)
    requires forall h :: h in layers ==> h.serial < base + |locs|
    ensures DrawnInOrder(layers[FreshHandle(base, |locs|) := MarkerFor(loc)], base, locs + [loc])
  {
    var after := layers[FreshHandle(base, |locs|) := MarkerFor(loc)];
    forall k | 0 <= k < |locs| + 1
      ensures FreshHandle(base, k) in after && after[FreshHandle(base, k)] == MarkerFor((locs + [loc])[k])
    {
      if k < |locs| {
        assert FreshHandle(base, k) in layers;
      }
    }
  }

  class MapSync {
    /** `mapRef.current`. */
    var surface: Option<SurfaceHandle>
    /** `markersRef.current`: id to marker. */
    var registry: map<string, MarkerHandle>
    /** The markers drawn on the live surface. */
    var layers: map<MarkerHandle, Marker>
    /** Whether the live surface has the admin click listener. */
    var clickForwarding: bool
    /** Counters standing for the identities of the objects Leaflet allocates. */
    var surfacesCreated: nat
    var markersCreated: nat
    /** The live surface's centre and zoom. */
    ghost var view: Viewport

    ghost predicate Valid()
      reads this
    {
      && (surface.None? ==> layers == map[] && !clickForwarding)
      && (surface.Some? ==> surface.value.serial < surfacesCreated)
      && Allocated(registry, layers, markersCreated)
    }

    /** A freshly mounted component: no surface, an empty registry. */
    constructor ()
      ensures Valid()
      ensures surface == None && registry == map[] && layers == map[]
      ensures surfacesCreated == 0 && markersCreated == 0
    {
      surface := None;
      registry := map[];
      layers := map[];
      clickForwarding := false;
      surfacesCreated := 0;
      markersCreated := 0;
      view := Viewport(CampusCenter, InitialZoom);
    }

    /**
     * The initialisation effect. It does nothing when the container is not attached
     * or a surface already exists; otherwise it creates one surface centred on the
     * campus at zoom 15, bounded by the campus box, with the click listener only
     * when the page is in admin mode and supplied a click callback.
     */
    method Init(containerAttached: bool, isAdmin: bool, hasMapClick: bool)
      requires Valid()
      modifies this
      ensures Valid()
      ensures !containerAttached || old(surface).Some? ==>
        surface == old(surface) && surfacesCreated == old(surfacesCreated)
        && clickForwarding == old(clickForwarding) && view == old(view)
      ensures containerAttached && old(surface).None? ==>
        surface == Some(SurfaceHandle(old(surfacesCreated))) && surfacesCreated == old(surfacesCreated) + 1
        && clickForwarding == (isAdmin && hasMapClick)
        && view == Viewport(CampusCenter, InitialZoom)
      ensures registry == old(registry) && layers == old(layers) && markersCreated == old(markersCreated)
    {
      if !containerAttached || surface.Some? {
        return;
      }
      surface := Some(SurfaceHandle(surfacesCreated));
      surfacesCreated := surfacesCreated + 1;
      view := Viewport(CampusCenter, InitialZoom);
      clickForwarding := isAdmin && hasMapClick;
    }

    /** A raw click on the surface: the coordinates the callback receives, if a listener is registered. */
    method MapClick(lat: real, lng: real) returns (forwarded: Option<LatLng>)
      requires Valid()
      ensures forwarded.Some? <==> surface.Some? && clickForwarding
      ensures forwarded.Some? ==> forwarded.value == LatLng(lat, lng)
    {
      if surface.Some? && clickForwarding {
        forwarded := Some(LatLng(lat, lng));
      } else {
        forwarded := None;
      }
    }

    /**
     * The initialisation effect's cleanup: the surface is removed with everything
     * drawn on it and the handle is reset, so a later initialisation can run. The
     * registry is left as it is.
     */
    method Teardown()
      requires Valid()
      modifies this
      ensures Valid()
      ensures surface == None && layers == map[] && !clickForwarding
      ensures registry == old(registry)
      ensures surfacesCreated == old(surfacesCreated) && markersCreated == old(markersCreated)
      ensures view == old(view)
    {
      if surface.Some? {
        surface := None;
        layers := map[];
        clickForwarding := false;
      }
    }

    /**
     * The marker effect. Without a surface it does nothing. Otherwise it removes every
     * registered marker from the surface, empties the registry, then draws one new
     * marker per location in list order and registers it under the location's id.
     */
    method Reconcile(locs: seq<Location>)
      requires Valid()
      modifies this
      ensures Valid()
      ensures old(surface).None? ==>
        registry == old(registry) && layers == old(layers) && markersCreated == old(markersCreated)
      ensures old(surface).Some? ==>
        && registry.Keys == Ids(locs)
        && Mirrors(registry, layers, Registered(locs))
        && markersCreated == old(markersCreated) + |locs|
        // the markers that were registered are gone from the surface
        && (forall h :: h in old(registry).Values ==> h !in layers)
        // markers the registry did not know about stay where they were
        && (forall h :: h in old(layers) && h !in old(registry).Values ==> h in layers && layers[h] == old(layers)[h])
        // the pass draws one fresh marker per location, in list order, and nothing else
        && DrawnInOrder(layers, old(markersCreated), locs)
        && (forall h :: h in layers ==> h in old(layers) || old(markersCreated) <= h.serial)
        // every registered marker is one this pass drew
        && RegisteredFrom(registry, old(markersCreated))
      ensures surface == old(surface) && clickForwarding == old(clickForwarding)
      ensures surfacesCreated == old(surfacesCreated) && view == old(view)
    {
      if surface.None? {
        return;
      }
      RemoveRegistered();
      DrawAll(locs);
      RegisteredKeys(locs);
    }

    /** Step one of a pass: every registered marker is removed from the surface and the registry is emptied. */
    method RemoveRegistered()
      requires Valid()
      modifies this`layers, this`registry
      ensures Valid() && registry == map[]
      ensures forall h :: h in layers <==> h in old(layers) && h !in old(registry).Values
      ensures forall h :: h in layers ==> layers[h] == old(layers)[h]
    {
      var pending := registry.Values;
      while pending != {}
        invariant pending <= old(registry).Values
        invariant forall h :: h in layers <==> h in old(layers) && (h !in old(registry).Values || h in pending)
        invariant forall h :: h in layers ==> layers[h] == old(layers)[h]
        decreases pending
      {
        var h :| h in pending;
        layers := layers - {h};
        pending := pending - {h};
      }
      registry := map[];
    }

    /** Step two of a pass: one new marker per location, in list order, registered under its id. */
    method DrawAll(locs: seq<Location>)
      requires Allocated(registry, layers, markersCreated) && registry == map[]
      modifies this`layers, this`registry, this`markersCreated
      ensures Allocated(registry, layers, markersCreated)
      ensures markersCreated == old(markersCreated) + |locs|
      ensures Mirrors(registry, layers, Registered(locs))
      ensures DrawnInOrder(layers, old(markersCreated), locs)
      ensures Extends(layers, old(layers), old(markersCreated))
      ensures RegisteredFrom(registry, old(markersCreated))
    {
      ghost var base := markersCreated;
      var i := 0;
      while i < |locs|
        invariant 0 <= i <= |locs|
        invariant markersCreated == base + i
        invariant Mirrors(registry, layers, Registered(locs[..i]))
        invariant DrawnInOrder(layers, base, locs[..i])
        invariant Extends(layers, old(layers), base)
        invariant Allocated(registry, layers, markersCreated)
        invariant RegisteredFrom(registry, base)
      {
        RegisteredStep(locs, i);
        AddMarker(locs[i], Registered(locs[..i]), locs[..i], old(layers), base);
        assert locs[..i + 1] == locs[..i] + [locs[i]];
        i := i + 1;
      }
      assert locs[..i] == locs;
    }

    /** One iteration of step two: a fresh marker for `loc`, drawn and registered under its id. */
    method AddMarker(loc: Location, ghost table: map<string, Location>, ghost done: seq<Location>,
                     ghost earlier: map<MarkerHandle, Marker>, ghost base: nat)
      requires markersCreated == base + |done|
      requires Mirrors(registry, layers, table)
      requires DrawnInOrder(layers, base, done)
      requires Extends(layers, earlier, base)
      requires Allocated(registry, layers, markersCreated)
      modifies this`layers, this`registry, this`markersCreated
      ensures markersCreated == old(markersCreated) + 1
      ensures Mirrors(registry, layers, table[loc.id := loc])
      ensures DrawnInOrder(layers, base, done + [loc])
      ensures Extends(layers, earlier, base)
      ensures Allocated(registry, layers, markersCreated)
      ensures registry == old(registry)[loc.id := MarkerHandle(old(markersCreated))]
      ensures RegisteredFrom(old(registry), base) ==> RegisteredFrom(registry, base)
    {
      var h := MarkerHandle(markersCreated);
      MirrorsStep(registry, layers, table, loc, markersCreated);
      DrawnStep(layers, base, done, loc);
      markersCreated := markersCreated + 1;
      layers := layers[h := MarkerFor(loc)];
      registry := registry[loc.id := h];
    }

    /** A click on a drawn marker: the location it hands to the selection callback. */
    method MarkerClick(h: MarkerHandle) returns (selected: Option<Location>)
      requires Valid()
      ensures selected.Some? <==> h in layers
      ensures selected.Some? ==> selected.value == layers[h].selects
    {
      if h in layers {
        selected := Some(layers[h].selects);
      } else {
        selected := None;
      }
    }

    /**
     * The selection-follow effect. With no surface or no selection nothing changes.
     * Otherwise the view moves to the selection at zoom 17, and the popup of the
     * marker registered under its id is opened when there is one.
     */
    method FollowSelection(selection: Option<Location>) returns (popupFor: Option<MarkerHandle>)
      requires Valid()
      modifies this`view
      ensures surface.None? || selection.None? ==> view == old(view) && popupFor == None
      ensures surface.Some? && selection.Some? ==>
        view == Viewport(LatLng(selection.value.lat, selection.value.lng), SelectedZoom)
        && (popupFor.Some? <==> selection.value.id in registry)
        && (popupFor.Some? ==> popupFor.value == registry[selection.value.id])
    {
      popupFor := None;
      if surface.None? || selection.None? {
        return;
      }
      var loc := selection.value;
      view := Viewport(LatLng(loc.lat, loc.lng), SelectedZoom);
      if loc.id in registry {
        popupFor := Some(registry[loc.id]);
      }
    }
  }

  /**
   * The selection walk-through: on an initialised surface showing a single location,
   * selecting it moves the view to its coordinates at zoom 17 and opens its popup;
   * clearing the selection afterwards leaves the view where it is.
   */
  method SelectThenClear(loc: Location) returns (popupFor: Option<MarkerHandle>, cleared: Option<MarkerHandle>,
                                                 ghost finalView: Viewport, ghost drawn: map<MarkerHandle, Marker>)
    ensures popupFor.Some? && cleared == None
    ensures popupFor.value in drawn && drawn[popupFor.value] == MarkerFor(loc)
    ensures finalView == Viewport(LatLng(loc.lat, loc.lng), SelectedZoom)
  {
    var m := new MapSync();
    m.Init(true, false, false);
    m.Reconcile([loc]);
    assert loc.id in Ids([loc]);
    assert Registered([loc]) == map[loc.id := loc];
    ClickSelectsRegistered(m.registry, m.layers, [loc], loc.id);
    drawn := m.layers;
    popupFor := m.FollowSelection(Some(loc));
    cleared := m.FollowSelection(None);
    finalView := m.view;
  }

  /**
   * The click walk-through: once a surface shows `locs`, a click on the marker registered
   * under `id` selects a location with that id, namely the last one in the list.
   */
  method ClickRegisteredMarker(locs: seq<Location>, id: string) returns (selected: Option<Location>)
    requires id in Ids(locs)
    ensures selected.Some? && selected.value.id == id
    ensures id in Registered(locs) && selected.value == Registered(locs)[id]
    ensures forall i :: 0 <= i < |locs| && locs[i].id == id && (forall j :: i < j < |locs| ==> locs[j].id != id) ==>
      selected.value == locs[i]
  {
    var m := new MapSync();
    m.Init(true, false, false);
    m.Reconcile(locs);
    ClickSelectsRegistered(m.registry, m.layers, locs, id);
    selected := m.MarkerClick(m.registry[id]);
    forall i | 0 <= i < |locs| && locs[i].id == id && (forall j :: i < j < |locs| ==> locs[j].id != id)
      ensures selected.value == locs[i]
    {
      RegisteredLastWins(locs, i);
    }
  }

  /**
   * The remount walk-through: a surface torn down and created again, with no marker
   * pass in between, has nothing drawn, yet the registry still names the marker of
   * the earlier pass, and following a selection calls `openPopup` on that marker.
   */
  method RemountWithoutPass(loc: Location)
    returns (popupFor: Option<MarkerHandle>, ghost earlier: map<MarkerHandle, Marker>, ghost drawn: map<MarkerHandle, Marker>)
    ensures popupFor.Some? && popupFor.value in earlier && earlier[popupFor.value] == MarkerFor(loc)
    ensures drawn == map[]
  {
    var m := new MapSync();
    m.Init(true, true, true);
    m.Reconcile([loc]);
    assert loc.id in Ids([loc]);
    assert Registered([loc]) == map[loc.id := loc];
    ClickSelectsRegistered(m.registry, m.layers, [loc], loc.id);
    earlier := m.layers;
    m.Teardown();
    m.Init(true, true, true);
    popupFor := m.FollowSelection(Some(loc));
    drawn := m.layers;
  }
}
