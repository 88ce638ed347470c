/**
 * The overlay registry (ui/overlays.go): debug and visual overlays, each
 * with an id, a display name, a toggle key and a list of overlays it
 * switches off when switched on. Go's maps read a missing key as the zero
 * value, so an unknown overlay reads as disabled.
 */
module Overlays {
  import opened Wrappers

  /**
   * OverlayID: the nine standard ids, or any other id a caller registers
   * (Other("") is the empty id a key press with no binding reports).
   */
  datatype OverlayId =
    | SpeciesColors | CapabilityColors | PerceptionCones | LightMap | FlowField | Pathfinding
    | CellTypes | CollisionBoxes | Orientation
    | Other(name: string)

  datatype Descriptor = Descriptor(id: OverlayId, name: string, key: int, keyLabel: string, category: string,
                                   exclusive: seq<OverlayId>)

  datatype Registry = Registry(descriptors: seq<Descriptor>, byId: map<OverlayId, Descriptor>,
                               enabled: map<OverlayId, bool>, order: seq<OverlayId>)

  /** The registry before any overlay is registered. */
  const Empty: Registry := Registry([], map[], map[], [])

  /** IsEnabled: the stored state, false for an id never stored. */
  predicate IsEnabled(r: Registry, id: OverlayId)
  {
    On(r.enabled, id)
  }

  predicate On(e: map<OverlayId, bool>, id: OverlayId)
  {
    id in e && e[id]
  }

  /** Get: the descriptor last registered under id, if any. */
  function Get(r: Registry, id: OverlayId): (d: Option<Descriptor>)
    ensures d.Some? <==> id in r.byId
    ensures d.Some? ==> d.value == r.byId[id]
  {
    if id in r.byId then Some(r.byId[id]) else None
  }

  /** Register: the descriptor appended to the list, stored under its id, its id appended to the order, and off. */
  function Register(r: Registry, d: Descriptor): Registry
  {
    Registry(r.descriptors + [d], r.byId[d.id := d], r.enabled[d.id := false], r.order + [d.id])
  }

  /**
   * A registered descriptor replaces any earlier one under its id and
   * starts disabled; nothing about any other id changes.
   */
  lemma RegisterFacts(r: Registry, d: Descriptor)
    ensures Get(Register(r, d), d.id) == Some(d) && !IsEnabled(Register(r, d), d.id)
    ensures forall id :: id != d.id ==>
      Get(Register(r, d), id) == Get(r, id) && (IsEnabled(Register(r, d), id) <==> IsEnabled(r, id))
  {
  }

  /** The loop over an Exclusive list: each listed id stored as disabled, every other entry kept. */
  function DisableAll(e: map<OverlayId, bool>, xs: seq<OverlayId>): (r: map<OverlayId, bool>)
    ensures forall x :: x in xs ==> x in r && !r[x]
    ensures forall k :: k !in xs ==> (k in r <==> k in e) && (k in e ==> r[k] == e[k])
    decreases |xs|
  {
    if |xs| == 0 then e else DisableAll(e[xs[0] := false], xs[1..])
  }

  /** The state map after storing on for id and, when on, disabling its exclusive list. */
  function Switch(e: map<OverlayId, bool>, id: OverlayId, on: bool, exclusive: seq<OverlayId>): map<OverlayId, bool>
  {
    if on then DisableAll(e[id := on], exclusive) else e[id := on]
  }

  /**
   * SetEnabled: nothing for an unknown id; otherwise the state is stored
   * and, when enabling, every overlay of the exclusive list is disabled
   * afterwards (so an overlay listed as exclusive of itself ends up off).
   * No other state and nothing else in the registry changes.
   */
  function SetEnabled(r: Registry, id: OverlayId, on: bool): (r': Registry)
    ensures id !in r.byId ==> r' == r
    ensures r'.descriptors == r.descriptors && r'.byId == r.byId && r'.order == r.order
    ensures id in r.byId && on ==> forall x :: x in r.byId[id].exclusive ==> !IsEnabled(r', x)
    ensures id in r.byId && (!on || id !in r.byId[id].exclusive) ==> (IsEnabled(r', id) <==> on)
    ensures forall k :: k != id && (id !in r.byId || !on || k !in r.byId[id].exclusive) ==>
      (IsEnabled(r', k) <==> IsEnabled(r, k))
  {
    if id !in r.byId then r
    else r.(enabled := Switch(r.enabled, id, on, r.byId[id].exclusive))
  }

  /**
   * Toggle: false and no change for an unknown id; otherwise the new state
   * is the opposite of the old one, and the registry is the one SetEnabled
   * gives for that state.
   */
  function Toggle(r: Registry, id: OverlayId): (res: (Registry, bool))
    ensures id !in r.byId ==> res == (r, false)
    ensures id in r.byId ==> (res.1 <==> !IsEnabled(r, id)) && res.0 == SetEnabled(r, id, res.1)
  {
    if id !in r.byId then (r, false)
    else
      var newState := !IsEnabled(r, id);
      (r.(enabled := Switch(r.enabled, id, newState, r.byId[id].exclusive)), newState)
  }

  /**
   * Switching an overlay on and off again restores every state when it
   * was off, none of its exclusive overlays was on, and it is not listed
   * as exclusive of itself.
   */
  lemma ToggleTwiceRestores(r: Registry, id: OverlayId)
    requires id in r.byId && id !in r.byId[id].exclusive && !IsEnabled(r, id)
    requires forall x :: x in r.byId[id].exclusive ==> !IsEnabled(r, x)
    ensures Toggle(r, id).1 && !Toggle(Toggle(r, id).0, id).1
    ensures forall k :: IsEnabled(Toggle(Toggle(r, id).0, id).0, k) <==> IsEnabled(r, k)
  {
    var r1 := Toggle(r, id).0;
    var r2 := Toggle(r1, id).0;
    assert IsEnabled(r1, id);
    forall k
      ensures IsEnabled(r2, k) <==> IsEnabled(r, k)
    {
      if k != id && k in r.byId[id].exclusive {
        assert !IsEnabled(r1, k) && !IsEnabled(r, k);
      }
    }
  }

  /** Setting the same state twice is setting it once. */
  lemma SetEnabledIdempotent(r: Registry, id: OverlayId, on: bool)
    ensures SetEnabled(SetEnabled(r, id, on), id, on) == SetEnabled(r, id, on)
  {
    if id in r.byId {
      var xs := r.byId[id].exclusive;
      var e1 := Switch(r.enabled, id, on, xs);
      var e2 := Switch(e1, id, on, xs);
      assert e2.Keys == e1.Keys;
      forall k | k in e1
        ensures e2[k] == e1[k]
      {
      }
      assert e2 == e1;
    }
  }

  /** Exclusivity is mutual: every overlay an overlay lists is registered, lists it back, and is not itself. */
  predicate Symmetric(r: Registry)
  {
    forall a, x :: a in r.byId && x in r.byId[a].exclusive ==>
      x != a && x in r.byId && a in r.byId[x].exclusive
  }

  /** No enabled overlay has an enabled exclusive partner. */
  predicate NoConflict(r: Registry)
  {
    forall a, x :: a in r.byId && x in r.byId[a].exclusive && IsEnabled(r, a) ==> !IsEnabled(r, x)
  }

  /** With mutual exclusivity, switching overlays on or off never leaves two exclusive overlays both on. */
  lemma SetEnabledKeepsNoConflict(r: Registry, id: OverlayId, on: bool)
    requires Symmetric(r) && NoConflict(r)
    ensures NoConflict(SetEnabled(r, id, on))
  {
    var r' := SetEnabled(r, id, on);
    if id in r.byId {
      var xs := r.byId[id].exclusive;
      forall a, x | a in r.byId && x in r.byId[a].exclusive && IsEnabled(r', a)
        ensures !IsEnabled(r', x)
      {
        if on && x in xs {
        } else if x == id {
          assert a in xs;
          assert on ==> !IsEnabled(r', a);
        } else {
          if a == id {
            assert on;
          } else {
            assert a !in xs || !on;
            assert IsEnabled(r, a);
          }
        }
      }
    }
  }

  /** Toggling keeps the same invariant, being a SetEnabled. */
  lemma ToggleKeepsNoConflict(r: Registry, id: OverlayId)
    requires Symmetric(r) && NoConflict(r)
    ensures NoConflict(Toggle(r, id).0)
  {
    if id in r.byId {
      SetEnabledKeepsNoConflict(r, id, !IsEnabled(r, id));
    }
  }

  /** The position of the first descriptor from i on bound to key, or |ds| when none is. */
  function FirstWithKey(ds: seq<Descriptor>, key: int, i: nat): (k: nat)
    requires i <= |ds|
    ensures i <= k <= |ds|
    ensures k < |ds| ==> ds[k].key == key
    ensures forall j :: i <= j < k ==> ds[j].key != key
    decreases |ds| - i
  {
    if i == |ds| then i
    else if ds[i].key == key then i
    else FirstWithKey(ds, key, i + 1)
  }

  datatype KeyResult = KeyResult(registry: Registry, id: OverlayId, state: bool, handled: bool)

  /**
   * HandleKeyPress: toggles the overlay of the first descriptor, in
   * registration order, bound to the key, and reports its id and new
   * state; a key no descriptor is bound to changes nothing.
   */
  function HandleKeyPress(r: Registry, key: int): (res: KeyResult)
    ensures !res.handled <==> forall j :: 0 <= j < |r.descriptors| ==> r.descriptors[j].key != key
    ensures !res.handled ==> res == KeyResult(r, Other(""), false, false)
    ensures res.handled ==> (res.registry, res.state) == Toggle(r, res.id)
    ensures res.handled ==>
      exists j :: 0 <= j < |r.descriptors| && r.descriptors[j].key == key && r.descriptors[j].id == res.id &&
        (forall i :: 0 <= i < j ==> r.descriptors[i].key != key)
  {
    var k := FirstWithKey(r.descriptors, key, 0);
    if k == |r.descriptors| then KeyResult(r, Other(""), false, false)
    else
      var id := r.descriptors[k].id;
      var (r', s) := Toggle(r, id);
      KeyResult(r', id, s, true)
  }

  /** EnabledOverlays: the ids of the order whose overlay is enabled, in that order. */
  function EnabledOverlays(r: Registry): (ids: seq<OverlayId>)
    ensures forall k :: 0 <= k < |ids| ==> IsEnabled(r, ids[k]) && ids[k] in r.order
    ensures forall id :: id in r.order && IsEnabled(r, id) ==> id in ids
    ensures (forall id :: id in r.order ==> !IsEnabled(r, id)) ==> ids == []
  {
    EnabledIn(r, r.order)
  }

  function EnabledIn(r: Registry, order: seq<OverlayId>): (ids: seq<OverlayId>)
    ensures |ids| <= |order|
    ensures forall k :: 0 <= k < |ids| ==> IsEnabled(r, ids[k]) && ids[k] in order
    ensures forall id :: id in order && IsEnabled(r, id) ==> id in ids
    ensures (forall id :: id in order ==> !IsEnabled(r, id)) ==> ids == []
  {
    if |order| == 0 then []
    else
      assert order == [order[0]] + order[1..];
      (if IsEnabled(r, order[0]) then [order[0]] else []) + EnabledIn(r, order[1..])
  }

  /** Each enabled id is listed as many times as the order lists it; a disabled one never. */
  lemma {:induction false} EnabledInCounts(r: Registry, order: seq<OverlayId>)
    ensures forall id :: multiset(EnabledIn(r, order))[id] == if IsEnabled(r, id) then multiset(order)[id] else 0
    decreases |order|
  {
    if |order| > 0 {
      EnabledInCounts(r, order[1..]);
      assert order == [order[0]] + order[1..];
      var h := if IsEnabled(r, order[0]) then [order[0]] else [];
      assert multiset(EnabledIn(r, order)) == multiset(h) + multiset(EnabledIn(r, order[1..]));
      assert multiset(order) == multiset([order[0]]) + multiset(order[1..]);
    }
  }

  /** A single id is listed exactly when it is enabled. */
  lemma EnabledInSingle(r: Registry, id: OverlayId)
    ensures EnabledIn(r, [id]) == if IsEnabled(r, id) then [id] else []
  {
    assert [id][1..] == [];
  }

  /**
   * Listing a concatenation lists the first part, then the second: with
   * EnabledInSingle this fixes the result as the enabled ids in the order
   * given, each as often as it appears.
   */
  lemma {:induction false} EnabledInAppend(r: Registry, a: seq<OverlayId>, b: seq<OverlayId>)
    ensures EnabledIn(r, a + b) == EnabledIn(r, a) + EnabledIn(r, b)
    decreases |a|
  {
    if |a| == 0 {
      assert a + b == b;
      assert EnabledIn(r, a) == [];
    } else {
      var h := if IsEnabled(r, a[0]) then [a[0]] else [];
      assert (a + b)[1..] == a[1..] + b;
      assert (a + b)[0] == a[0];
      EnabledInAppend(r, a[1..], b);
      var x, y := EnabledIn(r, a[1..]), EnabledIn(r, b);
      assert EnabledIn(r, a[1..] + b) == x + y;
      assert EnabledIn(r, a + b) == h + (x + y);
      assert EnabledIn(r, a) == h + x;
      ConcatAssoc(h, x, y);
    }
  }

  lemma ConcatAssoc(h: seq<OverlayId>, x: seq<OverlayId>, y: seq<OverlayId>)
    ensures h + (x + y) == (h + x) + y
  {
  }

  // ---------------------------------------------------------------------
  // The default overlays
  // ---------------------------------------------------------------------

  /** The nine overlays registerDefaults adds, in its order; keys are raylib's codes for the letters. */
  const DefaultDescriptors: seq<Descriptor> := [
    Descriptor(SpeciesColors, "Species Colors", 83, "S", "visual", [CapabilityColors]),
    Descriptor(CapabilityColors, "Capability Colors", 68, "D", "visual", [SpeciesColors]),
    Descriptor(CellTypes, "Cell Types", 84, "T", "visual", []),
    Descriptor(PerceptionCones, "Vision Cones", 86, "V", "perception", []),
    Descriptor(LightMap, "Light Map", 76, "L", "perception", []),
    Descriptor(FlowField, "Flow Field", 71, "G", "debug", []),
    Descriptor(Pathfinding, "Pathfinding", 80, "P", "debug", []),
    Descriptor(CollisionBoxes, "Collision Boxes", 66, "B", "debug", []),
    Descriptor(Orientation, "Orientation", 88, "X", "debug", [])
  ]

  /** Registering a list of descriptors in turn. */
  function RegisterAll(r: Registry, ds: seq<Descriptor>): Registry
    decreases |ds|
  {
    if |ds| == 0 then r else RegisterAll(Register(r, ds[0]), ds[1..])
  }

  /** Registering a list appends its descriptors, and their ids to the order, in list order. */
  lemma {:induction false} RegisterAllLayout(r: Registry, ds: seq<Descriptor>)
    ensures RegisterAll(r, ds).descriptors == r.descriptors + ds
    ensures |RegisterAll(r, ds).order| == |r.order| + |ds| && RegisterAll(r, ds).order[..|r.order|] == r.order
    ensures forall k :: 0 <= k < |ds| ==> RegisterAll(r, ds).order[|r.order| + k] == ds[k].id
    decreases |ds|
  {
    if |ds| > 0 {
      var r1 := Register(r, ds[0]);
      RegisterAllLayout(r1, ds[1..]);
      var o := RegisterAll(r, ds).order;
      assert o[..|r1.order|][..|r.order|] == o[..|r.order|];
      forall k | 0 <= k < |ds|
        ensures o[|r.order| + k] == ds[k].id
      {
        if k > 0 {
          assert o[|r1.order| + (k - 1)] == ds[1..][k - 1].id;
        } else {
          assert o[..|r1.order|][|r.order|] == ds[0].id;
        }
      }
    }
  }

  /** No descriptor after position k of ds has the id of ds[k]. */
  predicate LastWithId(ds: seq<Descriptor>, k: nat)
    requires k < |ds|
  {
    forall j :: k < j < |ds| ==> ds[j].id != ds[k].id
  }

  /** No descriptor of ds has this id. */
  predicate Absent(ds: seq<Descriptor>, id: OverlayId)
  {
    forall k :: 0 <= k < |ds| ==> ds[k].id != id
  }

  /** Registering a list leaves the lookup of every id it does not give as it was. */
  lemma {:induction false} RegisterAllKeeps(r: Registry, ds: seq<Descriptor>, id: OverlayId)
    requires Absent(ds, id)
    ensures Get(RegisterAll(r, ds), id) == Get(r, id)
    decreases |ds|
  {
    if |ds| > 0 {
      RegisterFacts(r, ds[0]);
      assert ds[0].id != id;
      assert Absent(ds[1..], id) by {
        forall k | 0 <= k < |ds| - 1
          ensures ds[1..][k].id != id
        {
          assert ds[1..][k] == ds[k + 1];
        }
      }
      RegisterAllKeeps(Register(r, ds[0]), ds[1..], id);
    }
  }

  /** After registering a list, an id is looked up to the last descriptor the list gives it. */
  lemma {:induction false} RegisterAllGet(r: Registry, ds: seq<Descriptor>, k: nat)
    requires k < |ds| && LastWithId(ds, k)
    ensures Get(RegisterAll(r, ds), ds[k].id) == Some(ds[k])
    decreases |ds|
  {
    var r1 := Register(r, ds[0]);
    RegisterFacts(r, ds[0]);
    if k == 0 {
      assert Absent(ds[1..], ds[0].id) by {
        forall j | 0 <= j < |ds| - 1
          ensures ds[1..][j].id != ds[0].id
        {
          assert ds[1..][j] == ds[j + 1];
        }
      }
      RegisterAllKeeps(r1, ds[1..], ds[0].id);
    } else {
      assert ds[1..][k - 1] == ds[k];
      assert LastWithId(ds[1..], k - 1) by {
        forall j | k - 1 < j < |ds| - 1
          ensures ds[1..][j].id != ds[k].id
        {
          assert ds[1..][j] == ds[j + 1];
        }
      }
      RegisterAllGet(r1, ds[1..], k - 1);
    }
  }

  /** Every id registering a list knows was known before or is given by the list. */
  lemma {:induction false} RegisterAllKnown(r: Registry, ds: seq<Descriptor>, id: OverlayId)
    requires id in RegisterAll(r, ds).byId
    ensures id in r.byId || !Absent(ds, id)
    decreases |ds|
  {
    if |ds| > 0 && id !in r.byId && id != ds[0].id {
      RegisterAllKnown(Register(r, ds[0]), ds[1..], id);
      var j :| 0 <= j < |ds| - 1 && ds[1..][j].id == id;
      assert ds[j + 1].id == id;
    }
  }

  /** Registering never switches an overlay on, and every id registered is off. */
  lemma {:induction false} RegisterAllOff(r: Registry, ds: seq<Descriptor>)
    ensures forall id :: IsEnabled(RegisterAll(r, ds), id) ==> IsEnabled(r, id)
    ensures forall k :: 0 <= k < |ds| ==> !IsEnabled(RegisterAll(r, ds), ds[k].id)
    decreases |ds|
  {
    if |ds| > 0 {
      var r1 := Register(r, ds[0]);
      RegisterFacts(r, ds[0]);
      RegisterAllOff(r1, ds[1..]);
      forall k | 0 <= k < |ds|
        ensures !IsEnabled(RegisterAll(r, ds), ds[k].id)
      {
        if k > 0 {
          assert ds[1..][k - 1] == ds[k];
        }
      }
    }
  }

  /** NewOverlayRegistry: the defaults registered into an empty registry. */
  function NewOverlayRegistry(): Registry
  {
    RegisterAll(Empty, DefaultDescriptors)
  }

  /** A new registry lists the nine default ids in registration order. */
  lemma NewRegistryOrder()
    ensures NewOverlayRegistry().order ==
      [SpeciesColors, CapabilityColors, CellTypes, PerceptionCones, LightMap, FlowField, Pathfinding,
       CollisionBoxes, Orientation]
  {
  }

  /** Each default id leads to its own descriptor, and every id a new registry knows is a default one. */
  lemma NewRegistryGet(id: OverlayId)
    ensures forall k :: 0 <= k < |DefaultDescriptors| && DefaultDescriptors[k].id == id ==>
      Get(NewOverlayRegistry(), id) == Some(DefaultDescriptors[k])
    ensures id in NewOverlayRegistry().byId ==> !Absent(DefaultDescriptors, id)
  {
    DefaultIdsDistinct();
    forall k | 0 <= k < |DefaultDescriptors| && DefaultDescriptors[k].id == id
      ensures Get(NewOverlayRegistry(), id) == Some(DefaultDescriptors[k])
    {
      RegisterAllGet(Empty, DefaultDescriptors, k);
    }
    if id in NewOverlayRegistry().byId {
      RegisterAllKnown(Empty, DefaultDescriptors, id);
    }
  }

  /** A new registry has every overlay off, so it lists none as enabled. */
  lemma NewRegistryAllOff()
    ensures forall id :: !IsEnabled(NewOverlayRegistry(), id)
    ensures EnabledOverlays(NewOverlayRegistry()) == []
  {
    RegisterAllOff(Empty, DefaultDescriptors);
  }

  /** The default ids are pairwise different. */
  lemma DefaultIdsDistinct()
    ensures forall a, b :: 0 <= a < b < |DefaultDescriptors| ==> DefaultDescriptors[a].id != DefaultDescriptors[b].id
  {
  }

  /** Only the two colour overlays list exclusives, and each lists the other. */
  lemma DefaultExclusive(k: nat, x: OverlayId)
    requires k < |DefaultDescriptors| && x in DefaultDescriptors[k].exclusive
    ensures (k == 0 && x == CapabilityColors) || (k == 1 && x == SpeciesColors)
  {
  }

  /** In a new registry each overlay an overlay lists as exclusive is another registered one that lists it back. */
  lemma NewRegistryExclusiveAt(a: OverlayId, x: OverlayId)
    requires a in NewOverlayRegistry().byId && x in NewOverlayRegistry().byId[a].exclusive
    ensures x != a && x in NewOverlayRegistry().byId && a in NewOverlayRegistry().byId[x].exclusive
  {
    var ds := DefaultDescriptors;
    NewRegistryGet(a);
    var k :| 0 <= k < |ds| && ds[k].id == a;
    DefaultExclusive(k, x);
    NewRegistryGet(x);
    if k == 0 {
      assert a == SpeciesColors && x == CapabilityColors;
      assert Get(NewOverlayRegistry(), x) == Some(ds[1]);
    } else {
      assert a == CapabilityColors && x == SpeciesColors;
      assert Get(NewOverlayRegistry(), x) == Some(ds[0]);
    }
  }

  /** In a new registry exclusivity is mutual and no two exclusive overlays are on. */
  lemma NewRegistryExclusive()
    ensures Symmetric(NewOverlayRegistry()) && NoConflict(NewOverlayRegistry())
  {
    NewRegistryAllOff();
    forall a, x | a in NewOverlayRegistry().byId && x in NewOverlayRegistry().byId[a].exclusive
      ensures x != a && x in NewOverlayRegistry().byId && a in NewOverlayRegistry().byId[x].exclusive
    {
      NewRegistryExclusiveAt(a, x);
    }
  }

  /**
   * With every overlay off, the first key binding of a key turns exactly
   * its own overlay on, provided the overlay is registered and not listed
   * as exclusive of itself.
   */
  lemma KeyFromAllOff(r: Registry, key: int, k: nat)
    requires k < |r.descriptors| && r.descriptors[k].key == key
    requires forall j :: 0 <= j < k ==> r.descriptors[j].key != key
    requires r.descriptors[k].id in r.byId && r.descriptors[k].id !in r.byId[r.descriptors[k].id].exclusive
    requires forall id :: !IsEnabled(r, id)
    ensures HandleKeyPress(r, key).handled && HandleKeyPress(r, key).id == r.descriptors[k].id
    ensures forall id :: IsEnabled(HandleKeyPress(r, key).registry, id) <==> id == r.descriptors[k].id
  {
    assert FirstWithKey(r.descriptors, key, 0) == k;
  }

  /** In a new registry the S key turns species colours on and nothing else. */
  lemma SpeciesKey()
    ensures HandleKeyPress(NewOverlayRegistry(), 83).handled
    ensures HandleKeyPress(NewOverlayRegistry(), 83).id == SpeciesColors
    ensures forall id :: IsEnabled(HandleKeyPress(NewOverlayRegistry(), 83).registry, id) <==> id == SpeciesColors
  {
    SpeciesBindingFirst();
    SpeciesRegistered();
    NewRegistryAllOff();
    KeyFromAllOff(NewOverlayRegistry(), 83, 0);
  }

  /** The first binding of a new registry is species colours on key 83. */
  lemma SpeciesBindingFirst()
    ensures var r := NewOverlayRegistry();
      0 < |r.descriptors| && r.descriptors[0].key == 83 && r.descriptors[0].id == SpeciesColors
  {
    RegisterAllLayout(Empty, DefaultDescriptors);
    assert NewOverlayRegistry().descriptors == Empty.descriptors + DefaultDescriptors;
  }

  /** Species colours is registered in a new registry and does not exclude itself. */
  lemma SpeciesRegistered()
    ensures var r := NewOverlayRegistry();
      SpeciesColors in r.byId && SpeciesColors !in r.byId[SpeciesColors].exclusive
  {
    NewRegistryGet(SpeciesColors);
    assert DefaultDescriptors[0].id == SpeciesColors;
    assert Get(NewOverlayRegistry(), SpeciesColors) == Some(DefaultDescriptors[0]);
  }
}
