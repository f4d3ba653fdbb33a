/** Detecting capture cards: the devices are probed in order and grouped by the bus they are on. */
module CaptureCards {
  import opened UserspaceDevice

  /** What opening and querying a device gives: nothing, or the bus and the name of its card. */
  datatype Probe = Failed | Probed(busInfo: string, card: string)

  datatype CaptureCard = CaptureCard(busInfo: string, card: string, devNodes: seq<string>)

  /** The buses of the probed devices, each once, in the order of their first devices. */
  function Buses(order: seq<Device>, probe: Device -> Probe): seq<string> {
    if order == [] then []
    else
      var d := order[|order| - 1];
      var buses := Buses(order[..|order| - 1], probe);
      if probe(d).Failed? || probe(d).busInfo in buses then buses else buses + [probe(d).busInfo]
  }

  predicate IsOn(d: Device, probe: Device -> Probe, busInfo: string) {
    probe(d).Probed? && probe(d).busInfo == busInfo
  }

  /** The devices on a bus, in order. */
  function On(order: seq<Device>, probe: Device -> Probe, busInfo: string): (ds: seq<Device>)
    ensures forall i :: 0 <= i < |ds| ==> IsOn(ds[i], probe, busInfo) && ds[i] in order
  {
    if order == [] then []
    else
      var d := order[|order| - 1];
      On(order[..|order| - 1], probe, busInfo) + if IsOn(d, probe, busInfo) then [d] else []
  }

  function DevNodes(ds: seq<Device>): (nodes: seq<string>)
    ensures |nodes| == |ds| && forall i :: 0 <= i < |ds| ==> nodes[i] == ds[i].devNode
  {
    seq(|ds|, i requires 0 <= i < |ds| => ds[i].devNode)
  }

  /** The card of a bus: named by the first device on it, with all the devices on it. */
  ghost predicate IsCardOf(c: CaptureCard, order: seq<Device>, probe: Device -> Probe, busInfo: string) {
    var ds := On(order, probe, busInfo);
    && ds != []
    && c.busInfo == busInfo
    && c.card == probe(ds[0]).card
    && c.devNodes == DevNodes(ds)
  }

  /** One card for each bus. */
  ghost predicate Grouped(cards: seq<CaptureCard>, order: seq<Device>, probe: Device -> Probe) {
    var buses := Buses(order, probe);
    && |cards| == |buses|
    && forall i :: 0 <= i < |cards| ==> IsCardOf(cards[i], order, probe, buses[i])
  }

  /** The position of the card of a bus, or the number of cards when there is none. */
  method Find(cards: seq<CaptureCard>, busInfo: string) returns (found: nat)
    ensures found <= |cards|
    ensures found < |cards| ==> cards[found].busInfo == busInfo
    ensures forall i :: 0 <= i < found ==> cards[i].busInfo != busInfo
  {
    found := 0;
    while found < |cards| && cards[found].busInfo != busInfo
      invariant found <= |cards|
      invariant forall i :: 0 <= i < found ==> cards[i].busInfo != busInfo
    {
      found := found + 1;
    }
  }

  /** The library's sort puts the devices in some order that respects the comparison. */
  method Sort(devices: seq<Device>) returns (order: seq<Device>)
    requires AllWellFormed(devices)
    ensures InSortOrder(order, devices)
  {
    ghost var sorted := SortedExists(devices);
    order :| multiset(order) == multiset(devices) && AllWellFormed(order) && Sorted(order);
    SortedMeans(order);
  }

  /** An outcome of sorting the devices. */
  ghost predicate InSortOrder(order: seq<Device>, devices: seq<Device>) {
    multiset(order) == multiset(devices) && AllWellFormed(order) && Ascending(order)
  }

  method Detect(devices: seq<Device>, probe: Device -> Probe) returns (cards: seq<CaptureCard>)
    requires AllWellFormed(devices)
    ensures exists order :: InSortOrder(order, devices) && Grouped(cards, order, probe)
  {
    var order := Sort(devices);
    cards := [];
    for k := 0 to |order|
      invariant Grouped(cards, order[..k], probe)
    {
      var device := order[k];
      assert order[..k + 1][..k] == order[..k];
      match probe(device)
      case Failed =>
        FailedKeeps(cards, order[..k + 1], probe);
      case Probed(busInfo, card) =>
        var found := Find(cards, busInfo);
        if found == |cards| {
          NewCard(cards, order[..k + 1], probe);
          cards := cards + [CaptureCard(busInfo, card, [device.devNode])];
        } else {
          KnownCard(cards, order[..k + 1], probe, found);
          cards := cards[found := cards[found].(devNodes := cards[found].devNodes + [device.devNode])];
        }
    }
    assert order[..|order|] == order;
  }

  lemma FailedKeeps(cards: seq<CaptureCard>, order: seq<Device>, probe: Device -> Probe)
    requires order != [] && probe(order[|order| - 1]).Failed? && Grouped(cards, order[..|order| - 1], probe)
    ensures Grouped(cards, order, probe)
  {
    var buses := Buses(order, probe);
    forall i | 0 <= i < |cards|
      ensures IsCardOf(cards[i], order, probe, buses[i])
    {
      OtherBusKeeps(cards[i], order, probe, buses[i]);
    }
  }

  /** A device elsewhere does not change the card of a bus. */
  lemma OtherBusKeeps(c: CaptureCard, order: seq<Device>, probe: Device -> Probe, busInfo: string)
    requires order != [] && !IsOn(order[|order| - 1], probe, busInfo) && IsCardOf(c, order[..|order| - 1], probe, busInfo)
    ensures IsCardOf(c, order, probe, busInfo)
  {
    assert On(order, probe, busInfo) == On(order[..|order| - 1], probe, busInfo);
  }

  lemma {:induction false} BusesExact(order: seq<Device>, probe: Device -> Probe, busInfo: string)
    ensures busInfo in Buses(order, probe) <==> On(order, probe, busInfo) != []
  {
    if order != [] {
      BusesExact(order[..|order| - 1], probe, busInfo);
    }
  }

  /** The first device on a bus begins a new card. */
  lemma FirstOnBus(order: seq<Device>, probe: Device -> Probe)
    requires order != [] && probe(order[|order| - 1]).Probed?
    requires probe(order[|order| - 1]).busInfo !in Buses(order[..|order| - 1], probe)
    ensures var d := order[|order| - 1];
            && Buses(order, probe) == Buses(order[..|order| - 1], probe) + [probe(d).busInfo]
            && IsCardOf(CaptureCard(probe(d).busInfo, probe(d).card, [d.devNode]), order, probe, probe(d).busInfo)
  {
    var d := order[|order| - 1];
    BusesExact(order[..|order| - 1], probe, probe(d).busInfo);
    assert On(order, probe, probe(d).busInfo) == [d];
    assert DevNodes([d]) == [d.devNode];
  }

  lemma NewCard(cards: seq<CaptureCard>, order: seq<Device>, probe: Device -> Probe)
    requires order != [] && Grouped(cards, order[..|order| - 1], probe)
    requires var d := order[|order| - 1]; probe(d).Probed? && forall i :: 0 <= i < |cards| ==> cards[i].busInfo != probe(d).busInfo
    ensures var d := order[|order| - 1];
            Grouped(cards + [CaptureCard(probe(d).busInfo, probe(d).card, [d.devNode])], order, probe)
  {
    var d := order[|order| - 1];
    var init := order[..|order| - 1];
    var before := Buses(init, probe);
    assert forall i :: 0 <= i < |before| ==> before[i] == cards[i].busInfo;
    hide Buses, On;
    FirstOnBus(order, probe);
    forall i | 0 <= i < |cards|
      ensures IsCardOf(cards[i], order, probe, before[i])
    {
      OtherBusKeeps(cards[i], order, probe, before[i]);
    }
  }

  lemma KnownCard(cards: seq<CaptureCard>, order: seq<Device>, probe: Device -> Probe, found: nat)
    requires order != [] && Grouped(cards, order[..|order| - 1], probe) && found < |cards|
    requires var d := order[|order| - 1]; probe(d).Probed? && cards[found].busInfo == probe(d).busInfo
    ensures var d := order[|order| - 1];
            Grouped(cards[found := cards[found].(devNodes := cards[found].devNodes + [d.devNode])], order, probe)
  {
    var d := order[|order| - 1];
    var init := order[..|order| - 1];
    var buses := Buses(init, probe);
    var bus := probe(d).busInfo;
    assert buses[found] == bus && Buses(order, probe) == buses;
    var c := cards[found].(devNodes := cards[found].devNodes + [d.devNode]);
    assert On(order, probe, bus) == On(init, probe, bus) + [d];
    assert DevNodes(On(order, probe, bus)) == DevNodes(On(init, probe, bus)) + [d.devNode];
    assert IsCardOf(c, order, probe, bus);
    BusesDistinct(init, probe);
    forall i | 0 <= i < |cards| && i != found
      ensures IsCardOf(cards[i], order, probe, buses[i])
    {
      assert buses[i] != buses[found];
      OtherBusKeeps(cards[i], order, probe, buses[i]);
    }
  }

  ghost predicate Distinct(buses: seq<string>) {
    forall i, j :: 0 <= i < j < |buses| ==> buses[i] != buses[j]
  }

  lemma {:induction false} BusesDistinct(order: seq<Device>, probe: Device -> Probe)
    ensures Distinct(Buses(order, probe))
  {
    if order != [] {
      var buses := Buses(order[..|order| - 1], probe);
      BusesDistinct(order[..|order| - 1], probe);
      assert forall i :: 0 <= i < |buses| ==> buses[i] in buses;
    }
  }

  /** The cards have pairwise distinct buses. */
  lemma CardsDistinct(cards: seq<CaptureCard>, order: seq<Device>, probe: Device -> Probe)
    requires Grouped(cards, order, probe)
    ensures forall i, j :: 0 <= i < j < |cards| ==> cards[i].busInfo != cards[j].busInfo
  {
    BusesDistinct(order, probe);
  }

  /** The devices of a card are in the order of their types and numbers. */
  lemma {:induction false} CardInOrder(order: seq<Device>, probe: Device -> Probe, busInfo: string)
    requires AllWellFormed(order) && Sorted(order)
    ensures AllWellFormed(On(order, probe, busInfo)) && Sorted(On(order, probe, busInfo))
  {
    hide Less, WellFormed;
    if order != [] {
      var init, d := order[..|order| - 1], order[|order| - 1];
      CardInOrder(init, probe, busInfo);
      var ds := On(init, probe, busInfo);
      forall i | 0 <= i < |ds|
        ensures !Less(d, ds[i])
      {
        var k :| 0 <= k < |init| && init[k] == ds[i];
        assert order[k] == ds[i];
      }
    }
  }

  /** The positions of the devices on a bus. */
  function Positions(order: seq<Device>, probe: Device -> Probe, busInfo: string): seq<nat> {
    if order == [] then []
    else
      var last := |order| - 1;
      Positions(order[..last], probe, busInfo) + if IsOn(order[last], probe, busInfo) then [last] else []
  }

  /** `f` lists all the positions of devices on the bus, in order. */
  ghost predicate Lists(f: seq<nat>, order: seq<Device>, probe: Device -> Probe, busInfo: string) {
    && AscendsBelow(f, |order|)
    && (forall p :: 0 <= p < |order| ==> (p in f <==> probe(order[p]).Probed? && probe(order[p]).busInfo == busInfo))
  }

  ghost predicate AscendsBelow(f: seq<nat>, n: nat) {
    (forall a, b :: 0 <= a < b < |f| ==> f[a] < f[b]) && (forall a :: 0 <= a < |f| ==> f[a] < n)
  }

  lemma AppendAscends(f: seq<nat>, n: nat)
    requires AscendsBelow(f, n)
    ensures AscendsBelow(f + [n], n + 1)
  {
  }

  lemma {:induction false} PositionsAscend(order: seq<Device>, probe: Device -> Probe, busInfo: string)
    ensures AscendsBelow(Positions(order, probe, busInfo), |order|)
  {
    if order != [] {
      var last := |order| - 1;
      PositionsAscend(order[..last], probe, busInfo);
      var g := Positions(order[..last], probe, busInfo);
      if IsOn(order[last], probe, busInfo) {
        assert Positions(order, probe, busInfo) == g + [last];
        AppendAscends(g, last);
      } else {
        assert Positions(order, probe, busInfo) == g;
      }
    }
  }

  lemma {:induction false} PositionsExact(order: seq<Device>, probe: Device -> Probe, busInfo: string, p: nat)
    requires p < |order|
    ensures p in Positions(order, probe, busInfo) <==> probe(order[p]).Probed? && probe(order[p]).busInfo == busInfo
  {
    var init := order[..|order| - 1];
    PositionsAscend(init, probe, busInfo);
    if p < |init| {
      PositionsExact(init, probe, busInfo, p);
      assert init[p] == order[p];
    }
  }

  lemma {:induction false} PositionsOn(order: seq<Device>, probe: Device -> Probe, busInfo: string)
    ensures |Positions(order, probe, busInfo)| == |On(order, probe, busInfo)|
    ensures forall a :: 0 <= a < |Positions(order, probe, busInfo)| ==>
      Positions(order, probe, busInfo)[a] < |order| && On(order, probe, busInfo)[a] == order[Positions(order, probe, busInfo)[a]]
  {
    if order != [] {
      PositionsOn(order[..|order| - 1], probe, busInfo);
    }
  }

  lemma PositionsList(order: seq<Device>, probe: Device -> Probe, busInfo: string)
    ensures Lists(Positions(order, probe, busInfo), order, probe, busInfo)
  {
    PositionsAscend(order, probe, busInfo);
    forall p | 0 <= p < |order|
      ensures p in Positions(order, probe, busInfo) <==> probe(order[p]).Probed? && probe(order[p]).busInfo == busInfo
    {
      PositionsExact(order, probe, busInfo, p);
    }
  }

  /** What a card is: it has the nodes of all the devices that were probed on its bus, in the order of the
      devices, in which types and then numbers ascend, and it is named by the first of them. */
  lemma {:induction false} CardListed(cards: seq<CaptureCard>, devices: seq<Device>, order: seq<Device>, probe: Device -> Probe, i: nat)
    returns (f: seq<nat>)
    requires InSortOrder(order, devices) && Grouped(cards, order, probe) && i < |cards|
    ensures Lists(f, order, probe, cards[i].busInfo)
    ensures |f| == |cards[i].devNodes| > 0 && forall a :: 0 <= a < |f| ==> cards[i].devNodes[a] == order[f[a]].devNode
    ensures cards[i].card == probe(order[f[0]]).card
    ensures forall a, b :: 0 <= a < b < |f| ==> InPlace(order[f[a]], order[f[b]])
  {
    hide InPlace, WellFormed, Buses;
    f := Positions(order, probe, cards[i].busInfo);
    PositionsList(order, probe, cards[i].busInfo);
    PositionsOn(order, probe, cards[i].busInfo);
    assert IsCardOf(cards[i], order, probe, Buses(order, probe)[i]);
    assert f[0] in f;
  }

  /** The cards are in the order of their first devices. */
  lemma {:induction false} CardsByFirstDevice(order: seq<Device>, probe: Device -> Probe, i: nat, j: nat, q: nat)
    requires i < j < |Buses(order, probe)| && q < |order| && IsOn(order[q], probe, Buses(order, probe)[j])
    ensures exists p :: 0 <= p < q && IsOn(order[p], probe, Buses(order, probe)[i])
  {
    var init := order[..|order| - 1];
    var buses := Buses(init, probe);
    if q < |init| {
      BusesExact(init, probe, Buses(order, probe)[j]);
      OnMember(init, probe, q, Buses(order, probe)[j]);
      assert j < |buses| by {
        BusesDistinct(order, probe);
      }
      CardsByFirstDevice(init, probe, i, j, q);
      var p :| 0 <= p < q && IsOn(init[p], probe, buses[i]);
      assert IsOn(order[p], probe, Buses(order, probe)[i]);
    } else {
      var bus := Buses(order, probe)[i];
      assert buses[i] == bus && bus in buses;
      BusesExact(init, probe, bus);
      var d := On(init, probe, bus)[0];
      var p :| 0 <= p < |init| && init[p] == d;
      assert IsOn(order[p], probe, bus);
    }
  }

  lemma {:induction false} OnMember(order: seq<Device>, probe: Device -> Probe, q: nat, busInfo: string)
    requires q < |order| && IsOn(order[q], probe, busInfo)
    ensures On(order, probe, busInfo) != []
  {
    if q < |order| - 1 {
      OnMember(order[..|order| - 1], probe, q, busInfo);
    }
  }

  /** The devices that could be probed. */
  function Answering(order: seq<Device>, probe: Device -> Probe): seq<Device> {
    if order == [] then []
    else
      var d := order[|order| - 1];
      Answering(order[..|order| - 1], probe) + if probe(d).Probed? then [d] else []
  }

  /** The devices on any of the buses, with their multiplicities. */
  function Collected(buses: seq<string>, order: seq<Device>, probe: Device -> Probe): multiset<Device> {
    if buses == [] then multiset{}
    else Collected(buses[..|buses| - 1], order, probe) + multiset(On(order, probe, buses[|buses| - 1]))
  }

  lemma {:induction false} CollectedNext(buses: seq<string>, order: seq<Device>, probe: Device -> Probe)
    requires order != [] && Distinct(buses)
    ensures var d := order[|order| - 1];
      Collected(buses, order, probe) == Collected(buses, order[..|order| - 1], probe)
        + if probe(d).Probed? && probe(d).busInfo in buses then multiset{d} else multiset{}
  {
    if buses != [] {
      var d, last := order[|order| - 1], buses[|buses| - 1];
      assert buses == buses[..|buses| - 1] + [last];
      CollectedNext(buses[..|buses| - 1], order, probe);
      assert multiset(On(order, probe, last)) == multiset(On(order[..|order| - 1], probe, last))
                                                 + if IsOn(d, probe, last) then multiset{d} else multiset{};
      assert last !in buses[..|buses| - 1];
    }
  }

  lemma {:induction false} CollectedNone(buses: seq<string>, probe: Device -> Probe)
    ensures Collected(buses, [], probe) == multiset{}
  {
    if buses != [] {
      CollectedNone(buses[..|buses| - 1], probe);
    }
  }

  /** Every device that could be probed is in exactly one card, exactly as often as it is listed; the
      others are in none. */
  lemma {:induction false} EveryDeviceOnce(order: seq<Device>, probe: Device -> Probe)
    ensures Collected(Buses(order, probe), order, probe) == multiset(Answering(order, probe))
  {
    if order == [] {
      CollectedNone(Buses(order, probe), probe);
    } else {
      var init, d := order[..|order| - 1], order[|order| - 1];
      var before, buses := Buses(init, probe), Buses(order, probe);
      EveryDeviceOnce(init, probe);
      BusesDistinct(order, probe);
      CollectedNext(buses, order, probe);
      if buses != before {
        assert buses[..|buses| - 1] == before;
        BusesExact(init, probe, probe(d).busInfo);
      }
    }
  }
}
