/** What a subscriber does get: every kind of event, told by the sets, the event and its payload alone. */
module SseDelivery {
  import opened Common
  import opened SseStream

  /** Parent i is the data center, and no parent before it is called "not found". */
  ghost predicate ReachedAt(parents: seq<string>, dc: string, i: nat) {
    i < |parents| && parents[i] == dc && forall j :: 0 <= j < i ==> parents[j] != "not found"
  }

  ghost predicate Inside(e: Event, dc: string)
    requires e.AssetEvent?
  {
    dc == "not found" || exists i :: ReachedAt(e.parents, dc, i)
  }

  lemma {:induction false} InsideAmong(parents: seq<string>, dc: string)
    ensures InDatacenter(parents, dc) <==> dc == "not found" || exists i :: ReachedAt(parents, dc, i)
  {
    if parents != [] {
      InsideAmong(parents[1..], dc);
      assert ReachedAt(parents, dc, 0) <==> parents[0] == dc;
      if i: nat :| ReachedAt(parents[1..], dc, i) {
        ReachedBehind(parents, dc, i);
      }
      if i: nat :| ReachedAt(parents, dc, i) && i > 0 {
        ReachedBehind(parents, dc, i - 1);
      }
    }
  }

  lemma ReachedBehind(parents: seq<string>, dc: string, i: nat)
    requires parents != []
    ensures ReachedAt(parents, dc, i + 1) <==> parents[0] != "not found" && ReachedAt(parents[1..], dc, i)
  {
    var rest := parents[1..];
    assert forall j :: 0 <= j < |rest| ==> rest[j] == parents[j + 1];
    if parents[0] != "not found" && ReachedAt(rest, dc, i) {
      forall j | 0 <= j < i + 1
        ensures parents[j] != "not found"
      {
        assert j > 0 ==> parents[j] == rest[j - 1];
      }
    }
  }

  /** What an available asset sends: its payload. An unknown asset or an empty payload sends nothing. */
  function Payload(e: Event): seq<Message>
    requires e.AssetEvent?
  {
    if e.elemId != -1 && e.payload != "" then [Changed(e.name, e.payload)] else []
  }

  /** A change of an asset of the data center sends its payload and leaves the sets alone. */
  lemma ChangeIsSent(s: State, e: Event, dc: string)
    requires e.AssetEvent? && (e.op == Update || e.op == Inventory) && e.name in s.assets
    ensures Messages(s, e, dc) == Payload(e) && After(s, e, dc) == s
  {
  }

  /** A change of an asset without location moves it into the data center and sends its payload, or removes it. */
  lemma PlacedIsSent(s: State, e: Event, dc: string)
    requires e.AssetEvent? && (e.op == Update || e.op == Inventory) && e.name !in s.assets && e.name in s.noLocation
    ensures After(s, e, dc).noLocation == s.noLocation - {e.name} && After(s, e, dc).alerts == s.alerts
    ensures if Inside(e, dc)
            then Messages(s, e, dc) == Payload(e) && After(s, e, dc).assets == s.assets + {e.name}
            else Messages(s, e, dc) == [Removed(e.name)] && After(s, e, dc).assets == s.assets
  {
    InsideAmong(e.parents, dc);
  }

  /** A creation inside the data center, or of a device without location, tracks the asset and sends its payload. */
  lemma CreationIsSent(s: State, e: Event, dc: string)
    requires e.AssetEvent? && e.op == Create
    ensures After(s, e, dc).alerts == s.alerts
    ensures if e.parent != "0" && Inside(e, dc) then
              Messages(s, e, dc) == Payload(e)
              && After(s, e, dc).assets == s.assets + {e.name} && After(s, e, dc).noLocation == s.noLocation
            else if e.parent == "0" && (e.typ == "device" || e.typ == "none") then
              Messages(s, e, dc) == Payload(e)
              && After(s, e, dc).assets == s.assets && After(s, e, dc).noLocation == s.noLocation + {e.name}
            else Messages(s, e, dc) == [] && After(s, e, dc) == s
  {
    InsideAmong(e.parents, dc);
  }

  /** A delete of a tracked asset sends its removal, and only that. */
  lemma DeleteIsSent(s: State, e: Event, dc: string)
    requires e.AssetEvent? && e.op == Delete
    ensures Messages(s, e, dc) == if e.name in s.assets || e.name in s.noLocation then [Removed(e.name)] else []
    ensures After(s, e, dc).alerts == s.alerts
    ensures if e.name in s.assets
            then After(s, e, dc).assets == s.assets - {e.name} && After(s, e, dc).noLocation == s.noLocation
            else After(s, e, dc).assets == s.assets && After(s, e, dc).noLocation == s.noLocation - {e.name}
  {
  }

  /** The remaining events of an asset: an unknown operation, or a change of one that is not tracked. */
  lemma OthersAreDropped(s: State, e: Event, dc: string)
    requires e.AssetEvent? && (e.op == OtherOperation ||
               ((e.op == Update || e.op == Inventory) && e.name !in s.assets && e.name !in s.noLocation))
    ensures Messages(s, e, dc) == [] && After(s, e, dc) == s
  {
  }

  /** An alert with a payload on an asset of the data center is sent under its rule, unless its state is known. */
  lemma AlertIsSent(s: State, e: Event, dc: string)
    requires e.AlertEvent?
    ensures var eligible := e.name in s.assets && e.payload != "";
            var known := e.rule in s.alerts && s.alerts[e.rule] == e.alert;
            && Messages(s, e, dc) == (if eligible && !known then [Alarm(e.rule, e.payload)] else [])
            && After(s, e, dc).assets == s.assets && After(s, e, dc).noLocation == s.noLocation
            && After(s, e, dc).alerts == if eligible then s.alerts[e.rule := e.alert] else s.alerts
  {
    if e.rule in s.alerts && s.alerts[e.rule] == e.alert {
      assert s.alerts[e.rule := e.alert] == s.alerts;
    }
  }

  /** A message without asset, or of an asset of the data center, passes with its own topic and payload. */
  lemma GenericIsSent(s: State, e: Event, dc: string)
    requires e.GenericEvent?
    ensures After(s, e, dc) == s
    ensures Messages(s, e, dc) == if e.assetId == "" || e.assetId in s.assets then [Generic(e.topic, e.payload)] else []
  {
  }

  // ---------- whole runs ----------

  predicate Deletes(e: Event, name: string) {
    e.AssetEvent? && e.op == Delete && e.name == name
  }

  /** An asset of the data center stays one until it is deleted. */
  lemma {:induction false} StaysInDatacenter(s: State, events: seq<Event>, dc: string, name: string, i: nat, j: nat)
    requires i <= j <= |events| && name in StateAt(s, events, dc, i).assets
    requires forall k :: i <= k < j ==> !Deletes(events[k], name)
    ensures name in StateAt(s, events, dc, j).assets
  {
    if i < j {
      StaysInDatacenter(s, events, dc, name, i, j - 1);
      OneEvent(StateAt(s, events, dc, j - 1), events[j - 1], dc, name);
    }
  }

  lemma OneEvent(s: State, e: Event, dc: string, name: string)
    requires name in s.assets && !Deletes(e, name)
    ensures name in After(s, e, dc).assets
  {
  }

  /** How an asset gets into the data center: by a creation inside it, or by a change of an unlocated one inside it. */
  ghost predicate Arrives(s: State, e: Event, dc: string) {
    && e.AssetEvent? && Inside(e, dc)
    && ((e.op == Create && e.parent != "0") || ((e.op == Update || e.op == Inventory) && e.name in s.noLocation))
  }

  /** Event i brings the asset into the data center. */
  ghost predicate ArrivesAt(s: State, events: seq<Event>, dc: string, name: string, i: nat) {
    i < |events| && events[i].AssetEvent? && events[i].name == name && Arrives(StateAt(s, events, dc, i), events[i], dc)
  }

  /** None of the first n events deletes the asset, after event i. */
  ghost predicate Kept(events: seq<Event>, name: string, i: int, n: nat) {
    n <= |events| && forall k :: 0 <= k < n && i < k ==> !Deletes(events[k], name)
  }

  ghost predicate ArrivedAndKept(s: State, events: seq<Event>, dc: string, name: string, n: nat) {
    exists i: nat :: i < n && ArrivesAt(s, events, dc, name, i) && Kept(events, name, i, n)
  }

  lemma OneMoreEvent(s: State, events: seq<Event>, dc: string, name: string, n: nat)
    requires n < |events|
    ensures Kept(events, name, -1, n + 1) <==> Kept(events, name, -1, n) && !Deletes(events[n], name)
    ensures ArrivedAndKept(s, events, dc, name, n + 1) <==>
            ArrivesAt(s, events, dc, name, n) ||
            (ArrivedAndKept(s, events, dc, name, n) && !Deletes(events[n], name))
  {
    forall i: nat | i < n
      ensures Kept(events, name, i, n + 1) <==> Kept(events, name, i, n) && !Deletes(events[n], name)
    {
    }
    assert Kept(events, name, n, n + 1);
  }

  /** The assets of the data center are, at every moment, those that were or arrived and were not deleted since. */
  lemma {:induction false} AssetsOfARun(s: State, events: seq<Event>, dc: string, name: string, n: nat)
    requires n <= |events|
    ensures name in StateAt(s, events, dc, n).assets <==>
            (name in s.assets && Kept(events, name, -1, n)) || ArrivedAndKept(s, events, dc, name, n)
  {
    if n > 0 {
      AssetsOfARun(s, events, dc, name, n - 1);
      OneArrival(StateAt(s, events, dc, n - 1), events[n - 1], dc, name);
      OneMoreEvent(s, events, dc, name, n - 1);
    }
  }

  lemma OneArrival(s: State, e: Event, dc: string, name: string)
    ensures name in After(s, e, dc).assets <==>
            (name in s.assets && !Deletes(e, name)) || (e.AssetEvent? && e.name == name && Arrives(s, e, dc))
  {
    if e.AssetEvent? {
      InsideAmong(e.parents, dc);
    }
  }

  /**
   * Delivery: from its arrival in the data center until its deletion, every change of an asset is sent with its
   * payload, every alert with a new state under its rule, and every message on its behalf.
   */
  lemma FollowedFromArrivalToDelete(s: State, events: seq<Event>, dc: string, i: nat, j: nat)
    requires i < j < |events| && Arrives(StateAt(s, events, dc, i), events[i], dc)
    requires forall k :: i < k < j ==> !Deletes(events[k], events[i].name)
    ensures var name, at, e := events[i].name, StateAt(s, events, dc, j), events[j];
            && SentAt(s, events, dc, i) == Payload(events[i])
            && (e.AssetEvent? && e.name == name && (e.op == Update || e.op == Inventory) ==>
                  SentAt(s, events, dc, j) == Payload(e))
            && (e.AssetEvent? && e.name == name && e.op == Delete ==> SentAt(s, events, dc, j) == [Removed(name)])
            && (e.AlertEvent? && e.name == name && e.payload != "" &&
                !(e.rule in at.alerts && at.alerts[e.rule] == e.alert) ==>
                  SentAt(s, events, dc, j) == [Alarm(e.rule, e.payload)])
            && (e.GenericEvent? && e.assetId == name ==> SentAt(s, events, dc, j) == [Generic(e.topic, e.payload)])
  {
    var name, start := events[i].name, StateAt(s, events, dc, i);
    OneArrival(start, events[i], dc, name);
    InsideAmong(events[i].parents, dc);
    StaysInDatacenter(s, events, dc, name, i + 1, j);
  }
}
