/** The event stream of one subscriber: which assets it tracks and which messages reach it. */
module SseStream {
  import opened Common

  datatype Operation = Create | Update | Inventory | Delete | OtherOperation

  datatype AlertState = AlertState(state: string, severity: string)

  /**
   * What arrives. parents holds parent_name.1, parent_name.2, ...; parent and typ are the "parent" and "type"
   * fields with their defaults "0" and "none"; elemId and payload are what the database answers (-1: no such asset).
   */
  datatype Event =
    | AssetEvent(name: string, op: Operation, parent: string, typ: string, parents: seq<string>,
                 elemId: int, payload: string)
    | AlertEvent(name: string, rule: string, alert: AlertState, payload: string)
    | GenericEvent(topic: string, payload: string, assetId: string)

  /** What is sent. A removal carries an empty payload. */
  datatype Message =
    | Removed(name: string)
    | Changed(name: string, payload: string)
    | Alarm(rule: string, payload: string)
    | Generic(topic: string, payload: string)

  /** Assets of the data center, devices without a location, and the last published state of each rule. */
  datatype State = State(assets: set<string>, noLocation: set<string>, alerts: map<string, AlertState>)

  const NOT_FOUND := "not found"

  /** The data center is among the parents; a parent called "not found" hides those behind it. */
  predicate InDatacenter(parents: seq<string>, datacenter: string) {
    if parents == [] then datacenter == NOT_FOUND
    else parents[0] == datacenter || (parents[0] != NOT_FOUND && InDatacenter(parents[1..], datacenter))
  }

  lemma {:induction false} InDatacenterMeansMember(parents: seq<string>, datacenter: string)
    requires NOT_FOUND !in parents && datacenter != NOT_FOUND
    ensures InDatacenter(parents, datacenter) <==> datacenter in parents
  {
    if parents != [] {
      InDatacenterMeansMember(parents[1..], datacenter);
    }
  }

  // ---------- one step, by its effect ----------

  predicate Tracked(s: State, name: string) {
    name in s.assets || name in s.noLocation
  }

  /** The asset enters the data center with this event. */
  predicate Enters(s: State, e: Event, dc: string)
    requires e.AssetEvent?
  {
    match e.op
    case Create => e.parent != "0" && InDatacenter(e.parents, dc)
    case Update => e.name !in s.assets && e.name in s.noLocation && InDatacenter(e.parents, dc)
    case Inventory => e.name !in s.assets && e.name in s.noLocation && InDatacenter(e.parents, dc)
    case _ => false
  }

  /** A device that is created without a location. */
  predicate AppearsUnlocated(e: Event)
    requires e.AssetEvent?
  {
    e.op == Create && e.parent == "0" && (e.typ == "device" || e.typ == "none")
  }

  /** The asset disappears for the subscriber with this event. */
  predicate Leaves(s: State, e: Event, dc: string)
    requires e.AssetEvent?
  {
    match e.op
    case Delete => Tracked(s, e.name)
    case Create => false
    case OtherOperation => false
    case _ => e.name !in s.assets && e.name in s.noLocation && !InDatacenter(e.parents, dc)
  }

  function AfterAsset(s: State, e: Event, dc: string): State
    requires e.AssetEvent?
  {
    if e.op == Delete && e.name in s.assets then s.(assets := s.assets - {e.name})
    else
      s.(assets := if Enters(s, e, dc) then s.assets + {e.name} else s.assets,
         noLocation := if AppearsUnlocated(e) then s.noLocation + {e.name}
                       else if e.op != Create && e.op != OtherOperation && e.name !in s.assets
                       then s.noLocation - {e.name} else s.noLocation)
  }

  /** A removal for a leaving asset, the new payload for an asset that is tracked after a change. */
  function AssetMessages(s: State, e: Event, dc: string): seq<Message>
    requires e.AssetEvent?
  {
    if Leaves(s, e, dc) then [Removed(e.name)]
    else if e.op == Delete || e.op == OtherOperation then []
    else if e.op == Create && !Enters(s, e, dc) && !AppearsUnlocated(e) then []
    else if e.op != Create && !Tracked(s, e.name) then []
    else if e.elemId == -1 || e.payload == "" then []
    else [Changed(e.name, e.payload)]
  }

  predicate Eligible(s: State, e: Event) {
    e.AlertEvent? && e.name in s.assets && e.payload != ""
  }

  predicate Publishes(s: State, e: Event) {
    Eligible(s, e) && !(e.rule in s.alerts && s.alerts[e.rule] == e.alert)
  }

  function After(s: State, e: Event, dc: string): State {
    match e
    case AssetEvent(_, _, _, _, _, _, _) => AfterAsset(s, e, dc)
    case AlertEvent(_, rule, alert, _) => if Eligible(s, e) then s.(alerts := s.alerts[rule := alert]) else s
    case GenericEvent(_, _, _) => s
  }

  function Messages(s: State, e: Event, dc: string): seq<Message> {
    match e
    case AssetEvent(_, _, _, _, _, _, _) => AssetMessages(s, e, dc)
    case AlertEvent(_, rule, _, payload) => if Publishes(s, e) then [Alarm(rule, payload)] else []
    case GenericEvent(topic, payload, assetId) =>
      if assetId != "" && assetId !in s.assets then [] else [Generic(topic, payload)]
  }

  // ---------- the class ----------

  class Sse {
    var assetsOfDatacenter: set<string>
    var assetsWithNoLocation: set<string>
    var alertStates: map<string, AlertState>
    const datacenter: string

    constructor (datacenter: string, assets: set<string>, noLocation: set<string>)
      ensures this.datacenter == datacenter && Abstract() == State(assets, noLocation, map[])
    {
      this.datacenter := datacenter;
      assetsOfDatacenter, assetsWithNoLocation, alertStates := assets, noLocation, map[];
    }

    ghost function Abstract(): State
      reads this
    {
      State(assetsOfDatacenter, assetsWithNoLocation, alertStates)
    }

    /** isAssetInDatacenter: ask for parent_name.i until it is the data center or missing. */
    method IsAssetInDatacenter(e: Event) returns (found: bool)
      requires e.AssetEvent?
      ensures found == InDatacenter(e.parents, datacenter)
    {
      var i := 0;
      var parentName := if i < |e.parents| then e.parents[i] else NOT_FOUND;
      found := parentName == datacenter;
      while !found && parentName != NOT_FOUND
        invariant 0 <= i <= |e.parents|
        invariant parentName == if i < |e.parents| then e.parents[i] else NOT_FOUND
        invariant found == (parentName == datacenter)
        invariant InDatacenter(e.parents, datacenter) == InDatacenter(e.parents[i..], datacenter)
        decreases |e.parents| - i
      {
        i := i + 1;
        parentName := if i < |e.parents| then e.parents[i] else NOT_FOUND;
        found := parentName == datacenter;
      }
    }

    /** changeFtyProtoAsset2Json. */
    method ChangeAsset(e: Event) returns (json: seq<Message>)
      requires e.AssetEvent?
      modifies this
      ensures Abstract() == After(old(Abstract()), e, datacenter)
      ensures json == Messages(old(Abstract()), e, datacenter)
    {
      json := [];
      if e.op == Delete {
        if e.name !in assetsOfDatacenter {
          if e.name in assetsWithNoLocation {
            assetsWithNoLocation := assetsWithNoLocation - {e.name};
          } else {
            return;
          }
        } else {
          assetsOfDatacenter := assetsOfDatacenter - {e.name};
        }
        json := [Removed(e.name)];
      } else if e.op == Update || e.op == Inventory || e.op == Create {
        if e.op == Update || e.op == Inventory {
          if e.name !in assetsOfDatacenter {
            if e.name in assetsWithNoLocation {
              assetsWithNoLocation := assetsWithNoLocation - {e.name};
              var inside := IsAssetInDatacenter(e);
              if !inside {
                // not in the data center: tell the subscriber that it is gone
                json := [Removed(e.name)];
              } else {
                assetsOfDatacenter := assetsOfDatacenter + {e.name};
              }
            } else {
              return;
            }
          }
        } else {
          if e.parent == "0" {
            if e.typ == "device" || e.typ == "none" {
              assetsWithNoLocation := assetsWithNoLocation + {e.name};
            } else {
              return;
            }
          } else {
            var inside := IsAssetInDatacenter(e);
            if !inside {
              return;
            }
            assetsOfDatacenter := assetsOfDatacenter + {e.name};
          }
        }
        if e.elemId == -1 {
          return;
        }
        if json == [] && e.payload != "" {
          json := [Changed(e.name, e.payload)];
        }
      }
    }

    /** shouldPublishAlert: remember the state of the rule, and tell whether it is a new one. */
    method ShouldPublishAlert(rule: string, alert: AlertState) returns (r: bool)
      modifies this`alertStates
      ensures r <==> !(rule in old(alertStates) && old(alertStates)[rule] == alert)
      ensures alertStates == old(alertStates)[rule := alert]
    {
      r := true;
      if rule in alertStates {
        if alertStates[rule] == alert {
          r := false;
        } else {
          alertStates := alertStates[rule := alert];
        }
      } else {
        alertStates := alertStates[rule := alert];
      }
    }

    /** changeFtyProtoAlert2Json. */
    method ChangeAlert(e: Event) returns (json: seq<Message>)
      requires e.AlertEvent?
      modifies this
      ensures Abstract() == After(old(Abstract()), e, datacenter)
      ensures json == Messages(old(Abstract()), e, datacenter)
    {
      if e.name !in assetsOfDatacenter {
        return [];
      }
      if e.payload != "" {
        var publish := ShouldPublishAlert(e.rule, e.alert);
        if !publish {
          return [];
        }
        return [Alarm(e.rule, e.payload)];
      }
      return [];
    }

    /** changeSseMessage2Json. */
    method ChangeMessage(e: Event) returns (json: seq<Message>)
      requires e.GenericEvent?
      ensures json == Messages(Abstract(), e, datacenter)
    {
      if e.assetId != "" && e.assetId !in assetsOfDatacenter {
        return [];
      }
      return [Generic(e.topic, e.payload)];
    }
  }

  // ---------- whole runs ----------

  /** The state before event i of a run. */
  function StateAt(s: State, events: seq<Event>, dc: string, i: nat): State
    requires i <= |events|
  {
    if i == 0 then s else After(StateAt(s, events, dc, i - 1), events[i - 1], dc)
  }

  function SentAt(s: State, events: seq<Event>, dc: string, i: nat): seq<Message>
    requires i < |events|
  {
    Messages(StateAt(s, events, dc, i), events[i], dc)
  }

  predicate Disjoint(s: State) {
    s.assets !! s.noLocation
  }

  /** A creation that would put a name into one set while it is in the other. */
  predicate CrossesSets(s: State, e: Event, dc: string) {
    e.AssetEvent? && e.op == Create &&
    ((Enters(s, e, dc) && e.name in s.noLocation) || (AppearsUnlocated(e) && e.name in s.assets))
  }

  /** The sets stay disjoint in every step but those. */
  lemma StepKeepsDisjoint(s: State, e: Event, dc: string)
    requires Disjoint(s)
    ensures Disjoint(After(s, e, dc)) <==> !CrossesSets(s, e, dc)
  {
    if CrossesSets(s, e, dc) {
      assert e.name in After(s, e, dc).assets && e.name in After(s, e, dc).noLocation;
    }
  }

  /** Over whole runs: if creations are for untracked names only, the sets are disjoint at every moment. */
  lemma {:induction false} RunKeepsDisjoint(s: State, events: seq<Event>, dc: string, i: nat)
    requires Disjoint(s) && i <= |events|
    requires forall k :: 0 <= k < i && events[k].AssetEvent? && events[k].op == Create ==>
               !Tracked(StateAt(s, events, dc, k), events[k].name)
    ensures Disjoint(StateAt(s, events, dc, i))
  {
    if i > 0 {
      RunKeepsDisjoint(s, events, dc, i - 1);
      StepKeepsDisjoint(StateAt(s, events, dc, i - 1), events[i - 1], dc);
    }
  }

  /** A new payload is only ever sent for an asset that is tracked from then on. */
  lemma ChangesAreTracked(s: State, e: Event, dc: string, name: string, payload: string)
    requires Changed(name, payload) in Messages(s, e, dc)
    ensures Tracked(After(s, e, dc), name)
  {
  }

  /** The message is about the asset: its removal or payload, or something sent on its behalf. */
  predicate About(e: Event, m: Message, name: string) {
    match m
    case Removed(n) => n == name
    case Changed(n, _) => n == name
    case Alarm(_, _) => e.AlertEvent? && e.name == name
    case Generic(_, _) => e.GenericEvent? && e.assetId == name
  }

  predicate Creates(e: Event, name: string) {
    e.AssetEvent? && e.op == Create && e.name == name
  }

  /** After a removal the asset is untracked, exactly unless it was in both sets. */
  lemma RemovalUntracks(s: State, e: Event, dc: string, name: string)
    requires Removed(name) in Messages(s, e, dc)
    ensures !Tracked(After(s, e, dc), name) <==> !(name in s.assets && name in s.noLocation)
  {
  }

  /** An untracked asset stays untracked and silent until it is created. */
  lemma UntrackedIsSilent(s: State, e: Event, dc: string, name: string)
    requires !Tracked(s, name) && name != "" && !Creates(e, name)
    ensures !Tracked(After(s, e, dc), name)
    ensures forall m :: m in Messages(s, e, dc) ==> !About(e, m, name)
  {
  }

  lemma {:induction false} StaysUntracked(s: State, events: seq<Event>, dc: string, name: string, i: nat, j: nat)
    requires i <= j <= |events| && name != "" && !Tracked(StateAt(s, events, dc, i), name)
    requires forall k :: i <= k < j ==> !Creates(events[k], name)
    ensures !Tracked(StateAt(s, events, dc, j), name)
  {
    if i < j {
      StaysUntracked(s, events, dc, name, i, j - 1);
      UntrackedIsSilent(StateAt(s, events, dc, j - 1), events[j - 1], dc, name);
    }
  }

  /**
   * Removal safety: once a removal was sent for an asset, nothing about it is sent until a later creation,
   * in every run in which only untracked names are created.
   */
  lemma SilentAfterRemoval(s: State, events: seq<Event>, dc: string, name: string, i: nat, j: nat)
    requires Disjoint(s) && name != "" && i < j < |events|
    requires forall k :: 0 <= k < i && events[k].AssetEvent? && events[k].op == Create ==>
               !Tracked(StateAt(s, events, dc, k), events[k].name)
    requires Removed(name) in SentAt(s, events, dc, i)
    requires forall k :: i < k <= j ==> !Creates(events[k], name)
    ensures forall m :: m in SentAt(s, events, dc, j) ==> !About(events[j], m, name)
  {
    RunKeepsDisjoint(s, events, dc, i);
    RemovalUntracks(StateAt(s, events, dc, i), events[i], dc, name);
    StaysUntracked(s, events, dc, name, i + 1, j);
    UntrackedIsSilent(StateAt(s, events, dc, j), events[j], dc, name);
  }

  /**
   * Without that assumption it fails: a device of the data center that is created again without a location
   * is in both sets, is reported as removed, and the next update sends its payload.
   */
  lemma RemovedAssetComesBack()
    ensures var s := State({"ups"}, {}, map[]);
            var events := [AssetEvent("ups", Create, "0", "device", [], 1, "p"),
                           AssetEvent("ups", Delete, "0", "device", [], 1, "p"),
                           AssetEvent("ups", Update, "7", "device", ["dc"], 1, "p")];
            && SentAt(s, events, "dc", 1) == [Removed("ups")]
            && SentAt(s, events, "dc", 2) == [Changed("ups", "p")]
  {
    var s := State({"ups"}, {}, map[]);
    var events := [AssetEvent("ups", Create, "0", "device", [], 1, "p"),
                   AssetEvent("ups", Delete, "0", "device", [], 1, "p"),
                   AssetEvent("ups", Update, "7", "device", ["dc"], 1, "p")];
    assert StateAt(s, events, "dc", 1) == State({"ups"}, {"ups"}, map[]);
    assert StateAt(s, events, "dc", 2) == State({}, {"ups"}, map[]);
  }

  // ---------- the alert stream of one rule ----------

  /** The states of the rule's alerts that concern a tracked asset and have a payload, in order. */
  function EligibleStates(s: State, events: seq<Event>, dc: string, rule: string): seq<AlertState>
    decreases |events|
  {
    if events == [] then []
    else
      (if Eligible(s, events[0]) && events[0].rule == rule then [events[0].alert] else []) +
      EligibleStates(After(s, events[0], dc), events[1..], dc, rule)
  }

  /** The states of the rule's alerts for which a message was sent, in order. */
  function PublishedStates(s: State, events: seq<Event>, dc: string, rule: string): seq<AlertState>
    decreases |events|
  {
    if events == [] then []
    else
      (if events[0].AlertEvent? && events[0].rule == rule && Messages(s, events[0], dc) != [] then [events[0].alert]
       else []) +
      PublishedStates(After(s, events[0], dc), events[1..], dc, rule)
  }

  /** Drop what repeats its predecessor; the first element is compared with last. */
  function Destuttered(last: Option<AlertState>, states: seq<AlertState>): seq<AlertState>
    decreases |states|
  {
    if states == [] then []
    else (if last == Some(states[0]) then [] else [states[0]]) + Destuttered(Some(states[0]), states[1..])
  }

  function LastState(s: State, rule: string): Option<AlertState> {
    if rule in s.alerts then Some(s.alerts[rule]) else None
  }

  /** Exactly the changes of state get through. */
  lemma {:induction false} PublishedIsDestuttered(s: State, events: seq<Event>, dc: string, rule: string)
    ensures PublishedStates(s, events, dc, rule) ==
            Destuttered(LastState(s, rule), EligibleStates(s, events, dc, rule))
    decreases |events|
  {
    if events != [] {
      var e, rest := events[0], events[1..];
      var s' := After(s, e, dc);
      PublishedIsDestuttered(s', rest, dc, rule);
      var states := EligibleStates(s', rest, dc, rule);
      if Eligible(s, e) && e.rule == rule {
        assert EligibleStates(s, events, dc, rule) == [e.alert] + states;
        assert ([e.alert] + states)[1..] == states;
      } else {
        assert EligibleStates(s, events, dc, rule) == states;
        assert LastState(s', rule) == LastState(s, rule);
      }
    }
  }

  lemma {:induction false} DestutteredHasNoRepeats(last: Option<AlertState>, states: seq<AlertState>)
    ensures var d := Destuttered(last, states);
            && (d != [] ==> last != Some(d[0]))
            && (forall i :: 0 <= i < |d| - 1 ==> d[i] != d[i + 1])
            && (d == [] ==> forall i :: 0 <= i < |states| ==> last == Some(states[i]))
    decreases |states|
  {
    if states != [] {
      DestutteredHasNoRepeats(Some(states[0]), states[1..]);
      var d, t := Destuttered(last, states), Destuttered(Some(states[0]), states[1..]);
      if last != Some(states[0]) {
        assert d == [states[0]] + t;
        forall i | 0 <= i < |d| - 1
          ensures d[i] != d[i + 1]
        {
          if i > 0 {
            assert d[i] == t[i - 1] && d[i + 1] == t[i];
          }
        }
      }
    }
  }

  /** So no two consecutive published states of a rule are equal. */
  lemma NoRepeatedAlarm(s: State, events: seq<Event>, dc: string, rule: string, i: nat)
    requires i + 1 < |PublishedStates(s, events, dc, rule)|
    ensures PublishedStates(s, events, dc, rule)[i] != PublishedStates(s, events, dc, rule)[i + 1]
  {
    PublishedIsDestuttered(s, events, dc, rule);
    DestutteredHasNoRepeats(LastState(s, rule), EligibleStates(s, events, dc, rule));
  }
}
