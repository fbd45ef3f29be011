/** main.py: the registry of live-tracking connections (`WebSocketManager`) and
    the periodic driver `run_geo_checks`. A connection is a handle known by its identity; the
    `accept` and `send_text` calls a manager makes are recorded, in order, in a
    ghost log. */
module App {
  import opened Common
  import opened Store
  import opened BgTasks

  /** A websocket connection. */
  datatype Handle = Handle(id: nat)

  /** A call a manager makes on a connection. */
  datatype Event = Accept(handle: Handle) | Send(handle: Handle, message: string)

  /** `active_connections`: asset id to the list of its connections. */
  type Registry = map<int, seq<Handle>>

  /** No asset maps to an empty list: `disconnect` deletes a key once its list empties. */
  predicate NoEmptyLists(reg: Registry) {
    forall k :: k in reg ==> reg[k] != []
  }

  /** The connections of an asset; an absent key has none. */
  function Connected(reg: Registry, assetId: int): seq<Handle> {
    if assetId in reg then reg[assetId] else []
  }

  /** The registry change of `connect`: the handle goes to the end of the asset's
      list, which is created when absent; duplicates are kept. */
  function ConnectSpec(reg: Registry, assetId: int, h: Handle): (r: Registry)
    ensures r.Keys == reg.Keys + {assetId}
    ensures Connected(r, assetId) == Connected(reg, assetId) + [h]
    ensures forall k :: k in reg && k != assetId ==> r[k] == reg[k]
  {
    reg[assetId := Connected(reg, assetId) + [h]]
  }

  /** The position of the first occurrence of `h` in `s`. */
  function IndexOf(s: seq<Handle>, h: Handle): (i: nat)
    requires h in s
    ensures i < |s| && s[i] == h && h !in s[..i]
  {
    if s[0] == h then 0
    else
      assert s == [s[0]] + s[1..];
      var j := IndexOf(s[1..], h);
      assert s[..j + 1] == [s[0]] + s[1..][..j];
      j + 1
  }

  /** Python's `list.remove(h)`: drops the first occurrence; None where it raises
      ValueError because `h` is not in the list. */
  function RemoveFirst(s: seq<Handle>, h: Handle): (r: Option<seq<Handle>>)
    ensures r.None? <==> h !in s
    ensures r.Some? ==> r.value == s[..IndexOf(s, h)] + s[IndexOf(s, h) + 1..]
  {
    if |s| == 0 then None
    else if s[0] == h then Some(s[1..])
    else
      match RemoveFirst(s[1..], h)
      case None =>
        assert s == [s[0]] + s[1..];
        None
      case Some(rest) =>
        assert s == [s[0]] + s[1..];
        var j := IndexOf(s[1..], h);
        assert IndexOf(s, h) == j + 1;
        assert s[..j + 1] == [s[0]] + s[1..][..j];
        assert s[j + 2..] == s[1..][j + 1..];
        Some([s[0]] + rest)
  }

  /** Removing takes exactly one copy of the handle out of the list. */
  lemma RemoveFirstTakesOneCopy(s: seq<Handle>, h: Handle)
    requires h in s
    ensures multiset(RemoveFirst(s, h).value) == multiset(s) - multiset{h}
  {
    var i := IndexOf(s, h);
    assert s == s[..i] + [h] + s[i + 1..];
  }

  const NotInList := ValueError("list.remove(x): x not in list")

  /** The registry change of `disconnect`: nothing for an absent asset; ValueError
      when the asset's list lacks the handle; otherwise its first occurrence goes,
      and the key goes with it when the list empties. */
  function DisconnectSpec(reg: Registry, assetId: int, h: Handle): (r: Result<Registry>)
    ensures assetId !in reg ==> r == Ok(reg)
    ensures assetId in reg ==> (r.Err? <==> h !in reg[assetId])
    ensures r.Err? ==> r.error == NotInList
    ensures r.Ok? ==> r.value.Keys <= reg.Keys
                      && forall k :: k in reg && k != assetId ==> k in r.value && r.value[k] == reg[k]
    ensures r.Ok? && assetId in reg ==>
              && Connected(r.value, assetId) == RemoveFirst(reg[assetId], h).value
              && (assetId in r.value <==> Connected(r.value, assetId) != [])
  {
    if assetId !in reg then Ok(reg)
    else
      match RemoveFirst(reg[assetId], h)
      case None => Err(NotInList)
      case Some(rest) => if rest == [] then Ok(reg - {assetId}) else Ok(reg[assetId := rest])
  }

  /** Both registry changes keep every list non-empty. */
  lemma RegistryChangesKeepListsNonEmpty(reg: Registry, assetId: int, h: Handle)
    requires NoEmptyLists(reg)
    ensures NoEmptyLists(ConnectSpec(reg, assetId, h))
    ensures DisconnectSpec(reg, assetId, h).Ok? ==> NoEmptyLists(DisconnectSpec(reg, assetId, h).value)
  {
    var c := ConnectSpec(reg, assetId, h);
    assert forall k :: k in c ==> c[k] != [] by {
      forall k | k in c ensures c[k] != [] {
        if k == assetId {
          assert Connected(c, assetId) == c[k];
        }
      }
    }
  }

  /** Disconnecting a handle just connected, that the asset did not hold before,
      gives back the registry as it was. */
  lemma {:induction false} DisconnectUndoesConnect(reg: Registry, assetId: int, h: Handle)
    requires NoEmptyLists(reg)
    requires h !in Connected(reg, assetId)
    ensures DisconnectSpec(ConnectSpec(reg, assetId, h), assetId, h) == Ok(reg)
  {
    var before := Connected(reg, assetId);
    var c := ConnectSpec(reg, assetId, h);
    assert c[assetId] == before + [h];
    var removed := RemoveFirst(c[assetId], h);
    assert forall j :: 0 <= j < |before| ==> c[assetId][j] == before[j];
    assert IndexOf(c[assetId], h) == |before|;
    assert c[assetId][..|before|] == before;
    assert removed.value == before;
    if assetId in reg {
      assert before != [];
      assert DisconnectSpec(c, assetId, h) == Ok(c[assetId := before]);
      assert c[assetId := before] == reg;
    } else {
      assert DisconnectSpec(c, assetId, h) == Ok(c - {assetId});
      assert c - {assetId} == reg;
    }
  }

  /** The sends of a broadcast: one per connection, in list order. */
  function Sends(handles: seq<Handle>, message: string): (r: seq<Event>)
    ensures |r| == |handles|
    ensures forall i :: 0 <= i < |handles| ==> r[i] == Send(handles[i], message)
  {
    seq(|handles|, i requires 0 <= i < |handles| => Send(handles[i], message))
  }

  const MissingRegistry := AttributeError("active_connections")

  /** `WebSocketManager`. The source names its initialiser `_init_`, which Python
      never calls; `initialised` records whether `active_connections` exists. */
  class WebSocketManager {
    var activeConnections: Registry
    var initialised: bool
    ghost var log: seq<Event>

    ghost predicate Valid()
      reads this
    {
      NoEmptyLists(activeConnections)
    }

    /** The evidently intended `__init__`: an empty registry. */
    constructor ()
      ensures Valid() && initialised && activeConnections == map[] && log == []
    {
      activeConnections := map[];
      initialised := true;
      log := [];
    }

    /** `WebSocketManager()` as written: `_init_` does not run, so the instance has
        no `active_connections` attribute. */
    constructor AsWritten()
      ensures Valid() && !initialised && log == []
    {
      activeConnections := map[];
      initialised := false;
      log := [];
    }

    /** `connect`: accepts the connection, then appends it to the asset's list.
        Without the attribute the append raises AttributeError after the accept. */
    method Connect(ws: Handle, assetId: int) returns (r: Outcome)
      requires Valid()
      modifies this
      ensures Valid() && initialised == old(initialised)
      ensures log == old(log) + [Accept(ws)]
      ensures !initialised ==> r == Fail(MissingRegistry) && activeConnections == old(activeConnections)
      ensures initialised ==> r == Pass && activeConnections == ConnectSpec(old(activeConnections), assetId, ws)
    {
      log := log + [Accept(ws)];
      if !initialised {
        return Fail(MissingRegistry);
      }
      RegistryChangesKeepListsNonEmpty(activeConnections, assetId, ws);
      activeConnections := ConnectSpec(activeConnections, assetId, ws);
      r := Pass;
    }

    /** `disconnect`: removes the first occurrence of the connection from the
        asset's list and deletes the key when the list empties. */
    method Disconnect(ws: Handle, assetId: int) returns (r: Outcome)
      requires Valid()
      modifies this
      ensures Valid() && initialised == old(initialised) && log == old(log)
      ensures !initialised ==> r == Fail(MissingRegistry) && activeConnections == old(activeConnections)
      ensures initialised && DisconnectSpec(old(activeConnections), assetId, ws).Err? ==>
                r == Fail(NotInList) && activeConnections == old(activeConnections)
      ensures initialised && DisconnectSpec(old(activeConnections), assetId, ws).Ok? ==>
                r == Pass && activeConnections == DisconnectSpec(old(activeConnections), assetId, ws).value
    {
      if !initialised {
        return Fail(MissingRegistry);
      }
      RegistryChangesKeepListsNonEmpty(activeConnections, assetId, ws);
      var next := DisconnectSpec(activeConnections, assetId, ws);
      if next.Err? {
        return Fail(next.error);
      }
      activeConnections := next.value;
      r := Pass;
    }

    /** `broadcast`: sends the message to each connection of the asset in list
        order; the registry does not change. */
    method Broadcast(assetId: int, message: string) returns (r: Outcome)
      requires Valid()
      modifies this
      ensures Valid()
      ensures activeConnections == old(activeConnections) && initialised == old(initialised)
      ensures !initialised ==> r == Fail(MissingRegistry) && log == old(log)
      ensures initialised ==> r == Pass && log == old(log) + Sends(Connected(activeConnections, assetId), message)
    {
      if !initialised {
        return Fail(MissingRegistry);
      }
      if assetId !in activeConnections {
        assert Sends([], message) == [];
        return Pass;
      }
      var connections := activeConnections[assetId];
      var i := 0;
      while i < |connections|
        invariant 0 <= i <= |connections|
        invariant activeConnections == old(activeConnections) && initialised
        invariant log == old(log) + Sends(connections[..i], message)
      {
        assert Sends(connections[..i + 1], message) == Sends(connections[..i], message)
                                                       + [Send(connections[i], message)];
        log := log + [Send(connections[i], message)];
        i := i + 1;
      }
      assert connections[..i] == connections;
      r := Pass;
    }
  }

  /** `manager.connect` on the module-level manager as written: the accept happens
      and the call raises AttributeError. */
  method ConnectOnFreshManagerAsWritten(ws: Handle, assetId: int) returns (r: Outcome)
    ensures r == Fail(MissingRegistry)
  {
    var manager := new WebSocketManager.AsWritten();
    r := manager.Connect(ws, assetId);
  }

  /** The same call with the intended initialiser: it succeeds and the asset has
      exactly that one connection. */
  method ConnectOnFreshManager(ws: Handle, assetId: int) returns (r: Outcome, connected: seq<Handle>)
    ensures r == Pass && connected == [ws]
  {
    var manager := new WebSocketManager();
    r := manager.Connect(ws, assetId);
    connected := Connected(manager.activeConnections, assetId);
  }

  /** `run_geo_checks`: the fence sweep, then the stale sweep only when the fence
      sweep did not raise; the exception is caught and reported instead of raised. */
  method RunGeoChecks(db: Database, now: int, contains: (Zone, real, real) -> bool,
                      fmt: real -> string)
    returns (caught: Option<Error>)
    requires db.Valid()
    modifies db
    ensures db.Valid()
    ensures var fence := FenceSweep(old(db.Snapshot()), now, contains, fmt);
            var stale := StaleSweep(fence.0, now);
            && (fence.1.Fail? ==> db.Snapshot() == fence.0 && caught == Some(fence.1.error))
            && (fence.1.Pass? ==> db.Snapshot() == stale.0
                                  && caught == (if stale.1.Fail? then Some(stale.1.error) else None))
  {
    var fence := CheckGeoFences(db, now, contains, fmt);
    if fence.Fail? {
      return Some(fence.error);
    }
    var stale := CheckStaleLocations(db, now);
    caught := if stale.Fail? then Some(stale.error) else None;
  }
}
